/** The registry's transactions, their frames, and the recovery of a registry from its log. */
module Journal {
  import opened Wire
  import opened Outcomes
  import opened Tasks
  import opened Frames

  /** The payload of a prepare frame. */
  datatype Transaction = Transaction(
    id: Bytes,
    index: u64,
    previousId: Bytes,
    task: TaskId,
    previousVersion: u64,
    newVersion: u64,
    mutation: Mutation)

  type Versions = map<TaskId, u64>

  /** What the registry serves from memory. */
  datatype Image = Image(records: Records, versions: Versions, lastIndex: u64, lastId: Bytes)

  const EMPTY: Image := Image(map[], map[], 0, [])

  datatype SnapshotRecord = SnapshotRecord(format: nat, image: Image)

  const FORMAT: nat := 1

  datatype Options = Options(maxTasks: nat, maxRecordBytes: nat, compactAfterRecords: nat, compactAfterBytes: nat)

  /** SHA-256 and the JSON encodings, as arbitrary functions. */
  datatype Codec = Codec(
    sha: Bytes -> Digest,
    mutationJson: Mutation -> Bytes,
    transactionJson: Transaction -> Bytes,
    parseTransaction: Bytes -> Option<Transaction>,
    snapshotJson: SnapshotRecord -> Bytes,
    parseSnapshot: Bytes -> Option<SnapshotRecord>)
  {
    /** Parsing undoes printing, and a printed transaction contains its own id. */
    ghost predicate Faithful() {
      && (forall t :: parseTransaction(transactionJson(t)) == Some(t) && |transactionJson(t)| >= |t.id|)
      && (forall s :: parseSnapshot(snapshotJson(s)) == Some(s))
    }
  }

  datatype Env = Env(codec: Codec, options: Options, replicas: nat)

  // ----- Transactions -----

  /** `transaction_id`: the hexadecimal hash that chains a transaction to its predecessor. */
  function ChainId(codec: Codec, previousId: Bytes, index: u64, previousVersion: u64, json: Bytes): (r: Bytes)
    ensures |r| == 64
  {
    Hex(codec.sha(previousId + Le(index, 8) + Le(previousVersion, 8) + json))
  }

  function VersionOf(image: Image, task: TaskId): u64 {
    if task in image.versions then image.versions[task] else 0
  }

  /** The checks that recovery makes before it applies or keeps a transaction. */
  predicate Acceptable(env: Env, image: Image, t: Transaction) {
    && t.previousId == image.lastId
    && t.index == SatAdd(image.lastIndex, 1)
    && t.previousVersion == VersionOf(image, t.task)
    && t.newVersion == SatAdd(t.previousVersion, 1)
    && t.id == ChainId(env.codec, t.previousId, t.index, t.previousVersion, env.codec.mutationJson(t.mutation))
    && Apply(image.records, t.mutation, env.options.maxTasks).Ok?
  }

  /** The image after a transaction is committed. */
  function Publish(env: Env, image: Image, t: Transaction): Image {
    match Apply(image.records, t.mutation, env.options.maxTasks)
    case Err(_) => image
    case Ok(record) =>
      Image(image.records[t.task := record], image.versions[t.task := t.newVersion], t.index, t.id)
  }

  function PrepareFrame(codec: Codec, t: Transaction): Frame {
    Frame(Prepare, t.index, codec.transactionJson(t))
  }

  function CommitFrame(t: Transaction): Frame {
    Frame(Commit, t.index, t.id)
  }

  /** What `transact_locked` guarantees of a transaction that it writes. */
  predicate Genuine(env: Env, image: Image, t: Transaction) {
    && Acceptable(env, image, t)
    && t.index == image.lastIndex + 1
    && t.newVersion == t.previousVersion + 1
    && t.task == t.mutation.Target()
    && FromCall(t.mutation)
    && |env.codec.transactionJson(t)| <= env.options.maxRecordBytes
    && Fits(PrepareFrame(env.codec, t))
  }

  type History = seq<Transaction>

  /** The image that a history of committed transactions produces. */
  function ImageOf(env: Env, h: History): Image {
    if h == [] then EMPTY else Publish(env, ImageOf(env, h[..|h| - 1]), h[|h| - 1])
  }

  predicate Chain(env: Env, h: History) {
    h == [] || (Chain(env, h[..|h| - 1]) && Genuine(env, ImageOf(env, h[..|h| - 1]), h[|h| - 1]))
  }

  function Pairs(codec: Codec, h: History): (fs: seq<Frame>)
    ensures |fs| == 2 * |h|
  {
    if h == [] then [] else [PrepareFrame(codec, h[0]), CommitFrame(h[0])] + Pairs(codec, h[1..])
  }

  // ----- Recovery -----

  /** The state of the replay loop: the image so far and the prepares still without a commit. */
  datatype Cursor = Cursor(image: Image, open: map<u64, Transaction>, count: nat)

  function ReplayFrame(env: Env, base: u64, c: Cursor, f: Frame): Result<Cursor> {
    if f.kind.Snapshot? then Err(Corrupt)
    else if f.index <= base then Ok(c)
    else if f.kind.Prepare? then
      match env.codec.parseTransaction(f.payload)
      case None => Err(Corrupt)
      case Some(t) =>
        if t.index != f.index then Err(Corrupt)
        else if f.index !in c.open then Ok(c.(open := c.open[f.index := t]))
        else if c.open[f.index].id != t.id then Err(Corrupt)
        else Ok(c)
    else if f.index !in c.open then Err(Corrupt)
    else
      var t := c.open[f.index];
      if t.id != f.payload || !Acceptable(env, c.image, t) then Err(Corrupt)
      else Ok(Cursor(Publish(env, c.image, t), c.open - {f.index}, c.count + 1))
  }

  function ReplayFrom(env: Env, base: u64, bytes: Bytes, offset: nat, c: Cursor): (r: Result<(Cursor, nat)>)
    requires offset <= |bytes|
    ensures r.Ok? ==> offset <= r.value.1 <= |bytes|
    decreases |bytes| - offset
  {
    if offset == |bytes| then Ok((c, offset))
    else
      match Decode(env.codec.sha, bytes, offset, env.options.maxRecordBytes)
      case Incomplete => Ok((c, offset))
      case Rejected => Err(Corrupt)
      case Panics => Err(Panic)
      case Decoded(frame, end) =>
        match ReplayFrame(env, base, c, frame)
        case Err(e) => Err(e)
        case Ok(next) => ReplayFrom(env, base, bytes, end, next)
  }

  /** The first bytes of the superseded line-oriented JSON log, which recovery refuses. */
  predicate LooksLegacy(bytes: Bytes) {
    |bytes| >= 2 && bytes[0] == 0x7B && bytes[1] == 0x22
  }

  /** `kept` is the length of the log that recovery keeps; it truncates the rest. */
  datatype Recovered = Recovered(image: Image, pending: Option<Transaction>, count: nat, kept: nat)

  /** `recover_pending_transaction`: at most one prepare may be left open, and it must be next. */
  function Leftover(env: Env, c: Cursor): Result<Option<Transaction>> {
    var next := SatAdd(c.image.lastIndex, 1);
    if |c.open| == 0 then Ok(None)
    else if |c.open| == 1 && next in c.open && Acceptable(env, c.image, c.open[next]) then Ok(Some(c.open[next]))
    else Err(Corrupt)
  }

  function Finish(env: Env, c: Cursor, kept: nat): Result<Recovered> {
    match Leftover(env, c)
    case Err(e) => Err(e)
    case Ok(pending) => Ok(Recovered(c.image, pending, c.count, kept))
  }

  /** `replay_wal`. */
  function Replay(env: Env, snapshot: Option<SnapshotRecord>, bytes: Bytes): Result<Recovered> {
    var s := if snapshot.Some? then snapshot.value else SnapshotRecord(FORMAT, EMPTY);
    if LooksLegacy(bytes) then Err(Corrupt)
    else if s.format != FORMAT || |s.image.records| > env.options.maxTasks then Err(Corrupt)
    else
      match ReplayFrom(env, s.image.lastIndex, bytes, 0, Cursor(s.image, map[], 0))
      case Err(e) => Err(e)
      case Ok((c, kept)) => Finish(env, c, kept)
  }

  /** The loop of `replay_wal`. */
  method RunReplay(env: Env, snapshot: Option<SnapshotRecord>, bytes: Bytes) returns (r: Result<Recovered>)
    ensures r == Replay(env, snapshot, bytes)
  {
    var s := if snapshot.Some? then snapshot.value else SnapshotRecord(FORMAT, EMPTY);
    if LooksLegacy(bytes) || s.format != FORMAT || |s.image.records| > env.options.maxTasks {
      return Err(Corrupt);
    }
    var base, offset, c := s.image.lastIndex, 0, Cursor(s.image, map[], 0);
    ghost var goal := ReplayFrom(env, base, bytes, 0, c);
    while offset < |bytes|
      invariant offset <= |bytes|
      invariant ReplayFrom(env, base, bytes, offset, c) == goal
    {
      match Decode(env.codec.sha, bytes, offset, env.options.maxRecordBytes)
      case Incomplete => break;
      case Rejected => return Err(Corrupt);
      case Panics => return Err(Panic);
      case Decoded(frame, end) =>
        match ReplayFrame(env, base, c, frame) {
          case Err(e) => return Err(e);
          case Ok(next) => c, offset := next, end;
        }
    }
    return Finish(env, c, offset);
  }

  // ----- Recovery of encoded frames -----

  function ReplayFrames(env: Env, base: u64, c: Cursor, fs: seq<Frame>): Result<Cursor>
    decreases |fs|
  {
    if fs == [] then Ok(c)
    else
      match ReplayFrame(env, base, c, fs[0])
      case Err(e) => Err(e)
      case Ok(next) => ReplayFrames(env, base, next, fs[1..])
  }

  /** Frames that this registry's decoder accepts. */
  predicate Readable(env: Env, fs: seq<Frame>) {
    forall f <- fs :: Fits(f) && |f.payload| <= env.options.maxRecordBytes
  }

  /** Replaying bytes is replaying their frames; a torn frame at the end is never reached. */
  lemma {:induction false} ReplayEncoded(
    env: Env, base: u64, c: Cursor, pre: Bytes, fs: seq<Frame>, next: Frame, cut: nat)
    requires Readable(env, fs) && Fits(next) && cut < Size(next)
    ensures ReplayFrom(env, base, pre + EncodeAll(env.codec.sha, fs) + Encode(env.codec.sha, next)[..cut], |pre|, c)
         == match ReplayFrames(env, base, c, fs)
            case Err(e) => Err(e)
            case Ok(c') => Ok((c', |pre| + |EncodeAll(env.codec.sha, fs)|))
    decreases |fs|
  {
    hide ReplayFrame, Encode, Decode, Fits;
    var sha := env.codec.sha;
    var torn := Encode(sha, next)[..cut];
    if fs == [] {
      assert pre + EncodeAll(sha, fs) + torn == pre + torn;
      DecodeTorn(sha, pre, next, cut, env.options.maxRecordBytes);
    } else {
      var first, rest := Encode(sha, fs[0]), EncodeAll(sha, fs[1..]);
      assert fs[0] in fs;
      Regroup(pre, first, rest, torn);
      DecodeEncoded(sha, pre, fs[0], rest + torn, env.options.maxRecordBytes);
      match ReplayFrame(env, base, c, fs[0]) {
        case Err(_) =>
        case Ok(c') => ReplayEncoded(env, base, c', pre + first, fs[1..], next, cut);
      }
    }
  }

  lemma Regroup(a: Bytes, b: Bytes, c: Bytes, d: Bytes)
    ensures a + (b + c) + d == a + b + (c + d) == a + b + c + d
  {
  }

  lemma {:induction false} ReplayFramesAppend(env: Env, base: u64, c: Cursor, a: seq<Frame>, b: seq<Frame>)
    ensures ReplayFrames(env, base, c, a + b)
         == match ReplayFrames(env, base, c, a)
            case Err(e) => Err(e)
            case Ok(c') => ReplayFrames(env, base, c', b)
    decreases |a|
  {
    if a == [] {
      assert a + b == b;
    } else {
      assert (a + b)[1..] == a[1..] + b;
      match ReplayFrame(env, base, c, a[0]) {
        case Err(_) =>
        case Ok(c') => ReplayFramesAppend(env, base, c', a[1..], b);
      }
    }
  }

  // ----- Histories -----

  lemma PublishedIndex(env: Env, image: Image, t: Transaction)
    requires Genuine(env, image, t)
    ensures Publish(env, image, t).lastIndex == t.index == image.lastIndex + 1
    ensures Publish(env, image, t).lastId == t.id
  {
    hide Apply;
  }

  lemma {:induction false} LastIndex(env: Env, h: History)
    requires Chain(env, h)
    ensures ImageOf(env, h).lastIndex == |h|
  {
    hide Genuine, Publish;
    if h != [] {
      var start := h[..|h| - 1];
      LastIndex(env, start);
      PublishedIndex(env, ImageOf(env, start), h[|h| - 1]);
    }
  }

  lemma {:induction false} ChainPrefix(env: Env, h: History, k: nat)
    requires Chain(env, h) && k <= |h|
    ensures Chain(env, h[..k])
    ensures k < |h| ==> Genuine(env, ImageOf(env, h[..k]), h[k]) && ImageOf(env, h[..k + 1]) == Publish(env, ImageOf(env, h[..k]), h[k])
    decreases |h|
  {
    hide Genuine, Publish;
    if k == |h| {
      assert h[..k] == h;
    } else if k == |h| - 1 {
      assert h[..k + 1] == h;
    } else {
      var start := h[..|h| - 1];
      ChainPrefix(env, start, k);
      assert start[..k] == h[..k] && start[..k + 1] == h[..k + 1];
    }
  }

  lemma ChainIndex(env: Env, h: History, i: nat)
    requires Chain(env, h) && i < |h|
    ensures h[i].index == i + 1
  {
    hide Acceptable, Publish, Chain;
    ChainPrefix(env, h, i);
    LastIndex(env, h[..i]);
  }

  lemma ChainExtend(env: Env, h: History, t: Transaction)
    requires Chain(env, h) && Genuine(env, ImageOf(env, h), t)
    ensures Chain(env, h + [t]) && ImageOf(env, h + [t]) == Publish(env, ImageOf(env, h), t)
  {
    hide Genuine, Publish;
    assert (h + [t])[..|h|] == h;
  }

  /** Replaying the frames of one transaction publishes it. */
  lemma ReplayPair(env: Env, base: u64, c: Cursor, t: Transaction)
    requires env.codec.Faithful() && Genuine(env, c.image, t) && t.index > base && c.open == map[]
    ensures ReplayFrame(env, base, c, PrepareFrame(env.codec, t)) == Ok(c.(open := map[t.index := t]))
    ensures ReplayFrame(env, base, c.(open := map[t.index := t]), CommitFrame(t))
         == Ok(Cursor(Publish(env, c.image, t), map[], c.count + 1))
  {
    assert map[t.index := t] - {t.index} == map[];
  }

  lemma ReplayPairFrames(env: Env, base: u64, c: Cursor, t: Transaction, rest: seq<Frame>)
    requires env.codec.Faithful() && Genuine(env, c.image, t) && t.index > base && c.open == map[]
    ensures ReplayFrames(env, base, c, [PrepareFrame(env.codec, t), CommitFrame(t)] + rest)
         == ReplayFrames(env, base, Cursor(Publish(env, c.image, t), map[], c.count + 1), rest)
    ensures ReplayFrames(env, base, c, [PrepareFrame(env.codec, t)]) == Ok(c.(open := map[t.index := t]))
  {
    ReplayPair(env, base, c, t);
    var two := [PrepareFrame(env.codec, t), CommitFrame(t)];
    assert (two + rest)[1..] == [CommitFrame(t)] + rest;
    assert ([CommitFrame(t)] + rest)[1..] == rest;
  }

  lemma ReplayNone(env: Env, base: u64, c: Cursor)
    ensures ReplayFrames(env, base, c, []) == Ok(c)
  {
  }

  /** The cursor after `done` transactions of `h`, with the next one prepared when `half`. */
  function CursorAt(env: Env, h: History, base: nat, done: nat, half: bool): Cursor
    requires base <= done <= |h| && (half ==> done < |h|)
  {
    Cursor(ImageOf(env, h[..done]), if half then map[h[done].index := h[done]] else map[], done - base)
  }

  /** Any number of frames of a chain's log replay to the transactions they commit. */
  lemma {:induction false} ReplayPairs(env: Env, h: History, base: nat, at: nat, n: nat)
    requires env.codec.Faithful() && Chain(env, h) && base <= at <= |h| < U64_LIMIT && n <= 2 * (|h| - at)
    ensures ReplayFrames(env, base, CursorAt(env, h, base, at, false), Pairs(env.codec, h[at..])[..n])
         == Ok(CursorAt(env, h, base, at + n / 2, n % 2 == 1))
    decreases n
  {
    hide ImageOf, Chain, Genuine, Publish, ReplayFrame, ReplayFrames;
    var c := CursorAt(env, h, base, at, false);
    var all := Pairs(env.codec, h[at..]);
    if n == 0 {
      ReplayNone(env, base, c);
    } else {
      ChainPrefix(env, h, at);
      ChainIndex(env, h, at);
      assert h[at..][0] == h[at] && h[at..][1..] == h[at + 1..];
      var two := [PrepareFrame(env.codec, h[at]), CommitFrame(h[at])];
      var rest := Pairs(env.codec, h[at + 1..]);
      assert all == two + rest;
      if n == 1 {
        assert all[..1] == [PrepareFrame(env.codec, h[at])];
        ReplayPairFrames(env, base, c, h[at], []);
      } else {
        assert all[..n] == two + rest[..n - 2];
        ReplayPairFrames(env, base, c, h[at], rest[..n - 2]);
        ReplayPairs(env, h, base, at + 1, n - 2);
        assert at + 1 + (n - 2) / 2 == at + n / 2 && (n - 2) % 2 == n % 2;
      }
    }
  }

  lemma {:induction false} ReplayStale(env: Env, base: u64, c: Cursor, stale: seq<Frame>)
    requires Stale(stale, base)
    ensures ReplayFrames(env, base, c, stale) == Ok(c)
  {
    if stale != [] {
      assert stale[0] in stale;
      ReplayStale(env, base, c, stale[1..]);
    }
  }

  /** Frames that a snapshot up to `base` has made obsolete. */
  predicate Stale(fs: seq<Frame>, base: nat) {
    forall f <- fs :: f.index <= base && !f.kind.Snapshot?
  }

  // ----- Recovery of a log that is cut anywhere -----

  /** The full log of a history above a snapshot: leftovers, then a pair of frames a transaction. */
  function Log(codec: Codec, stale: seq<Frame>, base: nat, known: History): (fs: seq<Frame>)
    requires base <= |known|
    ensures |fs| == |stale| + 2 * (|known| - base)
  {
    stale + Pairs(codec, known[base..])
  }

  /** The snapshot covers the first `base` transactions. */
  predicate Covers(env: Env, snapshot: Option<SnapshotRecord>, known: History, base: nat)
    requires base <= |known|
  {
    if snapshot.None? then base == 0 else snapshot.value == SnapshotRecord(FORMAT, ImageOf(env, known[..base]))
  }

  /** How many transactions the first `whole` frames of a log commit. */
  function Done(stale: seq<Frame>, base: nat, whole: nat): nat {
    if whole < |stale| then base else base + (whole - |stale|) / 2
  }

  /** Whether the last of those frames is a prepare without its commit. */
  predicate Half(stale: seq<Frame>, whole: nat) {
    whole >= |stale| && (whole - |stale|) % 2 == 1
  }

  lemma {:induction false} ImageBounded(env: Env, h: History)
    requires Chain(env, h)
    ensures AllWellFormed(ImageOf(env, h).records) && |ImageOf(env, h).records| <= env.options.maxTasks
  {
    hide Apply, WellFormed;
    if h != [] {
      var start, t := h[..|h| - 1], h[|h| - 1];
      ImageBounded(env, start);
      ApplyKeeps(ImageOf(env, start).records, t.mutation, env.options.maxTasks);
    }
  }

  predicate Storable(env: Env, t: Transaction) {
    && Fits(PrepareFrame(env.codec, t)) && |t.id| == 64
    && 64 <= |env.codec.transactionJson(t)| <= env.options.maxRecordBytes
  }

  lemma ChainStorable(env: Env, h: History, i: nat)
    requires env.codec.Faithful() && Chain(env, h) && i < |h|
    ensures Storable(env, h[i])
  {
    hide Apply, Chain, ImageOf;
    ChainPrefix(env, h, i);
  }

  lemma {:induction false} PairsReadable(env: Env, h: History)
    requires forall t <- h :: Storable(env, t)
    ensures Readable(env, Pairs(env.codec, h))
  {
    if h != [] {
      assert h[0] in h;
      PairsReadable(env, h[1..]);
    }
  }

  lemma LogReadable(env: Env, known: History, base: nat, stale: seq<Frame>)
    requires env.codec.Faithful() && Chain(env, known) && base <= |known| && Readable(env, stale)
    ensures Readable(env, Log(env.codec, stale, base, known)) && AllFit(Log(env.codec, stale, base, known))
  {
    hide Chain, Pairs, Storable, Fits;
    forall t | t in known[base..]
      ensures Storable(env, t)
    {
      var i :| base <= i < |known| && known[i] == t;
      ChainStorable(env, known, i);
    }
    PairsReadable(env, known[base..]);
  }

  /** Any number of frames of a log replay to the transactions that they commit. */
  lemma ReplayLog(env: Env, known: History, base: nat, stale: seq<Frame>, whole: nat)
    requires env.codec.Faithful() && Chain(env, known) && base <= |known| < U64_LIMIT && Stale(stale, base)
    requires whole <= |stale| + 2 * (|known| - base)
    ensures ReplayFrames(env, base, CursorAt(env, known, base, base, false), Log(env.codec, stale, base, known)[..whole])
         == Ok(CursorAt(env, known, base, Done(stale, base, whole), Half(stale, whole)))
  {
    hide ReplayFrames, CursorAt, Chain, Pairs;
    var c, pairs := CursorAt(env, known, base, base, false), Pairs(env.codec, known[base..]);
    var fs := Log(env.codec, stale, base, known)[..whole];
    if whole < |stale| {
      assert fs == stale[..whole];
      ReplayStale(env, base, c, stale[..whole]);
    } else {
      assert fs == stale + pairs[..whole - |stale|];
      ReplayFramesAppend(env, base, c, stale, pairs[..whole - |stale|]);
      ReplayStale(env, base, c, stale);
      ReplayPairs(env, known, base, base, whole - |stale|);
    }
  }

  lemma FinishAt(env: Env, known: History, base: nat, done: nat, half: bool, kept: nat)
    requires Chain(env, known) && base <= done <= |known| < U64_LIMIT && (half ==> done < |known|)
    ensures Finish(env, CursorAt(env, known, base, done, half), kept)
         == Ok(Recovered(ImageOf(env, known[..done]), if half then Some(known[done]) else None, done - base, kept))
  {
    hide Chain, ImageOf, Apply;
    ChainPrefix(env, known, done);
    LastIndex(env, known[..done]);
    if half {
      ChainIndex(env, known, done);
      var open := map[known[done].index := known[done]];
      assert open.Keys == {known[done].index};
    }
  }

  /** What recovery finds in `whole` frames of a log: exactly what they commit, and no more. */
  function Found(env: Env, known: History, base: nat, stale: seq<Frame>, whole: nat): Recovered
    requires base <= |known| && whole <= |stale| + 2 * (|known| - base)
  {
    var done := Done(stale, base, whole);
    Recovered(ImageOf(env, known[..done]), if Half(stale, whole) then Some(known[done]) else None, done - base,
              |EncodeAll(env.codec.sha, Log(env.codec, stale, base, known)[..whole])|)
  }

  /**
   For every byte at which a log is cut, recovery reports no corruption and yields exactly the
   transactions whose commit frame lies wholly before the cut, with a fully written trailing
   prepare as the pending one.  The one exception is a log that starts like the legacy format.
   */
  lemma RecoverAnyCut(
    env: Env, known: History, base: nat, stale: seq<Frame>, snapshot: Option<SnapshotRecord>, cut: nat)
    requires env.codec.Faithful() && Chain(env, known) && base <= |known| < U64_LIMIT
    requires Stale(stale, base) && Readable(env, stale) && Covers(env, snapshot, known, base)
    requires cut <= |EncodeAll(env.codec.sha, Log(env.codec, stale, base, known))|
    ensures var log := Log(env.codec, stale, base, known);
            var bytes := EncodeAll(env.codec.sha, log)[..cut];
            Replay(env, snapshot, bytes) ==
            if LooksLegacy(bytes) then Err(Corrupt) else Ok(Found(env, known, base, stale, Whole(log, cut)))
  {
    hide ReplayFrom, EncodeAll, Encode, Whole, Log, Readable, Finish, Chain, ImageOf, Found, Stale;
    ReplayCut(env, known, base, stale, cut);
    ChainPrefix(env, known, base);
    LastIndex(env, known[..base]);
    ImageBounded(env, known[..base]);
    StartsEmpty(env, known);
  }

  /** The replay loop over a cut log, from the image that its snapshot holds. */
  lemma ReplayCut(env: Env, known: History, base: nat, stale: seq<Frame>, cut: nat)
    requires env.codec.Faithful() && Chain(env, known) && base <= |known| < U64_LIMIT
    requires Stale(stale, base) && Readable(env, stale)
    requires cut <= |EncodeAll(env.codec.sha, Log(env.codec, stale, base, known))|
    ensures var log := Log(env.codec, stale, base, known);
            var r := ReplayFrom(env, base, EncodeAll(env.codec.sha, log)[..cut], 0, Cursor(ImageOf(env, known[..base]), map[], 0));
            r.Ok? && Finish(env, r.value.0, r.value.1) == Ok(Found(env, known, base, stale, Whole(log, cut)))
  {
    hide ReplayFrames, ReplayFrom, EncodeAll, Encode, Whole, Log, Readable, Finish, Chain, ImageOf, Stale;
    var log, sha := Log(env.codec, stale, base, known), env.codec.sha;
    var whole := Whole(log, cut);
    LogReadable(env, known, base, stale);
    var next, left := CutShape(sha, log, cut);
    ReadableTake(env, log, whole);
    ReplayEncoded(env, base, Cursor(ImageOf(env, known[..base]), map[], 0), [], log[..whole], next, left);
    ReplayLog(env, known, base, stale, whole);
    FinishAt(env, known, base, Done(stale, base, whole), Half(stale, whole), |EncodeAll(sha, log[..whole])|);
  }

  lemma StartsEmpty(env: Env, h: History)
    ensures ImageOf(env, h[..0]) == EMPTY
  {
  }

  lemma ReadableTake(env: Env, fs: seq<Frame>, n: nat)
    requires Readable(env, fs) && n <= |fs|
    ensures Readable(env, fs[..n])
  {
  }
}
