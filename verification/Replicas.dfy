/** The file replicas of the registry: an append-only log of prepare/commit pairs. */
module Replicas {
  import opened Wire
  import opened Outcomes
  import opened Frames
  import opened Journal

  /** `acked` is auxiliary: the transactions that the replica has acknowledged, in order. */
  datatype Replica = Replica(open: bool, wal: Bytes, committed: map<u64, Bytes>, acked: History)

  const NEW_REPLICA: Replica := Replica(true, [], map[], [])

  function Pair(codec: Codec, t: Transaction): seq<Frame> {
    [PrepareFrame(codec, t), CommitFrame(t)]
  }

  /** `FileMetadataReplica::commit`; a failed write is rolled back. */
  function ReplicaCommit(codec: Codec, rep: Replica, t: Transaction, written: bool): Result<Replica> {
    if !rep.open then Err(Storage)
    else if t.index in rep.committed then
      if rep.committed[t.index] == t.id then Ok(rep) else Err(Conflict)
    else if !written then Err(Storage)
    else Ok(Replica(true, rep.wal + EncodeAll(codec.sha, Pair(codec, t)),
                    rep.committed[t.index := t.id], rep.acked + [t]))
  }

  // ----- Reopening -----

  /** `open` holds the prepares without a commit: their ids and where they start. */
  datatype Scan = Scan(committed: map<u64, Bytes>, open: map<u64, (Bytes, nat)>)

  /** `DEFAULT_MAX_REGISTRY_RECORD_BYTES`, which replicas use whatever the registry's own limit. */
  const REPLICA_LIMIT: nat := 65536

  function ScanFrame(codec: Codec, c: Scan, f: Frame, offset: nat): Result<Scan> {
    match f.kind
    case Snapshot => Err(Corrupt)
    case Prepare =>
      (match codec.parseTransaction(f.payload)
       case None => Err(Corrupt)
       case Some(t) =>
         if t.index != f.index then Err(Corrupt)
         else if f.index in c.open then Ok(c)
         else Ok(c.(open := c.open[f.index := (t.id, offset)])))
    case Commit =>
      if f.index in c.committed && c.committed[f.index] == f.payload then Ok(c)
      else if f.index !in c.open || c.open[f.index].0 != f.payload then Err(Corrupt)
      else Ok(Scan(c.committed[f.index := f.payload], c.open - {f.index}))
  }

  function ScanFrom(codec: Codec, bytes: Bytes, offset: nat, c: Scan): (r: Result<(Scan, nat)>)
    requires offset <= |bytes|
    ensures r.Ok? ==> r.value.1 <= |bytes|
    decreases |bytes| - offset
  {
    if offset == |bytes| then Ok((c, offset))
    else
      match Decode(codec.sha, bytes, offset, REPLICA_LIMIT)
      case Incomplete => Ok((c, offset))
      case Rejected => Err(Corrupt)
      case Panics => Err(Panic)
      case Decoded(frame, end) =>
        match ScanFrame(codec, c, frame, offset)
        case Err(e) => Err(e)
        case Ok(next) => ScanFrom(codec, bytes, end, next)
  }

  /** The least start of an open prepare that is not below `at`, else `end`. */
  function FirstOpen(open: map<u64, (Bytes, nat)>, at: nat, end: nat): (r: nat)
    requires at <= end
    ensures at <= r <= end
    decreases end - at
  {
    if at == end || exists i <- open :: open[i].1 == at then at else FirstOpen(open, at + 1, end)
  }

  /** `scan_transaction_ids`: the ids found, and the length of the log that is kept. */
  function ScanLog(codec: Codec, bytes: Bytes): (r: Result<(map<u64, Bytes>, nat)>)
    ensures r.Ok? ==> r.value.1 <= |bytes|
  {
    if LooksLegacy(bytes) then Err(Corrupt)
    else
      match ScanFrom(codec, bytes, 0, Scan(map[], map[]))
      case Err(e) => Err(e)
      case Ok((c, end)) => Ok((c.committed, FirstOpen(c.open, 0, end)))
  }

  /** The loop of `scan_transaction_ids`. */
  method RunScan(codec: Codec, bytes: Bytes) returns (r: Result<(map<u64, Bytes>, nat)>)
    ensures r == ScanLog(codec, bytes)
  {
    if LooksLegacy(bytes) {
      return Err(Corrupt);
    }
    var offset, c := 0, Scan(map[], map[]);
    ghost var goal := ScanFrom(codec, bytes, 0, c);
    while offset < |bytes|
      invariant offset <= |bytes|
      invariant ScanFrom(codec, bytes, offset, c) == goal
    {
      match Decode(codec.sha, bytes, offset, REPLICA_LIMIT)
      case Incomplete => break;
      case Rejected => return Err(Corrupt);
      case Panics => return Err(Panic);
      case Decoded(frame, end) =>
        match ScanFrame(codec, c, frame, offset) {
          case Err(e) => return Err(e);
          case Ok(next) => c, offset := next, end;
        }
    }
    return Ok((c.committed, FirstOpen(c.open, 0, offset)));
  }

  // ----- What a scan of a replica's own log finds -----

  function Ids(h: History): map<u64, Bytes> {
    if h == [] then map[] else Ids(h[..|h| - 1])[h[|h| - 1].index := h[|h| - 1].id]
  }

  lemma {:induction false} IdsLookup(h: History, i: u64) returns (k: nat)
    requires i in Ids(h)
    ensures k < |h| && h[k].index == i && Ids(h)[i] == h[k].id
  {
    if h[|h| - 1].index == i {
      k := |h| - 1;
    } else {
      k := IdsLookup(h[..|h| - 1], i);
    }
  }

  predicate Rising(h: History) {
    forall i, j :: 0 <= i < j < |h| ==> h[i].index < h[j].index
  }

  predicate Written(codec: Codec, t: Transaction) {
    Fits(PrepareFrame(codec, t)) && |t.id| == 64
  }

  predicate AllWritten(codec: Codec, h: History) {
    forall t <- h :: Written(codec, t)
  }

  /** The payloads that a replica can read back. */
  predicate Small(codec: Codec, h: History) {
    forall t <- h :: |codec.transactionJson(t)| <= REPLICA_LIMIT
  }

  function ScanFrames(codec: Codec, c: Scan, fs: seq<Frame>, offset: nat): Result<Scan>
    decreases |fs|
  {
    if fs == [] then Ok(c)
    else if |fs[0].payload| > REPLICA_LIMIT then Err(Corrupt)
    else
      match ScanFrame(codec, c, fs[0], offset)
      case Err(e) => Err(e)
      case Ok(next) => ScanFrames(codec, next, fs[1..], offset + Size(fs[0]))
  }

  lemma {:induction false} ScanEncoded(codec: Codec, c: Scan, pre: Bytes, fs: seq<Frame>, next: Frame, cut: nat)
    requires AllFit(fs) && Fits(next) && cut < Size(next)
    ensures ScanFrom(codec, pre + EncodeAll(codec.sha, fs) + Encode(codec.sha, next)[..cut], |pre|, c)
         == match ScanFrames(codec, c, fs, |pre|)
            case Err(e) => Err(e)
            case Ok(c') => Ok((c', |pre| + |EncodeAll(codec.sha, fs)|))
    decreases |fs|
  {
    hide ScanFrame, Encode, Decode, Fits;
    var sha := codec.sha;
    var torn := Encode(sha, next)[..cut];
    if fs == [] {
      assert pre + EncodeAll(sha, fs) + torn == pre + torn;
      DecodeTorn(sha, pre, next, cut, REPLICA_LIMIT);
    } else {
      var first, rest := Encode(sha, fs[0]), EncodeAll(sha, fs[1..]);
      assert fs[0] in fs;
      var bytes := pre + first + (rest + torn);
      Regroup(pre, first, rest, torn);
      assert bytes == pre + EncodeAll(sha, fs) + torn == pre + first + rest + torn;
      DecodeEncoded(sha, pre, fs[0], rest + torn, REPLICA_LIMIT);
      if |fs[0].payload| <= REPLICA_LIMIT {
        assert |pre + first| == |pre| + Size(fs[0]);
        match ScanFrame(codec, c, fs[0], |pre|) {
          case Err(_) =>
          case Ok(c') => ScanEncoded(codec, c', pre + first, fs[1..], next, cut);
        }
      }
    }
  }

  function LogSize(codec: Codec, h: History): nat {
    |EncodeAll(codec.sha, Pairs(codec, h))|
  }

  /** The scan after `done` transactions of `h`, with the next one prepared when `half`. */
  function ScanAt(codec: Codec, h: History, done: nat, half: bool): Scan
    requires done <= |h| && (half ==> done < |h|)
  {
    Scan(Ids(h[..done]), if half then map[h[done].index := (h[done].id, LogSize(codec, h[..done]))] else map[])
  }

  lemma {:induction false} PairsAppend(codec: Codec, a: History, b: History)
    ensures Pairs(codec, a + b) == Pairs(codec, a) + Pairs(codec, b)
  {
    if a == [] {
      assert a + b == b;
    } else {
      assert (a + b)[1..] == a[1..] + b;
      PairsAppend(codec, a[1..], b);
    }
  }

  lemma PairOf(codec: Codec, t: Transaction)
    ensures Pairs(codec, [t]) == Pair(codec, t)
    ensures |EncodeAll(codec.sha, Pair(codec, t))| == Size(PrepareFrame(codec, t)) + Size(CommitFrame(t))
  {
    assert Pairs(codec, [t]) == Pair(codec, t) + [];
    var two := Pair(codec, t);
    assert two[1..] == [CommitFrame(t)];
    EncodeOne(codec.sha, CommitFrame(t));
  }

  lemma LogSizeStep(codec: Codec, h: History, k: nat)
    requires k < |h|
    ensures LogSize(codec, h[..k + 1])
         == LogSize(codec, h[..k]) + Size(PrepareFrame(codec, h[k])) + Size(CommitFrame(h[k]))
  {
    assert h[..k + 1] == h[..k] + [h[k]];
    PairsAppend(codec, h[..k], [h[k]]);
    PairOf(codec, h[k]);
    EncodeAllAppend(codec.sha, Pairs(codec, h[..k]), Pair(codec, h[k]));
  }

  lemma FreshIndex(h: History, k: nat)
    requires Rising(h) && k < |h|
    ensures h[k].index !in Ids(h[..k])
    ensures Ids(h[..k + 1]) == Ids(h[..k])[h[k].index := h[k].id]
  {
    if h[k].index in Ids(h[..k]) {
      var _ := IdsLookup(h[..k], h[k].index);
    }
    assert h[..k + 1][..k] == h[..k];
  }

  /** Scanning the frames of one transaction records it. */
  lemma ScanPair(codec: Codec, h: History, k: nat)
    requires codec.Faithful() && Rising(h) && k < |h|
    ensures ScanFrame(codec, ScanAt(codec, h, k, false), PrepareFrame(codec, h[k]), LogSize(codec, h[..k]))
         == Ok(ScanAt(codec, h, k, true))
    ensures forall offset: nat ::
              ScanFrame(codec, ScanAt(codec, h, k, true), CommitFrame(h[k]), offset) == Ok(ScanAt(codec, h, k + 1, false))
  {
    hide LogSize, Ids;
    FreshIndex(h, k);
    var c := ScanAt(codec, h, k, true);
    assert c.open - {h[k].index} == map[];
  }

  lemma ScanPairFrames(codec: Codec, h: History, k: nat, rest: seq<Frame>)
    requires codec.Faithful() && Rising(h) && k < |h| && Written(codec, h[k])
    ensures var small := |codec.transactionJson(h[k])| <= REPLICA_LIMIT;
            && ScanFrames(codec, ScanAt(codec, h, k, false), [PrepareFrame(codec, h[k])], LogSize(codec, h[..k]))
               == (if small then Ok(ScanAt(codec, h, k, true)) else Err(Corrupt))
            && ScanFrames(codec, ScanAt(codec, h, k, false), Pair(codec, h[k]) + rest, LogSize(codec, h[..k]))
               == (if small then ScanFrames(codec, ScanAt(codec, h, k + 1, false), rest, LogSize(codec, h[..k + 1]))
                   else Err(Corrupt))
  {
    hide LogSize, ScanFrame, ScanAt, Rising;
    ScanPair(codec, h, k);
    LogSizeStep(codec, h, k);
    var fs := Pair(codec, h[k]) + rest;
    assert fs[1..] == [CommitFrame(h[k])] + rest;
    assert fs[1..][1..] == rest;
  }

  /** What a scan finds in the next `n` frames: their transactions, unless one is too large. */
  lemma {:induction false} ScanPairs(codec: Codec, h: History, at: nat, n: nat)
    requires codec.Faithful() && Rising(h) && AllWritten(codec, h) && at <= |h| && n <= 2 * (|h| - at)
    ensures ScanFrames(codec, ScanAt(codec, h, at, false), Pairs(codec, h[at..])[..n], LogSize(codec, h[..at]))
         == if Small(codec, h[at..at + (n + 1) / 2]) then Ok(ScanAt(codec, h, at + n / 2, n % 2 == 1)) else Err(Corrupt)
    decreases n
  {
    hide LogSize, ScanAt, Rising, ScanFrames, Written, Small;
    if n == 0 {
      ScanNone(codec, ScanAt(codec, h, at, false), LogSize(codec, h[..at]));
      SmallNone(codec);
      assert h[at..at + (n + 1) / 2] == [] && Pairs(codec, h[at..])[..n] == [];
    } else {
      var t, rest := h[at], Pairs(codec, h[at + 1..]);
      assert h[at..][0] == t && h[at..][1..] == h[at + 1..] && t in h;
      var all := Pairs(codec, h[at..]);
      assert all == Pair(codec, t) + rest;
      var end := at + (n + 1) / 2;
      assert h[at..end] == [t] + h[at + 1..end];
      SmallCons(codec, t, h[at + 1..end]);
      if n == 1 {
        ScanPairFrames(codec, h, at, []);
        assert all[..1] == [PrepareFrame(codec, t)] && h[at + 1..end] == [];
        SmallNone(codec);
      } else {
        ScanPairFrames(codec, h, at, rest[..n - 2]);
        assert all[..n] == Pair(codec, t) + rest[..n - 2];
        assert at + 1 + (n - 2 + 1) / 2 == end && at + 1 + (n - 2) / 2 == at + n / 2 && (n - 2) % 2 == n % 2;
        ScanPairs(codec, h, at + 1, n - 2);
      }
    }
  }

  lemma SmallCons(codec: Codec, t: Transaction, rest: History)
    ensures Small(codec, [t] + rest) <==> |codec.transactionJson(t)| <= REPLICA_LIMIT && Small(codec, rest)
  {
    if Small(codec, [t] + rest) {
      assert t in [t] + rest;
      assert forall u :: u in rest ==> u in [t] + rest;
    }
  }

  lemma SmallNone(codec: Codec)
    ensures Small(codec, [])
  {
  }

  lemma ScanNone(codec: Codec, c: Scan, offset: nat)
    ensures ScanFrames(codec, c, [], offset) == Ok(c)
  {
  }

  lemma {:induction false} NoOpenBelow(open: map<u64, (Bytes, nat)>, at: nat, k: nat, end: nat)
    requires at <= k <= end
    requires forall i <- open :: open[i].1 >= k
    requires k == end || exists i <- open :: open[i].1 == k
    ensures FirstOpen(open, at, end) == k
    decreases k - at
  {
    if at < k {
      NoOpenBelow(open, at + 1, k, end);
    }
  }

  /** The bytes of a replica's log cut anywhere. */
  function ReplicaCut(codec: Codec, h: History, cut: nat): Bytes
    requires cut <= LogSize(codec, h)
  {
    EncodeAll(codec.sha, Pairs(codec, h))[..cut]
  }

  lemma {:induction false} PairsFit(codec: Codec, h: History)
    requires AllWritten(codec, h)
    ensures AllFit(Pairs(codec, h))
  {
    if h != [] {
      assert h[0] in h;
      PairsFit(codec, h[1..]);
    }
  }

  /** A scan of cut bytes as a scan of frames. */
  function ScannedFrames(codec: Codec, fs: seq<Frame>): Result<(Scan, nat)> {
    match ScanFrames(codec, Scan(map[], map[]), fs, 0)
    case Err(e) => Err(e)
    case Ok(c) => Ok((c, |EncodeAll(codec.sha, fs)|))
  }

  lemma ScanCutFrames(codec: Codec, h: History, cut: nat)
    requires AllWritten(codec, h) && cut <= LogSize(codec, h)
    ensures ScanFrom(codec, ReplicaCut(codec, h, cut), 0, Scan(map[], map[]))
         == ScannedFrames(codec, Pairs(codec, h)[..Whole(Pairs(codec, h), cut)])
  {
    hide ScanFrames, ScanFrom, EncodeAll, Encode, Whole, Pairs;
    var fs := Pairs(codec, h);
    PairsFit(codec, h);
    var next, left := CutShape(codec.sha, fs, cut);
    ScanEncoded(codec, Scan(map[], map[]), [], fs[..Whole(fs, cut)], next, left);
  }

  /**
   Wherever a replica's log is cut, reopening keeps exactly the transactions whose pair of frames
   survived whole and drops a prepare without its commit.  It fails exactly when the log starts
   like the legacy format or a surviving prepare exceeds the fixed replica limit.
   */
  lemma ScanAnyCut(codec: Codec, h: History, cut: nat)
    requires codec.Faithful() && Rising(h) && AllWritten(codec, h) && cut <= LogSize(codec, h)
    ensures var bytes := ReplicaCut(codec, h, cut);
            var whole := Whole(Pairs(codec, h), cut);
            ScanLog(codec, bytes) ==
            if LooksLegacy(bytes) || !Small(codec, h[..(whole + 1) / 2]) then Err(Corrupt)
            else Ok((Ids(h[..whole / 2]), LogSize(codec, h[..whole / 2])))
  {
    hide ScanFrames, ScanFrom, EncodeAll, Encode, Whole, Pairs, Ids, FirstOpen, Small, Rising, LooksLegacy, AllWritten;
    var w := Whole(Pairs(codec, h), cut);
    ScanCutFrames(codec, h, cut);
    ScanPairs(codec, h, 0, w);
    ScanStart(codec, h);
    ScanEnd(codec, h, w);
    assert h[0..0 + (w + 1) / 2] == h[..(w + 1) / 2];
  }

  lemma ScanStart(codec: Codec, h: History)
    ensures ScanAt(codec, h, 0, false) == Scan(map[], map[]) && h[0..] == h && LogSize(codec, h[..0]) == 0
  {
    assert h[..0] == [];
  }

  /** The kept length after a scan that saw `w` frames. */
  lemma ScanEnd(codec: Codec, h: History, w: nat)
    requires w <= 2 * |h|
    ensures var c := ScanAt(codec, h, w / 2, w % 2 == 1);
            FirstOpen(c.open, 0, |EncodeAll(codec.sha, Pairs(codec, h)[..w])|) == LogSize(codec, h[..w / 2])
  {
    hide Ids;
    var n := w / 2;
    var c := ScanAt(codec, h, n, w % 2 == 1);
    assert h == h[..n] + h[n..];
    PairsAppend(codec, h[..n], h[n..]);
    var fs := Pairs(codec, h);
    if w % 2 == 0 {
      assert fs[..w] == Pairs(codec, h[..n]);
      NoOpenBelow(c.open, 0, LogSize(codec, h[..n]), LogSize(codec, h[..n]));
    } else {
      assert fs[..w] == Pairs(codec, h[..n]) + [fs[w - 1]];
      EncodeAllAppend(codec.sha, Pairs(codec, h[..n]), [fs[w - 1]]);
      assert c.open[h[n].index].1 == LogSize(codec, h[..n]);
      NoOpenBelow(c.open, 0, LogSize(codec, h[..n]), |EncodeAll(codec.sha, fs[..w])|);
    }
  }
}
