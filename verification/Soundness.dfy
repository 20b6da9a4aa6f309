/** What recovery accepts of arbitrary bytes: only encodings of frames, and only transactions that they log. */
module Soundness {
  import opened Wire
  import opened Outcomes
  import opened Tasks
  import opened Frames
  import opened Journal
  import opened Runs
  import Lineage

  // ----- Frames -----

  /** Little-endian bytes are those of their own number. */
  lemma {:induction false} LeOf(b: Bytes)
    ensures Le(FromLe(b), |b|) == b
  {
    if b != [] {
      LeOf(b[1..]);
      var n := FromLe(b);
      assert n % 256 == b[0] && n / 256 == FromLe(b[1..]);
      assert b == [b[0]] + b[1..];
    }
  }

  /** Byte `i` of a little-endian number is its digit of weight 256 to the power `i`. */
  lemma {:induction false} LeDigit(n: nat, width: nat, i: nat)
    requires i < width
    ensures Le(n, width)[i] == n / Pow256(i) % 256
    decreases width
  {
    if i > 0 {
      LeDigit(n / 256, width - 1, i - 1);
      DivideTwice(n, Pow256(i - 1));
    }
  }

  lemma DivideTwice(n: nat, p: nat)
    requires p > 0
    ensures n / 256 / p == n / (256 * p)
  {
    var b, x := n / 256, n % 256;
    var q, y := b / p, b % p;
    assert b == p * q + y && n == 256 * b + x;
    Spread(p, q, y);
    QuotientIs(n, 256 * p, q, 256 * y + x);
  }

  lemma Spread(p: nat, q: nat, y: nat)
    ensures 256 * (p * q + y) == (256 * p) * q + 256 * y
  {
  }

  lemma QuotientIs(n: nat, d: nat, q: nat, r: nat)
    requires r < d && n == d * q + r
    ensures n / d == q
  {
    var k := n / d;
    assert n == d * k + n % d;
    NextMultiple(d, q, k);
    NextMultiple(d, k, q);
  }

  lemma NextMultiple(d: nat, a: nat, b: nat)
    ensures a < b ==> d * a + d <= d * b
  {
    if a < b {
      var c: nat := b - a - 1;
      assert d * (a + 1 + c) == d * a + d + d * c;
    }
  }

  /** A frame on disk: four length bytes, "MRW1", version 1, the kind, a zero, the index, the payload length, the payload and the digest. */
  lemma FrameLayout(sha: Bytes -> Digest, f: Frame)
    ensures var b, n := Encode(sha, f), |f.payload|;
            && b[..4] == Le(n + 52, 4) && b[4..8] == [77, 82, 87, 49] && b[8] == 1 && b[9] == 0
            && b[10] == (if f.kind.Prepare? then 1 else if f.kind.Commit? then 2 else 3) && b[11] == 0
            && b[12..20] == Le(f.index, 8) && b[20..24] == Le(n, 4) && b[24..24 + n] == f.payload && b[24 + n..] == sha(b[4..24 + n])
  {
    var b, g := Encode(sha, f), Protected(f);
    HeaderFields(f);
    assert b[4..24 + |f.payload|] == g;
    assert Le(1, 2)[0] == 1 && Le(1, 2)[1] == 0;
    assert forall i :: 0 <= i < HEADER ==> b[4 + i] == Header(f)[i];
    assert b[4..8] == Header(f)[..4] && b[8..10] == Header(f)[4..6] && b[12..20] == Header(f)[8..16] && b[20..24] == Header(f)[16..20];
    assert b[8] == b[8..10][0] && b[9] == b[8..10][1];
  }

  lemma KindRoundTrip(b: byte)
    requires 1 <= b <= 3
    ensures KindByte(KindOf(b)) == b
  {
  }

  /** The protected part of a decoded frame is that of its encoding. */
  lemma GuardedIs(g: Bytes, f: Frame)
    requires |g| == HEADER + |f.payload| && g[..4] == MAGIC && g[4..6] == Le(1, 2) && g[6] == KindByte(f.kind) && g[7] == 0
    requires g[8..16] == Le(f.index, 8) && g[16..20] == Le(|f.payload|, 4) && g[20..] == f.payload
    ensures g == Protected(f)
  {
    hide Le;
    assert g[6..8] == [g[6], g[7]];
    assert g == g[..4] + g[4..6] + g[6..8] + g[8..16] + g[16..20] + g[20..];
  }

  lemma HeadIsEncoding(sha: Bytes -> Digest, rest: Bytes, maxPayload: nat)
    requires DecodeHead(sha, rest, maxPayload).Decoded?
    ensures var r := DecodeHead(sha, rest, maxPayload);
            && Fits(r.frame) && |r.frame.payload| <= maxPayload && r.end == Size(r.frame) <= |rest| && rest[..r.end] == Encode(sha, r.frame)
  {
    hide Le, FromLe, Pow256;
    Widths();
    var f := DecodeHead(sha, rest, maxPayload).frame;
    var n := FromLe(rest[..4]);
    var g := rest[4..4 + n][..n - DIGEST];
    LeOf(rest[..4]);
    LeOf(g[8..16]);
    LeOf(g[16..20]);
    KindRoundTrip(g[6]);
    GuardedIs(g, f);
    assert rest[..4 + n] == rest[..4] + g + rest[4..4 + n][n - DIGEST..];
  }

  /** The decoder returns a frame exactly when its whole encoding, digest included, is at that place and within the limit. */
  lemma DecodesExactly(sha: Bytes -> Digest, bytes: Bytes, offset: nat, maxPayload: nat, f: Frame, end: nat)
    requires offset <= |bytes|
    ensures Decode(sha, bytes, offset, maxPayload) == Decoded(f, end) <==>
            Fits(f) && |f.payload| <= maxPayload && end == offset + Size(f) <= |bytes| && bytes[offset..end] == Encode(sha, f)
  {
    hide DecodeHead, Encode;
    if Decode(sha, bytes, offset, maxPayload) == Decoded(f, end) {
      HeadIsEncoding(sha, bytes[offset..], maxPayload);
      assert bytes[offset..][..end - offset] == bytes[offset..end];
    } else if Fits(f) && |f.payload| <= maxPayload && end == offset + Size(f) <= |bytes| && bytes[offset..end] == Encode(sha, f) {
      assert bytes == bytes[..offset] + bytes[offset..end] + bytes[end..];
      DecodeEncoded(sha, bytes[..offset], f, bytes[end..], maxPayload);
    }
  }

  /** A snapshot file that loads is the encoding of one snapshot frame around that snapshot. */
  lemma SnapshotSound(env: Env, file: Bytes)
    requires LoadSnapshot(env, Some(file)).Ok?
    ensures var s := LoadSnapshot(env, Some(file)).value;
            s.Some? && exists payload :: env.codec.parseSnapshot(payload) == s && file == Encode(env.codec.sha, Frame(Snapshot, s.value.image.lastIndex, payload))
  {
    hide Decode, Encode;
    var limit := if |file| > env.options.maxRecordBytes then |file| else env.options.maxRecordBytes;
    var r := Decode(env.codec.sha, file, 0, limit);
    DecodesExactly(env.codec.sha, file, 0, limit, r.frame, r.end);
    assert file[0..|file|] == file;
    assert env.codec.parseSnapshot(r.frame.payload) == LoadSnapshot(env, Some(file)).value;
  }

  // ----- Replay -----

  /** Where replay stops short, what follows is no complete frame. */
  predicate Ends(env: Env, bytes: Bytes, kept: nat)
    requires kept <= |bytes|
  {
    kept == |bytes| || Decode(env.codec.sha, bytes, kept, env.options.maxRecordBytes) == Incomplete
  }

  /** Bytes that replay are encoded frames that replay, up to a tail that is no frame. */
  lemma {:induction false} ReplayParses(env: Env, base: u64, bytes: Bytes, offset: nat, c: Cursor) returns (fs: seq<Frame>)
    requires offset <= |bytes| && ReplayFrom(env, base, bytes, offset, c).Ok?
    ensures var (c', kept) := ReplayFrom(env, base, bytes, offset, c).value;
            && Readable(env, fs) && bytes[offset..kept] == EncodeAll(env.codec.sha, fs)
            && ReplayFrames(env, base, c, fs) == Ok(c') && Ends(env, bytes, kept)
    decreases |bytes| - offset
  {
    hide Decode, Encode, ReplayFrame, Fits;
    var d := if offset == |bytes| then Incomplete else Decode(env.codec.sha, bytes, offset, env.options.maxRecordBytes);
    if d.Incomplete? {
      fs := [];
    } else {
      var next := ReplayFrame(env, base, c, d.frame).value;
      var rest := ReplayParses(env, base, bytes, d.end, next);
      DecodesExactly(env.codec.sha, bytes, offset, env.options.maxRecordBytes, d.frame, d.end);
      fs := [d.frame] + rest;
      var kept := ReplayFrom(env, base, bytes, offset, c).value.1;
      assert bytes[offset..kept] == bytes[offset..d.end] + bytes[d.end..kept];
    }
  }

  predicate IsPrepareOf(env: Env, f: Frame, t: Transaction) {
    f.kind.Prepare? && f.index == t.index && env.codec.parseTransaction(f.payload) == Some(t)
  }

  predicate PreparedIn(env: Env, fs: seq<Frame>, t: Transaction) {
    exists i :: 0 <= i < |fs| && IsPrepareOf(env, fs[i], t)
  }

  /** The log prepares the transaction and later commits it. */
  predicate LoggedIn(env: Env, fs: seq<Frame>, t: Transaction) {
    exists i, j :: 0 <= i < j < |fs| && IsPrepareOf(env, fs[i], t) && fs[j] == CommitFrame(t)
  }

  /** The image after transactions are published in order. */
  function After(env: Env, image: Image, ts: History): Image {
    if ts == [] then image else Publish(env, After(env, image, ts[..|ts| - 1]), ts[|ts| - 1])
  }

  /** Each transaction passes the checks on the image that those before it produce. */
  predicate Accepted(env: Env, image: Image, ts: History) {
    ts == [] || (Accepted(env, image, ts[..|ts| - 1]) && Acceptable(env, After(env, image, ts[..|ts| - 1]), ts[|ts| - 1]))
  }

  /** What the frames so far account for. */
  predicate Accounts(env: Env, image: Image, fs: seq<Frame>, c: Cursor, count: nat, ts: History) {
    && Accepted(env, image, ts) && c.image == After(env, image, ts) && c.count == count + |ts|
    && (forall t <- ts :: LoggedIn(env, fs, t))
    && (forall k <- c.open :: c.open[k].index == k && PreparedIn(env, fs, c.open[k]))
    && (forall f <- fs :: !f.kind.Snapshot?)
  }

  lemma Longer(env: Env, fs: seq<Frame>, f: Frame, t: Transaction)
    ensures LoggedIn(env, fs, t) ==> LoggedIn(env, fs + [f], t)
    ensures PreparedIn(env, fs, t) ==> PreparedIn(env, fs + [f], t)
    ensures PreparedIn(env, fs, t) && f == CommitFrame(t) ==> LoggedIn(env, fs + [f], t)
    ensures IsPrepareOf(env, f, t) ==> PreparedIn(env, fs + [f], t)
  {
    hide IsPrepareOf;
    var all := fs + [f];
    assert all[|fs|] == f;
    if LoggedIn(env, fs, t) {
      var i, j :| 0 <= i < j < |fs| && IsPrepareOf(env, fs[i], t) && fs[j] == CommitFrame(t);
      assert all[i] == fs[i] && all[j] == fs[j];
    }
    if PreparedIn(env, fs, t) {
      var i :| 0 <= i < |fs| && IsPrepareOf(env, fs[i], t);
      assert all[i] == fs[i];
    }
  }

  lemma KeepsLogged(env: Env, fs: seq<Frame>, f: Frame, c: Cursor, ts: History)
    requires (forall t <- ts :: LoggedIn(env, fs, t)) && (forall k <- c.open :: c.open[k].index == k && PreparedIn(env, fs, c.open[k]))
    ensures (forall t <- ts :: LoggedIn(env, fs + [f], t)) && (forall k <- c.open :: PreparedIn(env, fs + [f], c.open[k]))
  {
    hide LoggedIn, PreparedIn;
    forall t | t in ts
      ensures LoggedIn(env, fs + [f], t)
    {
      Longer(env, fs, f, t);
    }
    forall k | k in c.open
      ensures PreparedIn(env, fs + [f], c.open[k])
    {
      Longer(env, fs, f, c.open[k]);
    }
  }

  lemma AcceptedMore(env: Env, image: Image, ts: History, t: Transaction)
    requires Accepted(env, image, ts) && Acceptable(env, After(env, image, ts), t)
    ensures Accepted(env, image, ts + [t]) && After(env, image, ts + [t]) == Publish(env, After(env, image, ts), t)
  {
    hide Acceptable, Publish;
    assert (ts + [t])[..|ts|] == ts;
  }

  /** One more frame. */
  lemma AccountsNext(env: Env, base: u64, image: Image, fs: seq<Frame>, f: Frame, c: Cursor, count: nat, ts: History) returns (more: History)
    requires Accounts(env, image, fs, c, count, ts) && ReplayFrame(env, base, c, f).Ok?
    ensures Accounts(env, image, fs + [f], ReplayFrame(env, base, c, f).value, count, more)
  {
    hide LoggedIn, PreparedIn, Accepted, Acceptable, Publish, After;
    more := ts;
    KeepsLogged(env, fs, f, c, ts);
    if f.index > base && f.kind.Commit? {
      var t := c.open[f.index];
      AcceptedMore(env, image, ts, t);
      Longer(env, fs, f, t);
      more := ts + [t];
    } else if f.index > base && f.kind.Prepare? {
      Longer(env, fs, f, env.codec.parseTransaction(f.payload).value);
    }
  }

  lemma {:induction false} FramesAccount(env: Env, base: u64, c: Cursor, fs: seq<Frame>) returns (ts: History)
    requires c.open == map[] && ReplayFrames(env, base, c, fs).Ok?
    ensures Accounts(env, c.image, fs, ReplayFrames(env, base, c, fs).value, c.count, ts)
    decreases |fs|
  {
    hide ReplayFrame, Acceptable, Publish, LoggedIn, PreparedIn;
    if fs == [] {
      ts := [];
    } else {
      var n := |fs| - 1;
      assert fs == fs[..n] + [fs[n]];
      ReplayFramesAppend(env, base, c, fs[..n], [fs[n]]);
      var start := FramesAccount(env, base, c, fs[..n]);
      var mid := ReplayFrames(env, base, c, fs[..n]).value;
      LastFrame(env, base, mid, fs[n]);
      ts := AccountsNext(env, base, c.image, fs[..n], fs[n], mid, c.count, start);
    }
  }

  lemma LastFrame(env: Env, base: u64, c: Cursor, f: Frame)
    ensures ReplayFrames(env, base, c, [f]) == ReplayFrame(env, base, c, f)
  {
    hide ReplayFrame;
    assert [f][1..] == [];
    ReplayNone(env, base, if ReplayFrame(env, base, c, f).Ok? then ReplayFrame(env, base, c, f).value else c);
  }

  /**
   Recovery invents nothing, whatever the bytes are: what it keeps is a sequence of encoded frames
   without snapshots, and the image is that of transactions which these frames prepare and then
   commit, each acceptable after those before it; a pending one is prepared there and acceptable next.
   */
  lemma RecoveryInventsNothing(env: Env, snapshot: Option<SnapshotRecord>, bytes: Bytes) returns (fs: seq<Frame>, ts: History)
    requires Replay(env, snapshot, bytes).Ok?
    ensures var r, start := Replay(env, snapshot, bytes).value, if snapshot.Some? then snapshot.value.image else EMPTY;
            && r.kept <= |bytes| && bytes[..r.kept] == EncodeAll(env.codec.sha, fs) && Readable(env, fs) && Ends(env, bytes, r.kept)
            && (forall f <- fs :: !f.kind.Snapshot?)
            && Accepted(env, start, ts) && r.image == After(env, start, ts) && r.count == |ts| && (forall t <- ts :: LoggedIn(env, fs, t))
            && (r.pending.Some? ==> Acceptable(env, r.image, r.pending.value) && PreparedIn(env, fs, r.pending.value))
  {
    hide ReplayFrom, ReplayFrames, EncodeAll, Readable, Acceptable, Accepted, After, LoggedIn, PreparedIn, Ends;
    var start := if snapshot.Some? then snapshot.value.image else EMPTY;
    fs := ReplayParses(env, start.lastIndex, bytes, 0, Cursor(start, map[], 0));
    ts := FramesAccount(env, start.lastIndex, Cursor(start, map[], 0), fs);
    assert bytes[0..Replay(env, snapshot, bytes).value.kept] == bytes[..Replay(env, snapshot, bytes).value.kept];
  }

  /** A transaction continues an image: it names its last id, the next index and the version of its task, and its id is the hash of its text. */
  predicate Continues(env: Env, image: Image, t: Transaction) {
    && t.previousId == image.lastId && (t.index == image.lastIndex + 1 || (image.lastIndex == U64_LIMIT - 1 == t.index))
    && t.previousVersion == (if t.task in image.versions then image.versions[t.task] else 0)
    && (t.newVersion == t.previousVersion + 1 || (t.previousVersion == U64_LIMIT - 1 == t.newVersion))
    && t.id == Hex(env.codec.sha(Lineage.Hashed(env.codec, t)))
  }

  /** Recovery accepts exactly the transactions that continue the image and that its records admit. */
  lemma AcceptsExactly(env: Env, image: Image, t: Transaction)
    ensures Acceptable(env, image, t) <==> Continues(env, image, t) && Apply(image.records, t.mutation, env.options.maxTasks).Ok?
  {
    hide Apply, Hex, Le;
  }

  /** Whatever bytes recovery accepts, each transaction that it publishes continues the image before it. */
  lemma {:induction false} AcceptedContinue(env: Env, image: Image, ts: History, i: nat)
    requires Accepted(env, image, ts) && i < |ts|
    ensures Continues(env, After(env, image, ts[..i]), ts[i])
    decreases |ts|
  {
    hide Acceptable, Publish, Continues;
    var n := |ts| - 1;
    if i == n {
      AcceptsExactly(env, After(env, image, ts[..n]), ts[n]);
    } else {
      AcceptedContinue(env, image, ts[..n], i);
      assert ts[..n][..i] == ts[..i];
    }
  }

  /** A second prepare for an open index is taken exactly when it is for the same transaction id, and changes nothing. */
  lemma SecondPrepareExactly(env: Env, base: u64, c: Cursor, f: Frame, g: Frame, s: Transaction, t: Transaction)
    requires IsPrepareOf(env, f, s) && IsPrepareOf(env, g, t) && s.index == t.index > base && s.index !in c.open
    ensures var first := ReplayFrame(env, base, c, f);
            && first == Ok(c.(open := c.open[s.index := s]))
            && ReplayFrame(env, base, first.value, g) == if t.id == s.id then first else Err(Corrupt)
  {
  }

  /** A snapshot alone recovers to its own image, exactly when it has format 1 and no more records than the registry may hold. */
  lemma SnapshotAloneExactly(env: Env, s: SnapshotRecord, bytes: Bytes)
    ensures Replay(env, Some(s), []) == if s.format == 1 && |s.image.records| <= env.options.maxTasks then Ok(Recovered(s.image, None, 0, 0)) else Err(Corrupt)
    ensures s.format != 1 || |s.image.records| > env.options.maxTasks ==> Replay(env, Some(s), bytes) == Err(Corrupt)
  {
    hide Decode, ReplayFrame;
  }

  /** An image is saved exactly when its JSON stays within the record limit times the number of records, at least one, and fits a frame. */
  lemma SavesExactly(env: Env, image: Image)
    ensures var json, file := env.codec.snapshotJson(SnapshotRecord(1, image)), SnapshotFile(env, image);
            && (file.Some? <==> && (|json| <= env.options.maxRecordBytes * |image.records| || (image.records == map[] && |json| <= env.options.maxRecordBytes))
                                && |json| + 52 < U32_LIMIT)
            && (file.Some? ==> file.value == Encode(env.codec.sha, Frame(Snapshot, image.lastIndex, json)))
  {
    hide Encode;
    assert image.records == map[] <==> |image.records| == 0;
  }
}
