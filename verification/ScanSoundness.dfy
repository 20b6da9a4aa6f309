/** What the scan of a replica accepts of arbitrary bytes: ids that its frames prepare and commit, the last one for each index. */
module ScanSoundness {
  import opened Wire
  import opened Outcomes
  import opened Frames
  import opened Journal
  import opened Replicas
  import opened Soundness

  /** Frames within the limit that every replica applies. */
  predicate Scannable(fs: seq<Frame>) {
    forall f <- fs :: Fits(f) && |f.payload| <= 65536
  }

  /** Bytes that scan are encoded frames that scan, up to a tail that is no complete frame. */
  lemma {:induction false} ScanParses(codec: Codec, bytes: Bytes, offset: nat, c: Scan) returns (fs: seq<Frame>)
    requires offset <= |bytes| && ScanFrom(codec, bytes, offset, c).Ok?
    ensures var (c', end) := ScanFrom(codec, bytes, offset, c).value;
            && offset <= end && Scannable(fs) && bytes[offset..end] == EncodeAll(codec.sha, fs) && ScanFrames(codec, c, fs, offset) == Ok(c')
            && (end == |bytes| || Decode(codec.sha, bytes, end, 65536) == Incomplete)
    decreases |bytes| - offset
  {
    hide Decode, Encode, ScanFrame, Fits;
    var d := if offset == |bytes| then Incomplete else Decode(codec.sha, bytes, offset, REPLICA_LIMIT);
    if d.Incomplete? {
      fs := [];
    } else {
      var next := ScanFrame(codec, c, d.frame, offset).value;
      var rest := ScanParses(codec, bytes, d.end, next);
      DecodesExactly(codec.sha, bytes, offset, REPLICA_LIMIT, d.frame, d.end);
      fs := [d.frame] + rest;
      var end := ScanFrom(codec, bytes, offset, c).value.1;
      assert bytes[offset..end] == bytes[offset..d.end] + bytes[d.end..end];
    }
  }

  // ----- What the frames account for -----

  predicate Prepares(codec: Codec, f: Frame, index: u64, id: Bytes) {
    && f.kind.Prepare? && f.index == index
    && var t := codec.parseTransaction(f.payload); t.Some? && t.value.index == index && t.value.id == id
  }

  /** Some frame prepares a transaction with this index and id. */
  predicate Foreseen(codec: Codec, fs: seq<Frame>, index: u64, id: Bytes) {
    exists i :: 0 <= i < |fs| && Prepares(codec, fs[i], index, id)
  }

  /** What the last commit frame for an index holds. */
  function LastCommit(fs: seq<Frame>, index: u64): Option<Bytes> {
    if fs == [] then None
    else
      var f := fs[|fs| - 1];
      if f.kind.Commit? && f.index == index then Some(f.payload) else LastCommit(fs[..|fs| - 1], index)
  }

  /** Frame `j` is in order: a prepare of a transaction with its own index, or the commit of one prepared before. */
  predicate InOrder(codec: Codec, fs: seq<Frame>, j: nat)
    requires j < |fs|
  {
    var f := fs[j];
    match f.kind
    case Prepare => codec.parseTransaction(f.payload).Some? && codec.parseTransaction(f.payload).value.index == f.index
    case Commit => Foreseen(codec, fs[..j], f.index, f.payload)
    case Snapshot => false
  }

  predicate ScanAccounts(codec: Codec, fs: seq<Frame>, c: Scan) {
    && (forall j :: 0 <= j < |fs| ==> InOrder(codec, fs, j))
    && (forall k :: LastCommit(fs, k) == if k in c.committed then Some(c.committed[k]) else None)
    && (forall k <- c.committed :: Foreseen(codec, fs, k, c.committed[k]))
    && (forall k <- c.open :: Foreseen(codec, fs, k, c.open[k].0) && Boundary(codec, fs, c.open[k].1))
  }

  /** The offset at which some prepare frame starts. */
  predicate Boundary(codec: Codec, fs: seq<Frame>, at: nat) {
    exists i :: 0 <= i < |fs| && fs[i].kind.Prepare? && at == |EncodeAll(codec.sha, fs[..i])|
  }

  lemma ForeseenLonger(codec: Codec, fs: seq<Frame>, f: Frame, index: u64, id: Bytes)
    ensures Foreseen(codec, fs, index, id) ==> Foreseen(codec, fs + [f], index, id)
    ensures Prepares(codec, f, index, id) ==> Foreseen(codec, fs + [f], index, id)
  {
    hide Prepares;
    var all := fs + [f];
    assert all[|fs|] == f;
    if Foreseen(codec, fs, index, id) {
      var i :| 0 <= i < |fs| && Prepares(codec, fs[i], index, id);
      assert all[i] == fs[i];
    }
  }

  lemma BoundaryLonger(codec: Codec, fs: seq<Frame>, f: Frame, at: nat)
    ensures Boundary(codec, fs, at) ==> Boundary(codec, fs + [f], at)
    ensures f.kind.Prepare? && at == |EncodeAll(codec.sha, fs)| ==> Boundary(codec, fs + [f], at)
  {
    hide EncodeAll;
    var all := fs + [f];
    assert all[|fs|] == f && all[..|fs|] == fs;
    if Boundary(codec, fs, at) {
      var i :| 0 <= i < |fs| && fs[i].kind.Prepare? && at == |EncodeAll(codec.sha, fs[..i])|;
      assert all[i] == fs[i] && all[..i] == fs[..i];
    }
  }

  lemma InOrderLonger(codec: Codec, fs: seq<Frame>, f: Frame, j: nat)
    requires j < |fs| && InOrder(codec, fs, j)
    ensures InOrder(codec, fs + [f], j)
  {
    hide Foreseen;
    assert (fs + [f])[j] == fs[j] && (fs + [f])[..j] == fs[..j];
  }

  lemma LastSnoc(fs: seq<Frame>, f: Frame, k: u64)
    ensures LastCommit(fs + [f], k) == if f.kind.Commit? && f.index == k then Some(f.payload) else LastCommit(fs, k)
  {
    assert (fs + [f])[..|fs|] == fs;
  }

  /** One more frame, at the offset where the encoding so far ends. */
  lemma ScanNext(codec: Codec, fs: seq<Frame>, f: Frame, c: Scan)
    requires ScanAccounts(codec, fs, c) && ScanFrame(codec, c, f, |EncodeAll(codec.sha, fs)|).Ok?
    ensures ScanAccounts(codec, fs + [f], ScanFrame(codec, c, f, |EncodeAll(codec.sha, fs)|).value)
  {
    hide Foreseen, Boundary, EncodeAll, LastCommit;
    var all, c' := fs + [f], ScanFrame(codec, c, f, |EncodeAll(codec.sha, fs)|).value;
    forall j | 0 <= j < |fs|
      ensures InOrder(codec, all, j)
    {
      InOrderLonger(codec, fs, f, j);
    }
    assert all[|fs|] == f && all[..|fs|] == fs;
    forall k: u64
      ensures LastCommit(all, k) == if f.kind.Commit? && f.index == k then Some(f.payload) else LastCommit(fs, k)
    {
      LastSnoc(fs, f, k);
    }
    forall k, id
      ensures Foreseen(codec, fs, k, id) ==> Foreseen(codec, all, k, id)
      ensures Prepares(codec, f, k, id) ==> Foreseen(codec, all, k, id)
    {
      ForeseenLonger(codec, fs, f, k, id);
    }
    forall at
      ensures Boundary(codec, fs, at) ==> Boundary(codec, all, at)
      ensures f.kind.Prepare? && at == |EncodeAll(codec.sha, fs)| ==> Boundary(codec, all, at)
    {
      BoundaryLonger(codec, fs, f, at);
    }
  }

  lemma {:induction false} ScanAppend(codec: Codec, c: Scan, fs: seq<Frame>, f: Frame, offset: nat)
    requires ScanFrames(codec, c, fs + [f], offset).Ok?
    ensures ScanFrames(codec, c, fs, offset).Ok?
    ensures ScanFrames(codec, c, fs + [f], offset) == ScanFrame(codec, ScanFrames(codec, c, fs, offset).value, f, offset + |EncodeAll(codec.sha, fs)|)
    decreases |fs|
  {
    hide ScanFrame, Encode;
    if fs == [] {
      assert fs + [f] == [f] && [f][1..] == [];
    } else {
      assert (fs + [f])[0] == fs[0] && (fs + [f])[1..] == fs[1..] + [f];
      var next := ScanFrame(codec, c, fs[0], offset).value;
      ScanAppend(codec, next, fs[1..], f, offset + Size(fs[0]));
    }
  }

  lemma {:induction false} ScanAll(codec: Codec, fs: seq<Frame>)
    requires ScanFrames(codec, Scan(map[], map[]), fs, 0).Ok?
    ensures ScanAccounts(codec, fs, ScanFrames(codec, Scan(map[], map[]), fs, 0).value)
    decreases |fs|
  {
    hide ScanFrame, ScanAccounts, EncodeAll;
    if fs == [] {
      NothingScanned(codec);
    } else {
      var n := |fs| - 1;
      assert fs == fs[..n] + [fs[n]];
      ScanAppend(codec, Scan(map[], map[]), fs[..n], fs[n], 0);
      ScanAll(codec, fs[..n]);
      ScanNext(codec, fs[..n], fs[n], ScanFrames(codec, Scan(map[], map[]), fs[..n], 0).value);
    }
  }

  lemma NothingScanned(codec: Codec)
    ensures ScanAccounts(codec, [], Scan(map[], map[]))
  {
  }

  lemma {:induction false} FirstOpenIs(open: map<u64, (Bytes, nat)>, at: nat, end: nat)
    requires at <= end
    ensures var r := FirstOpen(open, at, end); (r == end || exists k <- open :: open[k].1 == r) && forall k <- open :: at <= open[k].1 < end ==> r <= open[k].1
    decreases end - at
  {
    if at < end && !(exists i <- open :: open[i].1 == at) {
      FirstOpenIs(open, at + 1, end);
    }
  }

  /**
   The scan invents nothing, whatever the bytes are: they are encoded frames within the limit, each
   a prepare of its own index or the commit of an id prepared before; the ids found are exactly those
   of the last commit for each index, and the file is cut at its end or where a prepare starts.
   */
  lemma ScanInventsNothing(codec: Codec, bytes: Bytes) returns (fs: seq<Frame>)
    requires ScanLog(codec, bytes).Ok?
    ensures var (ids, kept) := ScanLog(codec, bytes).value; var end := |EncodeAll(codec.sha, fs)|;
            && Scannable(fs) && kept <= end <= |bytes| && bytes[..end] == EncodeAll(codec.sha, fs)
            && (end == |bytes| || Decode(codec.sha, bytes, end, 65536) == Incomplete)
            && (forall j :: 0 <= j < |fs| ==> InOrder(codec, fs, j))
            && (forall k :: LastCommit(fs, k) == if k in ids then Some(ids[k]) else None)
            && (kept == end || Boundary(codec, fs, kept))
  {
    hide ScanFrom, ScanFrames, EncodeAll, InOrder, LastCommit, Boundary, Foreseen, FirstOpen, Scannable, Decode;
    var (c, end) := ScanFrom(codec, bytes, 0, Scan(map[], map[])).value;
    fs := ScanParses(codec, bytes, 0, Scan(map[], map[]));
    assert bytes[0..end] == bytes[..end];
    ScanAll(codec, fs);
    FirstOpenIs(c.open, 0, end);
  }
}
