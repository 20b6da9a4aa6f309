/** Every step keeps the invariant of the registry, so every run does. */
module RunsSafety {
  import opened Wire
  import opened Outcomes
  import opened Tasks
  import opened Frames
  import opened Journal
  import opened Replicas
  import opened Runs

  // ----- Frames of extended histories -----

  lemma LogExtend(codec: Codec, stale: seq<Frame>, base: nat, h: History, t: Transaction)
    requires base <= |h|
    ensures Log(codec, stale, base, h + [t]) == Log(codec, stale, base, h) + Pair(codec, t)
  {
    assert (h + [t])[base..] == h[base..] + [t];
    PairsAppend(codec, h[base..], [t]);
    PairOf(codec, t);
  }

  /** The log of a prefix of a history is a prefix of its log. */
  lemma LogPrefix(codec: Codec, stale: seq<Frame>, base: nat, h: History, k: nat)
    requires base <= k <= |h|
    ensures Log(codec, stale, base, h[..k]) == Log(codec, stale, base, h)[..|stale| + 2 * (k - base)]
  {
    assert h[base..] == h[..k][base..] + h[k..];
    PairsAppend(codec, h[..k][base..], h[k..]);
  }

  lemma EncodeSnoc(sha: Bytes -> Digest, fs: seq<Frame>, f: Frame)
    ensures EncodeAll(sha, fs + [f]) == EncodeAll(sha, fs) + Encode(sha, f)
  {
    EncodeAllAppend(sha, fs, [f]);
    EncodeOne(sha, f);
  }

  /** The full log of what is known is the file plus the commit that a pending transaction lacks. */
  lemma WalFramesShape(codec: Codec, s: State)
    requires s.base <= |s.history|
    ensures var log := Log(codec, s.stale, s.base, s.history);
            WalFrames(codec, s) == if s.pending.Some? then log + [PrepareFrame(codec, s.pending.value)] else log
    ensures WalFrames(codec, s) == Log(codec, s.stale, s.base, Known(s))[..|WalFrames(codec, s)|]
    ensures |WalFrames(codec, s)| == |s.stale| + 2 * (|s.history| - s.base) + (if s.pending.Some? then 1 else 0)
  {
    if s.pending.Some? {
      LogExtend(codec, s.stale, s.base, s.history, s.pending.value);
      var all, log, t := Log(codec, s.stale, s.base, Known(s)), Log(codec, s.stale, s.base, s.history), s.pending.value;
      assert all[..|all| - 1] == log + [PrepareFrame(codec, t)];
    }
  }

  // ----- Opening a transaction -----

  lemma DraftGenuine(env: Env, image: Image, call: Call)
    requires AllWellFormed(image.records) && DraftCall(env, image, call).Ok?
    ensures Genuine(env, image, DraftCall(env, image, call).value)
  {
    hide Apply, WellFormed;
    PlanShape(image.records, call, env.replicas);
  }

  // ----- Known transactions stay known -----

  lemma BelongsExtends(env: Env, known: History, more: History, rep: Replica)
    requires ReplicaOk(env, known, rep) && |known| <= |more| && more[..|known|] == known
    ensures ReplicaOk(env, more, rep)
  {
    hide Ids, Pairs, EncodeAll, ImageOf, Syncs;
    forall t | t in rep.acked
      ensures Belongs(env, more, t)
    {
      assert Belongs(env, known, t);
      assert more[..t.index - 1] == known[..t.index - 1];
      assert more[t.index - 1] == more[..|known|][t.index - 1];
    }
  }

  lemma InitKeeps(env: Env)
    ensures Inv(env, Init(env))
  {
    var s := Init(env);
    assert WalFrames(env.codec, s) == [];
  }

  lemma PrepareKeeps(env: Env, s: State, t: Transaction)
    requires Inv(env, s) && s.pending.None? && Genuine(env, s.image, t)
    ensures Inv(env, AfterPrepare(env, s, t))
  {
    hide Genuine, Chain, ImageOf, ReplicaOk, WalFrames, Log, EncodeAll, Encode, Syncs, Readable, Stale, SnapshotFile;
    var s' := AfterPrepare(env, s, t);
    var fs, f := WalFrames(env.codec, s), PrepareFrame(env.codec, t);
    WalFramesShape(env.codec, s);
    WalFramesShape(env.codec, s');
    assert WalFrames(env.codec, s') == fs + [f];
    EncodeSnoc(env.codec.sha, fs, f);
    SyncedTake(env, fs, f, s.settled);
    assert Known(s')[..|Known(s)|] == Known(s);
    forall i | 0 <= i < |s.replicas|
      ensures ReplicaOk(env, Known(s'), s.replicas[i])
    {
      BelongsExtends(env, Known(s), Known(s'), s.replicas[i]);
    }
  }

  lemma SyncedTake(env: Env, fs: seq<Frame>, f: Frame, k: nat)
    requires k <= |fs|
    ensures (fs + [f])[..k] == fs[..k] && (fs + [f])[..|fs| + 1] == fs + [f]
  {
  }

  lemma CommitKeeps(env: Env, s: State)
    requires Inv(env, s) && s.pending.Some?
    ensures Inv(env, AfterCommit(env, s, s.pending.value))
  {
    hide Genuine, Chain, ImageOf, ReplicaOk, WalFrames, Log, EncodeAll, Encode, Syncs, Readable, Stale, SnapshotFile, Publish;
    var t := s.pending.value;
    var s' := AfterCommit(env, s, t);
    var fs, f := WalFrames(env.codec, s), CommitFrame(t);
    ChainExtend(env, s.history, t);
    GenuineIndex(env, s.history, t);
    WalFramesShape(env.codec, s);
    WalFramesShape(env.codec, s');
    LogExtend(env.codec, s.stale, s.base, s.history, t);
    assert WalFrames(env.codec, s') == fs + [f];
    EncodeSnoc(env.codec.sha, fs, f);
    SyncedTake(env, fs, f, s.settled);
    assert s'.history[..s.base] == s.history[..s.base];
    assert Known(s') == Known(s);
    forall i | s.base <= i < |s'.history| && SyncsAt(env, s'.history, i)
      ensures |s.stale| + 2 * (i - s.base) + 2 <= s'.settled
    {
      assert s'.history[..i] == s.history[..i];
      if i < |s.history| {
        assert SyncsAt(env, s.history, i);
      } else {
        assert s'.history[..i] == s.history;
      }
    }
  }

  lemma GenuineIndex(env: Env, h: History, t: Transaction)
    requires Chain(env, h) && Genuine(env, ImageOf(env, h), t)
    ensures t.index == |h| + 1 && |h| + 1 < U64_LIMIT
  {
    hide Acceptable, ImageOf, Chain;
    LastIndex(env, h);
  }

  lemma {:induction false} PairsStale(env: Env, h: History, base: nat)
    requires forall t <- h :: t.index <= base
    ensures Stale(Pairs(env.codec, h), base)
  {
    if h != [] {
      assert h[0] in h;
      PairsStale(env, h[1..], base);
    }
  }

  lemma SnapshotKeeps(env: Env, s: State)
    requires env.codec.Faithful() && Inv(env, s) && s.pending.None? && SnapshotFile(env, s.image).Some?
    ensures Inv(env, Step(env, s, SnapshotStep)) || s.refused
  {
    hide Genuine, Chain, ImageOf, ReplicaOk, EncodeAll, Encode, Syncs, SnapshotFile, Pairs, Readable, Fits;
    if s.refused {
      return;
    }
    var s' := Step(env, s, SnapshotStep);
    var n := |s.history|;
    assert s.history[..n] == s.history;
    forall t | t in s.history[s.base..]
      ensures t.index <= n
    {
      var i :| s.base <= i < n && s.history[i] == t;
      ChainIndex(env, s.history, i);
    }
    PairsStale(env, s.history[s.base..], n);
    LogReadable(env, s.history, s.base, s.stale);
    assert s.history[n..] == [];
    assert Pairs(env.codec, []) == [];
    assert WalFrames(env.codec, s') == WalFrames(env.codec, s);
  }

  lemma TruncateKeeps(env: Env, s: State)
    requires Inv(env, s) && !s.refused
    ensures Inv(env, Step(env, s, TruncateStep))
  {
    hide Genuine, Chain, ImageOf, ReplicaOk, Encode, Syncs, SnapshotFile, Fits;
    if s.pending.None? && s.snapshot.Some? && s.base == |s.history| {
      var s' := Step(env, s, TruncateStep);
      assert s'.history[s'.base..] == [];
      assert WalFrames(env.codec, s') == [];
      assert Readable(env, []);
    }
  }

  // ----- Crashes -----

  lemma EncodePrefix(sha: Bytes -> Digest, fs: seq<Frame>, n: nat)
    requires n <= |fs|
    ensures |EncodeAll(sha, fs[..n])| <= |EncodeAll(sha, fs)|
    ensures EncodeAll(sha, fs)[..|EncodeAll(sha, fs[..n])|] == EncodeAll(sha, fs[..n])
  {
    hide EncodeAll, Encode;
    assert fs == fs[..n] + fs[n..];
    EncodeAllAppend(sha, fs[..n], fs[n..]);
  }

  /** Loading undoes saving. */
  lemma SnapshotLoads(env: Env, image: Image)
    requires env.codec.Faithful() && SnapshotFile(env, image).Some?
    ensures LoadSnapshot(env, SnapshotFile(env, image)) == Ok(Some(SnapshotRecord(FORMAT, image)))
  {
    hide Decode, Encode, Fits;
    var record := SnapshotRecord(FORMAT, image);
    var frame := Frame(Snapshot, image.lastIndex, env.codec.snapshotJson(record));
    var bytes := Encode(env.codec.sha, frame);
    var limit := if |bytes| > env.options.maxRecordBytes then |bytes| else env.options.maxRecordBytes;
    DecodeEncoded(env.codec.sha, [], frame, [], limit);
    assert [] + bytes + [] == bytes;
  }

  /** The history that a crash may reveal, and how many frames of its log are in the file. */
  lemma CrashFile(env: Env, s: State, w: Writing) returns (frames: nat)
    requires env.codec.Faithful() && Inv(env, s)
    ensures var known := KnownWith(env, s, w);
            && Chain(env, known) && |Known(s)| <= |known| < U64_LIMIT && known[..|Known(s)|] == Known(s)
            && |WalFrames(env.codec, s)| <= frames <= |Log(env.codec, s.stale, s.base, known)|
            && FullFile(env, s, w) == EncodeAll(env.codec.sha, Log(env.codec, s.stale, s.base, known)[..frames])
            && WalFrames(env.codec, s) == Log(env.codec, s.stale, s.base, known)[..|WalFrames(env.codec, s)|]
  {
    hide Genuine, Chain, ImageOf, WalFrames, Log, EncodeAll, Encode, DraftCall, ReplicasOk, SyncOk;
    var known, codec := KnownWith(env, s, w), env.codec;
    var fs := WalFrames(codec, s);
    WalFramesShape(codec, s);
    frames := |fs|;
    if s.pending.Some? {
      var t := s.pending.value;
      ChainExtend(env, s.history, t);
      GenuineIndex(env, s.history, t);
      LogExtend(codec, s.stale, s.base, s.history, t);
      var log := Log(codec, s.stale, s.base, known);
      if w.WritingCommit? {
        frames := |log|;
        assert log[..frames] == fs + [CommitFrame(t)];
        EncodeSnoc(codec.sha, fs, CommitFrame(t));
      }
    } else if w.WritingPrepare? && DraftCall(env, s.image, w.call).Ok? {
      var t := DraftCall(env, s.image, w.call).value;
      ImageBounded(env, s.history);
      DraftGenuine(env, s.image, w.call);
      ChainExtend(env, s.history, t);
      GenuineIndex(env, s.history, t);
      LogExtend(codec, s.stale, s.base, s.history, t);
      var log := Log(codec, s.stale, s.base, known);
      frames := |fs| + 1;
      assert log[..|fs|] == fs;
      assert log[..frames] == fs + [PrepareFrame(codec, t)];
      EncodeSnoc(codec.sha, fs, PrepareFrame(codec, t));
    }
  }

  /** The state that recovery builds from the first `whole` frames of the log of `known`. */
  function Recovers(env: Env, s: State, known: History, whole: nat): State
    requires s.base <= |known| && whole <= |Log(env.codec, s.stale, s.base, known)|
  {
    var done := Done(s.stale, s.base, whole);
    var wal := EncodeAll(env.codec.sha, Log(env.codec, s.stale, s.base, known)[..whole]);
    s.(image := ImageOf(env, known[..done]), pending := if Half(s.stale, whole) then Some(known[done]) else None,
       wal := wal, synced := |wal|, settled := whole, history := known[..done],
       stale := if whole < |s.stale| then s.stale[..whole] else s.stale)
  }

  /** The bytes that survive are a prefix of the full log of what is known, and hold what is synced. */
  lemma SurvivesPrefix(env: Env, s: State, w: Writing, cut: nat)
    requires env.codec.Faithful() && Inv(env, s)
    ensures var known := KnownWith(env, s, w);
            var bytes := Survives(env, s, w, cut);
            && s.base <= |known|
            && var full := EncodeAll(env.codec.sha, Log(env.codec, s.stale, s.base, known));
            && s.synced <= |bytes| <= |full| && bytes == full[..|bytes|]
            && s.settled <= Whole(Log(env.codec, s.stale, s.base, known), |bytes|)
  {
    hide EncodeAll, Encode, Chain, Log, WalFrames, KnownWith, FullFile, HistoryOk, ReplicasOk, Whole, SyncsAt;
    var known, bytes, sha := KnownWith(env, s, w), Survives(env, s, w, cut), env.codec.sha;
    var frames := CrashFile(env, s, w);
    var log, fs := Log(env.codec, s.stale, s.base, known), WalFrames(env.codec, s);
    EncodePrefix(sha, log, frames);
    assert log[..s.settled] == fs[..s.settled] == log[..frames][..s.settled];
    EncodePrefix(sha, log[..frames], s.settled);
    WholeAtLeast(sha, log, s.settled, |bytes|);
  }

  /** What a crash does, for every interrupted write and every cut. */
  lemma CrashMeans(env: Env, s: State, w: Writing, cut: nat)
    requires env.codec.Faithful() && Inv(env, s) && !s.refused
    ensures var known := KnownWith(env, s, w);
            var bytes := Survives(env, s, w, cut);
            && s.base <= |known|
            && Step(env, s, CrashStep(w, cut)) ==
               if LooksLegacy(bytes) then s.(refused := true)
               else Recovers(env, s, known, Whole(Log(env.codec, s.stale, s.base, known), |bytes|))
  {
    hide EncodeAll, Encode, Chain, Log, WalFrames, KnownWith, Survives, ImageOf, Replay, SyncOk, ReplicasOk, Whole,
         LoadSnapshot, SnapshotFile, Genuine, Readable, Stale;
    var known, bytes, sha := KnownWith(env, s, w), Survives(env, s, w, cut), env.codec.sha;
    var _ := CrashFile(env, s, w);
    SurvivesPrefix(env, s, w, cut);
    var log := Log(env.codec, s.stale, s.base, known);
    assert known[..s.base] == known[..|Known(s)|][..s.base] == s.history[..s.base];
    var snapshot := SnapshotFound(env, s, known);
    RecoverAnyCut(env, known, s.base, s.stale, snapshot, |bytes|);
    var whole := Whole(log, |bytes|);
    WholeWithin(sha, log, |bytes|);
    EncodePrefix(sha, log, whole);
    ChainPrefix(env, known, Done(s.stale, s.base, whole));
    LastIndex(env, known[..Done(s.stale, s.base, whole)]);
  }

  lemma SnapshotFound(env: Env, s: State, known: History) returns (snapshot: Option<SnapshotRecord>)
    requires env.codec.Faithful() && DiskOk(env, s) && s.base <= |known| && known[..s.base] == s.history[..s.base]
    ensures LoadSnapshot(env, s.snapshot) == Ok(snapshot) && Covers(env, snapshot, known, s.base)
  {
    hide WalFrames, Stale, Readable, EncodeAll, SnapshotFile, ImageOf;
    if s.snapshot.None? {
      snapshot := None;
    } else {
      var image := ImageOf(env, s.history[..s.base]);
      SnapshotLoads(env, image);
      snapshot := Some(SnapshotRecord(FORMAT, image));
    }
  }

  lemma WholeWithin(sha: Bytes -> Digest, fs: seq<Frame>, cut: nat)
    requires cut <= |EncodeAll(sha, fs)|
    ensures |EncodeAll(sha, fs[..Whole(fs, cut)])| <= cut
  {
    CutSplit(sha, fs, cut);
  }

  /** The frames of a recovered log. */
  lemma RecoveredFrames(env: Env, s: State, known: History, whole: nat)
    requires s.base <= |known| && whole <= |Log(env.codec, s.stale, s.base, known)|
    ensures WalFrames(env.codec, Recovers(env, s, known, whole)) == Log(env.codec, s.stale, s.base, known)[..whole]
  {
    hide EncodeAll, ImageOf, WalFrames;
    var codec, s' := env.codec, Recovers(env, s, known, whole);
    var log, done := Log(codec, s.stale, s.base, known), Done(s.stale, s.base, whole);
    WalFramesShape(codec, s');
    if whole < |s.stale| {
      assert s'.history[s.base..] == [];
      assert Log(codec, s'.stale, s.base, s'.history) == s.stale[..whole] == log[..whole];
    } else {
      LogPrefix(codec, s.stale, s.base, known, done);
      if Half(s.stale, whole) {
        LogPrefix(codec, s.stale, s.base, known, done + 1);
        assert known[..done + 1] == known[..done] + [known[done]];
        LogExtend(codec, s.stale, s.base, known[..done], known[done]);
      }
    }
  }

  /** A transaction that syncs survives: the pending one stays known, a committed one committed. */
  lemma SyncedSurvives(env: Env, s: State, whole: nat, i: nat)
    requires Inv(env, s) && s.settled <= whole && i < |Known(s)| && SyncsAt(env, Known(s), i)
    ensures i < Done(s.stale, s.base, whole) + (if Half(s.stale, whole) then 1 else 0)
    ensures i < |s.history| ==> i < Done(s.stale, s.base, whole)
  {
    hide ImageOf, EncodeAll, ReplicasOk, Chain, Genuine, WalFrames, Syncs;
    WalFramesShape(env.codec, s);
    if i < |s.history| {
      assert Known(s)[..i] == s.history[..i];
      assert SyncsAt(env, s.history, i);
    } else {
      assert Known(s)[..i] == s.history;
      assert Offered(s).Some?;
    }
  }

  lemma RecoversKeeps(env: Env, s: State, known: History, whole: nat)
    requires Inv(env, s) && Chain(env, known) && |Known(s)| <= |known| < U64_LIMIT && known[..|Known(s)|] == Known(s)
    requires s.settled <= whole <= |Log(env.codec, s.stale, s.base, known)|
    ensures Inv(env, Recovers(env, s, known, whole))
  {
    hide EncodeAll, ImageOf, WalFrames, Chain, Genuine, Log, Syncs, ReplicaOk, SnapshotFile, Fits;
    var s', done := Recovers(env, s, known, whole), Done(s.stale, s.base, whole);
    ChainPrefix(env, known, done);
    RecoveredFrames(env, s, known, whole);
    WalFramesShape(env.codec, s');
    assert s'.history[..s.base] == known[..s.base] == known[..|Known(s)|][..s.base] == s.history[..s.base];
    assert WalFrames(env.codec, s')[..whole] == WalFrames(env.codec, s');
    forall i | 0 <= i < |s.replicas|
      ensures ReplicaOk(env, Known(s'), s.replicas[i])
    {
      RecoversReplica(env, s, known, whole, s.replicas[i]);
    }
  }

  lemma RecoversReplica(env: Env, s: State, known: History, whole: nat, rep: Replica)
    requires Inv(env, s) && |Known(s)| <= |known| && known[..|Known(s)|] == Known(s)
    requires s.settled <= whole <= |Log(env.codec, s.stale, s.base, known)|
    requires ReplicaOk(env, Known(s), rep)
    ensures ReplicaOk(env, Known(Recovers(env, s, known, whole)), rep)
  {
    hide EncodeAll, ImageOf, HistoryOk, SyncOk, ReplicasOk, Log, Pairs, Ids, Syncs;
    var done := Done(s.stale, s.base, whole);
    var found := Known(Recovers(env, s, known, whole));
    assert found == if Half(s.stale, whole) then known[..done + 1] else known[..done];
    forall t | t in rep.acked
      ensures Belongs(env, found, t)
    {
      var i := t.index - 1;
      assert Belongs(env, Known(s), t);
      SyncedSurvives(env, s, whole, i);
      assert found[..i] == known[..i] == known[..|Known(s)|][..i] == Known(s)[..i];
      assert found[i] == known[i] == known[..|Known(s)|][i];
    }
  }

  lemma CrashKeeps(env: Env, s: State, w: Writing, cut: nat)
    requires env.codec.Faithful() && Inv(env, s) && !s.refused
    ensures Inv(env, Step(env, s, CrashStep(w, cut)))
  {
    hide EncodeAll, ImageOf, WalFrames, Chain, Log, Survives, KnownWith, Recovers, Step, Whole, Known;
    var _ := CrashFile(env, s, w);
    CrashMeans(env, s, w, cut);
    SurvivesPrefix(env, s, w, cut);
    var known := KnownWith(env, s, w);
    var bytes := Survives(env, s, w, cut);
    RecoversKeeps(env, s, known, Whole(Log(env.codec, s.stale, s.base, known), |bytes|));
    RefusedKeeps(env, s);
  }

  lemma RefusedKeeps(env: Env, s: State)
    requires Inv(env, s)
    ensures Inv(env, s.(refused := true))
  {
    var s' := s.(refused := true);
    assert Known(s') == Known(s) && WalFrames(env.codec, s') == WalFrames(env.codec, s) && Offered(s') == Offered(s);
  }

  // ----- Replica steps -----

  lemma {:induction false} IdsHas(h: History, k: nat)
    requires k < |h|
    ensures h[k].index in Ids(h)
  {
    if k < |h| - 1 {
      IdsHas(h[..|h| - 1], k);
    }
  }

  /** Everything that a replica holds below the pending index is older than the pending one. */
  lemma AckedBelow(env: Env, known: History, rep: Replica, t: Transaction)
    requires ReplicaOk(env, known, rep) && t.index == |known| && t.index !in rep.committed
    ensures Rising(rep.acked + [t])
  {
    hide EncodeAll, Pairs, SyncsAt;
    forall i | 0 <= i < |rep.acked|
      ensures rep.acked[i].index < t.index
    {
      IdsHas(rep.acked, i);
      assert Belongs(env, known, rep.acked[i]);
    }
  }

  /** A replica that stores one more known transaction stays correct. */
  lemma AckKeeps(env: Env, known: History, rep: Replica, t: Transaction)
    requires ReplicaOk(env, known, rep) && Belongs(env, known, t) && t.index == |known| && t.index !in rep.committed
    ensures ReplicaOk(env, known, Replica(true, rep.wal + EncodeAll(env.codec.sha, Pair(env.codec, t)),
                                          rep.committed[t.index := t.id], rep.acked + [t]))
  {
    hide EncodeAll, Pairs, SyncsAt, Rising;
    AckedBelow(env, known, rep, t);
    PairsAppend(env.codec, rep.acked, [t]);
    PairOf(env.codec, t);
    EncodeAllAppend(env.codec.sha, Pairs(env.codec, rep.acked), Pair(env.codec, t));
    assert (rep.acked + [t])[..|rep.acked|] == rep.acked;
  }

  /** What a replica has stored at the pending index is the pending transaction. */
  lemma NeverConflicts(env: Env, known: History, rep: Replica, t: Transaction)
    requires ReplicaOk(env, known, rep) && Belongs(env, known, t) && t.index in rep.committed
    ensures rep.committed[t.index] == t.id
  {
    hide EncodeAll, Pairs, SyncsAt, Rising;
    var k := IdsLookup(rep.acked, t.index);
    assert Belongs(env, known, rep.acked[k]);
  }

  lemma OfferedBelongs(env: Env, s: State)
    requires Inv(env, s) && Offered(s).Some?
    ensures Belongs(env, Known(s), s.pending.value) && s.pending.value.index == |Known(s)|
  {
    hide Genuine, Chain, ImageOf, DiskOk, SyncOk, ReplicasOk, Syncs;
    var t := s.pending.value;
    GenuineIndex(env, s.history, t);
    assert Known(s)[..|s.history|] == s.history;
  }

  lemma ReplicaSwap(env: Env, s: State, r: nat, rep: Replica)
    requires Inv(env, s) && r < |s.replicas| && ReplicaOk(env, Known(s), rep)
    ensures Inv(env, s.(replicas := s.replicas[r := rep]))
  {
    hide ReplicaOk, HistoryOk, EncodeAll, Log, Readable, Stale, SnapshotFile;
    var s' := s.(replicas := s.replicas[r := rep]);
    assert Known(s') == Known(s) && WalFrames(env.codec, s') == WalFrames(env.codec, s) && Offered(s') == Offered(s);
    assert HistoryOk(env, s') by { SameHistory(env, s, s'); }
  }

  lemma SameHistory(env: Env, s: State, s': State)
    requires HistoryOk(env, s) && s'.history == s.history && s'.image == s.image && s'.pending == s.pending
    ensures HistoryOk(env, s')
  {
  }

  lemma ReplicateKeeps(env: Env, s: State, r: nat, written: bool)
    requires Inv(env, s) && !s.refused
    ensures Inv(env, Step(env, s, ReplicateStep(r, written)))
  {
    hide Inv, ReplicaOk, Belongs;
    if Offered(s).Some? && r < |s.replicas| {
      var t, rep := s.pending.value, s.replicas[r];
      OfferedBelongs(env, s);
      ReplicaAt(env, s, r);
      if rep.open && t.index !in rep.committed && written {
        AckKeeps(env, Known(s), rep, t);
        ReplicaSwap(env, s, r, ReplicaCommit(env.codec, rep, t, written).value);
      } else {
        assert s.replicas[r := rep] == s.replicas;
      }
    }
  }

  lemma ReplicaAt(env: Env, s: State, r: nat)
    requires Inv(env, s) && r < |s.replicas|
    ensures ReplicaOk(env, Known(s), s.replicas[r])
  {
  }

  lemma AckedWritten(env: Env, known: History, rep: Replica)
    requires env.codec.Faithful() && Chain(env, known) && ReplicaOk(env, known, rep)
    ensures AllWritten(env.codec, rep.acked)
  {
    hide Chain, EncodeAll, Pairs, Rising, Ids, Fits, SyncsAt;
    forall t | t in rep.acked
      ensures Written(env.codec, t)
    {
      assert Belongs(env, known, t);
      ChainStorable(env, known, t.index - 1);
    }
  }

  /** The part of a longer log that a cut keeps. */
  lemma KeptPairs(codec: Codec, list: History, n: nat, cut: nat)
    requires n <= |list| && LogSize(codec, list[..n]) <= cut <= LogSize(codec, list)
    ensures n <= Whole(Pairs(codec, list), cut) / 2 <= |list|
    ensures forall k | 0 <= k <= |list| :: LogSize(codec, list[..k]) <= LogSize(codec, list) &&
              EncodeAll(codec.sha, Pairs(codec, list))[..LogSize(codec, list[..k])] == EncodeAll(codec.sha, Pairs(codec, list[..k]))
  {
    hide EncodeAll, Encode;
    forall k | 0 <= k <= |list|
      ensures Pairs(codec, list)[..2 * k] == Pairs(codec, list[..k]) && LogSize(codec, list[..k]) <= LogSize(codec, list)
      ensures EncodeAll(codec.sha, Pairs(codec, list))[..LogSize(codec, list[..k])] == EncodeAll(codec.sha, Pairs(codec, list[..k]))
    {
      assert list == list[..k] + list[k..];
      PairsAppend(codec, list[..k], list[k..]);
      EncodePrefix(codec.sha, Pairs(codec, list), 2 * k);
    }
    WholeAtLeast(codec.sha, Pairs(codec, list), 2 * n, cut);
  }

  /** A replica that has also stored `t`. */
  function Stored(codec: Codec, rep: Replica, t: Transaction): Replica {
    Replica(true, rep.wal + EncodeAll(codec.sha, Pair(codec, t)), rep.committed[t.index := t.id], rep.acked + [t])
  }

  /** A replica that dies after `landed` bytes of a pair reopens without it or with all of it. */
  lemma ReopenTorn(env: Env, known: History, rep: Replica, t: Transaction, landed: nat)
    requires env.codec.Faithful() && Chain(env, known) && ReplicaOk(env, known, rep)
    requires Belongs(env, known, t) && t.index == |known| && t.index !in rep.committed
    ensures var after := ReopenReplica(env.codec, rep, Some(t), landed);
            after == rep.(open := false) || after == rep.(open := true) || after == Stored(env.codec, rep, t)
  {
    hide Chain, EncodeAll, Pairs, Rising, Ids, SyncsAt, ScanLog, Whole, LooksLegacy, Small, Encode, Belongs, Pair;
    var codec, full, list := env.codec, Stored(env.codec, rep, t), rep.acked + [t];
    AckKeeps(env, known, rep, t);
    AckedWritten(env, known, full);
    var extra := EncodeAll(codec.sha, Pair(codec, t));
    var file := rep.wal + (if landed <= |extra| then extra[..landed] else extra);
    assert file == full.wal[..|file|] == ReplicaCut(codec, list, |file|);
    ScanAnyCut(codec, list, |file|);
    assert list[..|rep.acked|] == rep.acked && list[..|list|] == list;
    KeptPairs(codec, list, |rep.acked|, |file|);
    var n := Whole(Pairs(codec, list), |file|) / 2;
    if ScanLog(codec, file).Ok? {
      var kept := LogSize(codec, list[..n]);
      assert file[..kept] == full.wal[..kept];
      assert n == |rep.acked| || n == |list|;
      PairNonempty(codec, t);
    }
  }

  lemma PairNonempty(codec: Codec, t: Transaction)
    ensures |EncodeAll(codec.sha, Pair(codec, t))| > 0
  {
  }

  lemma ReopenWhole(env: Env, known: History, rep: Replica)
    requires env.codec.Faithful() && Chain(env, known) && ReplicaOk(env, known, rep)
    ensures ScanLog(env.codec, rep.wal).Ok? ==> ScanLog(env.codec, rep.wal).value == (rep.committed, |rep.wal|)
  {
    hide Chain, EncodeAll, Pairs, Rising, Ids, SyncsAt, ScanLog, Whole, LooksLegacy, Small, Encode, Belongs;
    var codec, list := env.codec, rep.acked;
    AckedWritten(env, known, rep);
    assert rep.wal == rep.wal[..|rep.wal|] == ReplicaCut(codec, list, |rep.wal|);
    assert list[..|list|] == list;
    ScanAnyCut(codec, list, |rep.wal|);
    KeptPairs(codec, list, |list|, |rep.wal|);
  }

  lemma ReopenKeeps(env: Env, s: State, r: nat, landed: nat)
    requires env.codec.Faithful() && Inv(env, s) && !s.refused && r < |s.replicas|
    ensures Inv(env, Step(env, s, ReopenReplicaStep(r, landed)))
  {
    hide Inv, ReplicaOk, Belongs, Chain, ScanLog, Genuine, ImageOf, Pair, EncodeAll;
    var rep, known := s.replicas[r], Known(s);
    ReplicaAt(env, s, r);
    KnownChain(env, s);
    var after := ReopenReplica(env.codec, rep, Offered(s), landed);
    OpenFlag(env, known, rep);
    if Offered(s).Some? && s.pending.value.index !in rep.committed {
      OfferedBelongs(env, s);
      ReopenTorn(env, known, rep, s.pending.value, landed);
      AckKeeps(env, known, rep, s.pending.value);
    } else {
      ReopenWhole(env, known, rep);
      assert rep.wal + [] == rep.wal;
    }
    ReplicaSwap(env, s, r, after);
  }

  lemma OpenFlag(env: Env, known: History, rep: Replica)
    requires ReplicaOk(env, known, rep)
    ensures forall b :: ReplicaOk(env, known, rep.(open := b))
  {
  }

  lemma KnownChain(env: Env, s: State)
    requires Inv(env, s)
    ensures Chain(env, Known(s)) && |Known(s)| < U64_LIMIT
  {
    hide Genuine, Chain, ImageOf, DiskOk, SyncOk, ReplicasOk;
    if s.pending.Some? {
      ChainExtend(env, s.history, s.pending.value);
      GenuineIndex(env, s.history, s.pending.value);
    }
  }

  // ----- All steps, all runs -----

  lemma StepKeeps(env: Env, s: State, e: Event)
    requires env.codec.Faithful() && Inv(env, s)
    ensures Inv(env, Step(env, s, e))
  {
    hide HistoryOk, DiskOk, SyncOk, ReplicasOk, DraftCall, AfterPrepare, AfterCommit, Reopened, ReopenReplica, SnapshotFile,
         KnownWith, Survives, ReplicaCommit;
    if s.refused || s.base > |s.history| {
      return;
    }
    match e
    case PrepareStep(call, written) =>
      if s.pending.None? && written && DraftCall(env, s.image, call).Ok? {
        Bounded(env, s);
        DraftGenuine(env, s.image, call);
        PrepareKeeps(env, s, DraftCall(env, s.image, call).value);
      }
    case ReplicateStep(r, written) => ReplicateKeeps(env, s, r, written);
    case CommitStep(written) =>
      if s.pending.Some? {
        CommitKeeps(env, s);
      }
    case SnapshotStep =>
      if s.pending.None? && SnapshotFile(env, s.image).Some? {
        SnapshotKeeps(env, s);
      }
    case TruncateStep => TruncateKeeps(env, s);
    case CrashStep(w, cut) => CrashKeeps(env, s, w, cut);
    case ReopenReplicaStep(r, landed) =>
      if r < |s.replicas| {
        ReopenKeeps(env, s, r, landed);
      }
  }

  lemma Bounded(env: Env, s: State)
    requires Inv(env, s)
    ensures AllWellFormed(s.image.records) && |s.image.records| <= env.options.maxTasks
  {
    hide Genuine, Chain, ImageOf, DiskOk, SyncOk, ReplicasOk, WellFormed;
    ImageBounded(env, s.history);
  }

  /** Whatever happens, and in whatever order, the registry keeps its invariant. */
  lemma {:induction false} EveryRunKeeps(env: Env, events: seq<Event>)
    requires env.codec.Faithful()
    ensures Inv(env, Run(env, Init(env), events))
    decreases |events|
  {
    hide Inv, Step;
    if events == [] {
      InitKeeps(env);
    } else {
      EveryRunKeeps(env, events[..|events| - 1]);
      StepKeeps(env, Run(env, Init(env), events[..|events| - 1]), events[|events| - 1]);
    }
  }
}
