/** What the registry guarantees in every run, with every crash, cut, failed write and retry. */
module RegistryTheorems {
  import opened Wire
  import opened Outcomes
  import opened Tasks
  import opened Frames
  import opened Journal
  import opened Replicas
  import opened Runs
  import opened RunsSafety

  // ----- The files always agree with memory -----

  lemma {:induction false} WholeExact(sha: Bytes -> Digest, fs: seq<Frame>, k: nat)
    requires k <= |fs|
    ensures Whole(fs, |EncodeAll(sha, fs[..k])|) == k
  {
    if k > 0 {
      assert fs[..k][1..] == fs[1..][..k - 1];
      WholeExact(sha, fs[1..], k - 1);
    }
  }

  /** Opening the files of an invariant state gives back its records, versions, index and pending. */
  lemma FilesAgree(env: Env, s: State)
    requires env.codec.Faithful() && Inv(env, s)
    ensures OpenFiles(env, s.snapshot, s.wal) ==
            if LooksLegacy(s.wal) then Err(Corrupt)
            else Ok(Recovered(s.image, s.pending, |s.history| - s.base, |s.wal|))
  {
    hide EncodeAll, Encode, Chain, Log, WalFrames, ImageOf, Replay, SyncOk, ReplicasOk, Whole, LoadSnapshot, SnapshotFile,
         Genuine, Readable, Stale, LooksLegacy;
    var known, fs, sha := Known(s), WalFrames(env.codec, s), env.codec.sha;
    var log := Log(env.codec, s.stale, s.base, known);
    KnownChain(env, s);
    WalFramesShape(env.codec, s);
    EncodePrefix(sha, log, |fs|);
    WholeExact(sha, log, |fs|);
    assert known[..s.base] == s.history[..s.base] && known[..|s.history|] == s.history;
    var snapshot := SnapshotFound(env, s, known);
    RecoverAnyCut(env, known, s.base, s.stale, snapshot, |s.wal|);
  }

  /**
   After every run, replaying the snapshot and the log yields exactly the live records, versions,
   log index, last transaction id and pending transaction, and keeps every byte of the log.
   */
  lemma DiskAlwaysAgrees(env: Env, events: seq<Event>)
    requires env.codec.Faithful()
    ensures var s := Run(env, Init(env), events);
            s.base <= |s.history| &&
            OpenFiles(env, s.snapshot, s.wal) ==
            if LooksLegacy(s.wal) then Err(Corrupt)
            else Ok(Recovered(s.image, s.pending, |s.history| - s.base, |s.wal|))
  {
    hide HistoryOk, SyncOk, ReplicasOk, OpenFiles, Run, LooksLegacy, EncodeAll, SnapshotFile, Readable, Stale, WalFrames;
    EveryRunKeeps(env, events);
    FilesAgree(env, Run(env, Init(env), events));
  }

  // ----- When recovery is refused -----

  lemma LeDigits(n: nat)
    ensures Le(n, 4)[0] == n % 256 && Le(n, 4)[1] == n / 256 % 256
  {
  }

  /**
   A log that the registry wrote is taken for the legacy format exactly when at least two of its
   bytes survive and the body length of its first frame is 8827 modulo 65536.
   */
  lemma LegacyExactly(sha: Bytes -> Digest, fs: seq<Frame>, cut: nat)
    requires cut <= |EncodeAll(sha, fs)|
    ensures LooksLegacy(EncodeAll(sha, fs)[..cut]) <==>
            cut >= 2 && fs != [] && (HEADER + |fs[0].payload| + DIGEST) % 65536 == 8827
  {
    hide EncodeAll;
    NothingEncoded(sha);
    if fs != [] && cut >= 2 {
      FirstBytes(sha, fs, cut);
      LowBytes(HEADER + |fs[0].payload| + DIGEST);
    }
  }

  lemma NothingEncoded(sha: Bytes -> Digest)
    ensures EncodeAll(sha, []) == []
  {
  }

  lemma FirstBytes(sha: Bytes -> Digest, fs: seq<Frame>, cut: nat)
    requires fs != [] && 2 <= cut <= |EncodeAll(sha, fs)|
    ensures var n := HEADER + |fs[0].payload| + DIGEST;
            var bytes := EncodeAll(sha, fs)[..cut];
            bytes[0] == n % 256 && bytes[1] == n / 256 % 256
  {
    hide Le, Protected;
    var n := HEADER + |fs[0].payload| + DIGEST;
    var bytes := EncodeAll(sha, fs)[..cut];
    LeDigits(n);
    assert bytes[0] == Le(n, 4)[0] && bytes[1] == Le(n, 4)[1];
  }

  lemma LowBytes(n: nat)
    ensures n % 65536 == 8827 <==> n % 256 == 0x7B && n / 256 % 256 == 0x22
  {
    assert n % 65536 == n % 256 + 256 * (n / 256 % 256);
  }

  /** A crash ends in a refused registry exactly when the surviving bytes look legacy. */
  lemma RefusedExactly(env: Env, s: State, w: Writing, cut: nat)
    requires env.codec.Faithful() && Inv(env, s) && !s.refused
    ensures var known := KnownWith(env, s, w);
            && s.base <= |known|
            && var log := Log(env.codec, s.stale, s.base, known);
            Step(env, s, CrashStep(w, cut)).refused <==>
            && |Survives(env, s, w, cut)| >= 2 && log != []
            && (HEADER + |log[0].payload| + DIGEST) % 65536 == 8827
  {
    hide EncodeAll, Chain, Log, KnownWith, Survives, Inv, Step, Whole, LooksLegacy;
    CrashMeans(env, s, w, cut);
    SurvivesPrefix(env, s, w, cut);
    var log := Log(env.codec, s.stale, s.base, KnownWith(env, s, w));
    LegacyExactly(env.codec.sha, log, |Survives(env, s, w, cut)|);
  }

  /** The state after the first transaction of a new registry. */
  lemma FirstCommit(env: Env, call: Call) returns (s: State)
    requires env.codec.Faithful() && DraftCall(env, EMPTY, call).Ok?
    ensures var t := DraftCall(env, EMPTY, call).value;
            && s == Run(env, Init(env), [PrepareStep(call, true), CommitStep(true)])
            && s == AfterCommit(env, AfterPrepare(env, Init(env), t), t)
            && Inv(env, s) && !s.refused && s.history == [t] && s.pending == None && s.base == 0 && s.stale == []
  {
    hide DraftCall, Publish, Encode, Syncs, Log, Inv, ImageOf, EncodeAll;
    var s0, t := Init(env), DraftCall(env, EMPTY, call).value;
    var s1 := AfterPrepare(env, s0, t);
    s := AfterCommit(env, s1, t);
    var start := [PrepareStep(call, true), CommitStep(true)];
    assert start[..1] == [PrepareStep(call, true)] && start[..1][..0] == [];
    assert Run(env, s0, start[..1]) == s1;
    EveryRunKeeps(env, start);
  }

  /**
   A new registry that commits one transaction and restarts on at least two bytes of its log is
   refused exactly when the body length of its prepare frame is 8827 modulo 65536.
   */
  lemma OwnLogRefused(env: Env, call: Call, cut: nat)
    requires env.codec.Faithful() && DraftCall(env, EMPTY, call).Ok? && cut >= 2
    ensures var t := DraftCall(env, EMPTY, call).value;
            Run(env, Init(env), [PrepareStep(call, true), CommitStep(true), CrashStep(Nothing, cut)]).refused <==>
            (HEADER + |env.codec.transactionJson(t)| + DIGEST) % 65536 == 8827
  {
    hide DraftCall, Publish, Encode, Syncs, Inv, ImageOf, EncodeAll, Step, Pairs;
    var t := DraftCall(env, EMPTY, call).value;
    var s := FirstCommit(env, call);
    var events := [PrepareStep(call, true), CommitStep(true), CrashStep(Nothing, cut)];
    assert events[..2] == [PrepareStep(call, true), CommitStep(true)];
    RefusedExactly(env, s, Nothing, cut);
    var log := Log(env.codec, s.stale, s.base, Known(s));
    assert [t][0..] == [t] && [] + Pairs(env.codec, [t]) == Pairs(env.codec, [t]);
    PairOf(env.codec, t);
    assert log[0] == PrepareFrame(env.codec, t);
    EncodedSize(env.codec.sha, CommitFrame(t));
  }

  lemma EncodedSize(sha: Bytes -> Digest, f: Frame)
    ensures |Encode(sha, f)| >= 2
  {
  }

  // ----- What was synced is never lost or replaced -----

  lemma StepSticks(env: Env, s: State, e: Event, i: nat)
    requires env.codec.Faithful() && Inv(env, s) && i < |Known(s)| && SyncsAt(env, Known(s), i)
    ensures var s' := Step(env, s, e);
            && i < |Known(s')| && Known(s')[..i + 1] == Known(s)[..i + 1]
            && (i < |s.history| ==> i < |s'.history|)
  {
    hide EncodeAll, Encode, ImageOf, DraftCall, Survives, KnownWith, Inv, Whole, Log, SnapshotFile, ReopenReplica, ReplicaCommit,
         WalFrames, Reopened, Publish, Syncs, LooksLegacy;
    if e.CrashStep? && !s.refused {
      CrashSticks(env, s, e.writing, e.cut, i);
    }
  }

  lemma CrashSticks(env: Env, s: State, w: Writing, cut: nat, i: nat)
    requires env.codec.Faithful() && Inv(env, s) && !s.refused && i < |Known(s)| && SyncsAt(env, Known(s), i)
    ensures var s' := Step(env, s, CrashStep(w, cut));
            && i < |Known(s')| && Known(s')[..i + 1] == Known(s)[..i + 1]
            && (i < |s.history| ==> i < |s'.history|)
  {
    hide EncodeAll, ImageOf, Survives, KnownWith, Inv, Whole, Log, Step, Syncs, LooksLegacy, Chain;
    var known := KnownWith(env, s, w);
    var _ := CrashFile(env, s, w);
    CrashMeans(env, s, w, cut);
    SurvivesPrefix(env, s, w, cut);
    var whole := Whole(Log(env.codec, s.stale, s.base, known), |Survives(env, s, w, cut)|);
    SyncedSurvives(env, s, whole, i);
    if !LooksLegacy(Survives(env, s, w, cut)) {
      var s', done := Recovers(env, s, known, whole), Done(s.stale, s.base, whole);
      assert Known(s') == if Half(s.stale, whole) then known[..done + 1] else known[..done];
      assert known[..i + 1] == known[..|Known(s)|][..i + 1];
      assert Known(s')[..i + 1] == known[..i + 1];
    }
  }

  lemma SyncsPrefix(env: Env, a: History, b: History, i: nat)
    requires i < |a| && i < |b| && a[..i + 1] == b[..i + 1] && SyncsAt(env, a, i)
    ensures SyncsAt(env, b, i)
  {
    hide ImageOf, Syncs;
    assert a[..i] == a[..i + 1][..i] && b[..i] == b[..i + 1][..i];
    assert a[i] == a[..i + 1][i] && b[i] == b[..i + 1][i];
  }

  /**
   A synced transaction, once written, keeps its place in every continuation of the run: no crash
   loses it, no later transaction takes its index, and once committed it stays committed.
   */
  lemma {:induction false} SyncedForever(env: Env, s: State, events: seq<Event>, i: nat)
    requires env.codec.Faithful() && Inv(env, s) && i < |Known(s)| && SyncsAt(env, Known(s), i)
    ensures var s' := Run(env, s, events);
            && Inv(env, s')
            && i < |Known(s')| && Known(s')[..i + 1] == Known(s)[..i + 1] && SyncsAt(env, Known(s'), i)
            && (i < |s.history| ==> i < |s'.history|)
    decreases |events|
  {
    hide Inv, Step, Known, SyncsAt;
    if events != [] {
      var start, e := events[..|events| - 1], events[|events| - 1];
      SyncedForever(env, s, start, i);
      var mid := Run(env, s, start);
      StepKeeps(env, mid, e);
      StepSticks(env, mid, e, i);
      SyncsPrefix(env, Known(mid), Known(Step(env, mid, e)), i);
    }
  }

  /** Only syncing protects a transaction: one that does not sync can be committed and then lost. */
  lemma UnsyncedMayVanish(env: Env, call: Call)
    requires env.codec.Faithful() && DraftCall(env, EMPTY, call).Ok? && !Syncs(EMPTY, DraftCall(env, EMPTY, call).value)
    ensures var start := [PrepareStep(call, true), CommitStep(true)];
            var s := Run(env, Init(env), start);
            s.history == [DraftCall(env, EMPTY, call).value] && Run(env, s, [CrashStep(Nothing, 0)]).history == []
  {
    hide DraftCall, Publish, Encode, Syncs, Log, Inv, ImageOf, EncodeAll;
    var s := FirstCommit(env, call);
    CrashMeans(env, s, Nothing, 0);
    assert Survives(env, s, Nothing, 0) == [];
    assert Known(s)[..0] == [];
    var crash := [CrashStep(Nothing, 0)];
    assert crash[..0] == [] && Run(env, s, crash[..0]) == s;
    NoneWhole(Log(env.codec, s.stale, s.base, Known(s)));
  }

  lemma NoneWhole(fs: seq<Frame>)
    ensures Whole(fs, 0) == 0
  {
  }

  // ----- Replicas agree with the registry -----

  /** Every id that a replica holds is that of the registry's own transaction at that index. */
  lemma ReplicaAgrees(env: Env, s: State, r: nat, index: u64)
    requires Inv(env, s) && r < |s.replicas| && index in s.replicas[r].committed
    ensures 1 <= index <= |Known(s)| && s.replicas[r].committed[index] == Known(s)[index - 1].id
    ensures SyncsAt(env, Known(s), index - 1)
  {
    hide EncodeAll, Pairs, Rising, HistoryOk, DiskOk, SyncOk, Syncs, ImageOf;
    var rep := s.replicas[r];
    var k := IdsLookup(rep.acked, index);
    assert Belongs(env, Known(s), rep.acked[k]);
  }

  /**
   No index ever carries two transactions: what a replica stored at any time is what the registry
   and every other replica hold at that index at any later time.
   */
  lemma IndexNeverReused(env: Env, early: seq<Event>, late: seq<Event>, r: nat, q: nat, index: u64)
    requires env.codec.Faithful()
    requires var s := Run(env, Init(env), early); r < |s.replicas| && index in s.replicas[r].committed
    ensures var s := Run(env, Init(env), early); var s' := Run(env, s, late); var id := s.replicas[r].committed[index];
            && 1 <= index <= |Known(s')| && Known(s')[index - 1].id == id
            && (q < |s'.replicas| && index in s'.replicas[q].committed ==> s'.replicas[q].committed[index] == id)
  {
    hide Inv, Run, Known, SyncsAt;
    var s := Run(env, Init(env), early);
    var s' := Run(env, s, late);
    EveryRunKeeps(env, early);
    ReplicaAgrees(env, s, r, index);
    SyncedForever(env, s, late, index - 1);
    assert Known(s')[index - 1] == Known(s')[..index][index - 1];
    assert Known(s)[index - 1] == Known(s)[..index][index - 1];
    if q < |s'.replicas| && index in s'.replicas[q].committed {
      ReplicaAgrees(env, s', q, index);
    }
  }

  // ----- A replica as a backup of the registry -----

  /** The replica has every transaction up to its last one. */
  predicate Gapless(h: History) {
    forall i :: 0 <= i < |h| ==> h[i].index == i + 1
  }

  lemma GaplessIsPrefix(env: Env, known: History, rep: Replica, k: nat)
    requires ReplicaOk(env, known, rep) && k <= |rep.acked| && Gapless(rep.acked[..k])
    ensures k <= |known| && rep.acked[..k] == known[..k]
  {
    hide EncodeAll, Pairs, SyncsAt, Ids, Rising;
    assert forall i :: 0 <= i < k ==> rep.acked[..k][i] == rep.acked[i];
    if k > 0 {
      assert Belongs(env, known, rep.acked[k - 1]);
    }
    forall i | 0 <= i < k
      ensures rep.acked[i] == known[i]
    {
      assert Belongs(env, known, rep.acked[i]);
    }
  }

  lemma GapInside(env: Env, known: History, rep: Replica, k: nat)
    requires ReplicaOk(env, known, rep) && k < |rep.acked| && Gapless(rep.acked[..k])
    ensures k < |known| && rep.acked[k].index > 0
  {
    hide EncodeAll, Pairs, SyncsAt, Ids;
    assert Belongs(env, known, rep.acked[k]);
    if k > 0 {
      assert rep.acked[..k][k - 1] == rep.acked[k - 1];
    }
  }

  /** The first transaction that does not follow its predecessor. */
  lemma {:induction false} FirstGap(h: History, n: nat) returns (k: nat)
    requires n <= |h| && !Gapless(h[..n])
    ensures k < n && Gapless(h[..k]) && h[k].index != k + 1
  {
    if Gapless(h[..n - 1]) {
      k := n - 1;
      assert forall i :: 0 <= i < n - 1 ==> h[..n - 1][i] == h[..n][i];
    } else {
      k := FirstGap(h, n - 1);
    }
  }

  /** A commit that skips an index is reported as corruption. */
  lemma GapRejected(env: Env, c: Cursor, t: Transaction, rest: seq<Frame>)
    requires env.codec.Faithful() && c.open == map[] && t.index > 0 && t.index != c.image.lastIndex + 1
    requires c.image.lastIndex + 1 < U64_LIMIT
    ensures ReplayFrames(env, 0, c, Pair(env.codec, t) + rest) == Err(Corrupt)
  {
    hide Apply, Publish, ChainId;
    var fs := Pair(env.codec, t) + rest;
    assert ReplayFrame(env, 0, c, fs[0]) == Ok(c.(open := map[t.index := t]));
    assert fs[1..][0] == CommitFrame(t);
  }

  /**
   A replica's log opens as a registry exactly when it skipped nothing and does not look legacy;
   it then holds exactly the registry's first transactions and nothing pending.
   */
  lemma ReplicaReplaysExactly(env: Env, s: State, r: nat)
    requires env.codec.Faithful() && Inv(env, s) && r < |s.replicas|
    ensures var rep := s.replicas[r]; var n := |rep.acked|;
            Replay(env, None, rep.wal) ==
            if LooksLegacy(rep.wal) || !Gapless(rep.acked) then Err(Corrupt)
            else Ok(Recovered(ImageOf(env, Known(s)[..if n <= |Known(s)| then n else 0]), None, n, |rep.wal|))
  {
    hide EncodeAll, Encode, Pairs, SyncsAt, Ids, Rising, Chain, Replay, ImageOf, LooksLegacy, Inv, ReplicaOk, Readable;
    var rep, known := s.replicas[r], Known(s);
    ReplicaAt(env, s, r);
    KnownChain(env, s);
    AckedReadable(env, known, rep);
    if Gapless(rep.acked) {
      GaplessReplay(env, known, rep);
    } else {
      GappedReplay(env, known, rep);
    }
  }

  /** The frames of a whole history replay to that history's image. */
  lemma WholeLog(env: Env, h: History)
    requires env.codec.Faithful() && Chain(env, h) && |h| < U64_LIMIT
    ensures var bytes := EncodeAll(env.codec.sha, Pairs(env.codec, h));
            Replay(env, None, bytes) == if LooksLegacy(bytes) then Err(Corrupt) else Ok(Recovered(ImageOf(env, h), None, |h|, |bytes|))
  {
    hide EncodeAll, Encode, Pairs, Replay, Chain, ImageOf, LooksLegacy, Whole;
    var fs := Pairs(env.codec, h);
    var bytes := EncodeAll(env.codec.sha, fs);
    assert h[0..] == h && h[..|h|] == h && [] + fs == fs;
    assert Log(env.codec, [], 0, h) == fs;
    RecoverAnyCut(env, h, 0, [], None, |bytes|);
    assert bytes[..|bytes|] == bytes && fs[..|fs|] == fs;
    WholeExact(env.codec.sha, fs, |fs|);
  }

  lemma GaplessReplay(env: Env, known: History, rep: Replica)
    requires env.codec.Faithful() && Chain(env, known) && |known| < U64_LIMIT && ReplicaOk(env, known, rep) && Gapless(rep.acked)
    ensures |rep.acked| <= |known|
    ensures Replay(env, None, rep.wal) ==
            if LooksLegacy(rep.wal) then Err(Corrupt)
            else Ok(Recovered(ImageOf(env, known[..|rep.acked|]), None, |rep.acked|, |rep.wal|))
  {
    hide EncodeAll, Encode, Pairs, Replay, Ids, Rising, Chain, ImageOf, LooksLegacy, Whole, Belongs;
    var h, n := rep.acked, |rep.acked|;
    assert h[..n] == h;
    GaplessIsPrefix(env, known, rep, n);
    ChainPrefix(env, known, n);
    WholeLog(env, h);
  }

  lemma AckedReadable(env: Env, known: History, rep: Replica)
    requires env.codec.Faithful() && Chain(env, known) && ReplicaOk(env, known, rep)
    ensures Readable(env, Pairs(env.codec, rep.acked))
  {
    hide Chain, EncodeAll, Pairs, Rising, Ids, Fits, SyncsAt, Storable;
    forall t | t in rep.acked
      ensures Storable(env, t)
    {
      assert Belongs(env, known, t);
      ChainStorable(env, known, t.index - 1);
    }
    PairsReadable(env, rep.acked);
  }

  lemma GappedReplay(env: Env, known: History, rep: Replica)
    requires env.codec.Faithful() && Chain(env, known) && |known| < U64_LIMIT && ReplicaOk(env, known, rep)
    requires !Gapless(rep.acked) && Readable(env, Pairs(env.codec, rep.acked))
    ensures Replay(env, None, rep.wal) == Err(Corrupt)
  {
    hide EncodeAll, Encode, LooksLegacy, ReplayFrames, ReplayFrom, Finish, ReplicaOk, Gapless, Readable;
    var h := rep.acked;
    var next := Frame(Prepare, 0, []);
    GappedFrames(env, known, rep);
    ReplicaBytes(env, known, rep);
    ReplayEncoded(env, 0, Cursor(EMPTY, map[], 0), [], Pairs(env.codec, h), next, 0);
    assert [] + rep.wal + Encode(env.codec.sha, next)[..0] == rep.wal;
  }

  lemma ReplicaBytes(env: Env, known: History, rep: Replica)
    requires ReplicaOk(env, known, rep)
    ensures rep.wal == EncodeAll(env.codec.sha, Pairs(env.codec, rep.acked))
  {
  }

  /** The frames of a chain replay to its image. */
  lemma WholePairs(env: Env, h: History)
    requires env.codec.Faithful() && Chain(env, h) && |h| < U64_LIMIT
    ensures ReplayFrames(env, 0, Cursor(EMPTY, map[], 0), Pairs(env.codec, h)) == Ok(Cursor(ImageOf(env, h), map[], |h|))
    ensures ImageOf(env, h).lastIndex == |h|
  {
    hide Chain, ImageOf, ReplayFrames, Pairs;
    var n, fs := |h|, Pairs(env.codec, h);
    StartsEmpty(env, h);
    LastIndex(env, h);
    assert h[0..] == h && h[..n] == h && fs[..2 * n] == fs;
    ReplayPairs(env, h, 0, 0, 2 * n);
  }

  lemma GappedFrames(env: Env, known: History, rep: Replica)
    requires env.codec.Faithful() && Chain(env, known) && |known| < U64_LIMIT && ReplicaOk(env, known, rep) && !Gapless(rep.acked)
    ensures ReplayFrames(env, 0, Cursor(EMPTY, map[], 0), Pairs(env.codec, rep.acked)) == Err(Corrupt)
  {
    hide EncodeAll, Chain, ImageOf, ReplayFrames, ReplicaOk, Pair, Pairs, Gapless;
    var h, codec := rep.acked, env.codec;
    assert h[..|h|] == h;
    var k := FirstGap(h, |h|);
    GaplessIsPrefix(env, known, rep, k);
    GapInside(env, known, rep, k);
    ChainPrefix(env, known, k);
    WholePairs(env, h[..k]);
    var before, rest := Pairs(codec, h[..k]), Pairs(codec, h[k + 1..]);
    SplitAt(codec, h, k);
    ReplayFramesAppend(env, 0, Cursor(EMPTY, map[], 0), before, Pair(codec, h[k]) + rest);
    GapRejected(env, Cursor(ImageOf(env, h[..k]), map[], k), h[k], rest);
  }

  lemma SplitAt(codec: Codec, h: History, k: nat)
    requires k < |h|
    ensures Pairs(codec, h) == Pairs(codec, h[..k]) + (Pair(codec, h[k]) + Pairs(codec, h[k + 1..]))
  {
    assert h == h[..k] + ([h[k]] + h[k + 1..]);
    PairsAppend(codec, h[..k], [h[k]] + h[k + 1..]);
    PairsAppend(codec, [h[k]], h[k + 1..]);
    PairOf(codec, h[k]);
  }

  // ----- Versions count transactions -----

  ghost function Total(versions: Versions): nat
    decreases |versions|
  {
    if |versions| == 0 then 0
    else
      var id :| id in versions;
      assert |versions - {id}| < |versions| by { MinusOne(versions, id); }
      versions[id] + Total(versions - {id})
  }

  lemma MinusOne(versions: Versions, id: TaskId)
    requires id in versions
    ensures |versions - {id}| == |versions| - 1
  {
    assert versions.Keys == (versions - {id}).Keys + {id};
  }

  lemma {:induction false} TotalWithout(versions: Versions, id: TaskId)
    requires id in versions
    ensures Total(versions) == versions[id] + Total(versions - {id})
    decreases |versions|
  {
    assert |versions| > 0 by { MinusOne(versions, id); }
    var first :| first in versions && Total(versions) == versions[first] + Total(versions - {first});
    if first != id {
      var rest := versions - {first};
      MinusOne(versions, first);
      TotalWithout(rest, id);
      assert versions - {id} - {first} == rest - {id};
      TotalWithout(versions - {id}, first);
    }
  }

  lemma TotalUpdate(versions: Versions, id: TaskId, v: u64)
    ensures Total(versions[id := v]) == v + Total(versions - {id})
    ensures Total(versions) == (if id in versions then versions[id] else 0) + Total(versions - {id})
  {
    hide Total;
    var updated := versions[id := v];
    TotalWithout(updated, id);
    assert updated - {id} == versions - {id};
    if id in versions {
      TotalWithout(versions, id);
    } else {
      assert versions - {id} == versions;
    }
  }

  /** The versions of all tasks add up to the log index. */
  lemma {:induction false} VersionsCountTransactions(env: Env, h: History)
    requires Chain(env, h)
    ensures Total(ImageOf(env, h).versions) == ImageOf(env, h).lastIndex == |h|
  {
    hide Apply, Total;
    if h == [] {
      TotalEmpty();
    } else {
      var start, t := h[..|h| - 1], h[|h| - 1];
      VersionsCountTransactions(env, start);
      TotalUpdate(ImageOf(env, start).versions, t.task, t.newVersion);
    }
  }

  lemma TotalEmpty()
    ensures Total(map[]) == 0
  {
  }

  // ----- Task records along a history -----

  lemma PublishEvolves(env: Env, image: Image, t: Transaction, task: TaskId)
    requires AllWellFormed(image.records) && Genuine(env, image, t) && task in image.records
    ensures var next := Publish(env, image, t);
            task in next.records && Evolves(image.records[task], next.records[task])
  {
    hide Apply, WellFormed;
    ApplyKeeps(image.records, t.mutation, env.options.maxTasks);
  }

  /**
   Between any two points of a history a task keeps its final state, its committed output and its
   attempts; its record is well formed at both.
   */
  lemma {:induction false} RecordsEvolve(env: Env, h: History, i: nat, task: TaskId)
    requires Chain(env, h) && i <= |h| && task in ImageOf(env, h[..i]).records
    ensures task in ImageOf(env, h).records
    ensures Evolves(ImageOf(env, h[..i]).records[task], ImageOf(env, h).records[task])
    ensures WellFormed(ImageOf(env, h).records[task])
    decreases |h|
  {
    hide Genuine, Publish, WellFormed;
    ImageBounded(env, h);
    if i == |h| {
      assert h[..i] == h;
    } else {
      var start := h[..|h| - 1];
      assert start[..i] == h[..i];
      RecordsEvolve(env, start, i, task);
      ImageBounded(env, start);
      PublishEvolves(env, ImageOf(env, start), h[|h| - 1], task);
    }
  }

  /** In every run the versions of all tasks sum to the log index and every record is well formed. */
  lemma ReachableImage(env: Env, events: seq<Event>)
    requires env.codec.Faithful()
    ensures var s := Run(env, Init(env), events);
            Total(s.image.versions) == s.image.lastIndex == |s.history| && AllWellFormed(s.image.records)
  {
    hide DiskOk, SyncOk, ReplicasOk, Run, Total, ImageOf, Chain, Genuine;
    EveryRunKeeps(env, events);
    var s := Run(env, Init(env), events);
    VersionsCountTransactions(env, s.history);
    ImageBounded(env, s.history);
  }
}
