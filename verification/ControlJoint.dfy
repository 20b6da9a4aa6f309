/** The registry and the control plane together: one of the registry's replicas is the control log. */
module ControlJoint {
  import opened Wire
  import opened Outcomes
  import opened Tasks
  import opened Frames
  import J = Journal
  import R = Replicas
  import opened Runs
  import RunsSafety
  import RegistryTheorems
  import C = Control
  import S = ControlSafety
  import G = ControlGrants
  import B = ControlBridge

  // ----- What the control log answers is what a file replica answers -----

  lemma IdsBelow(h: J.History, index: u64)
    requires index in R.Ids(h)
    ensures exists t <- h :: t.index == index
  {
    var k := R.IdsLookup(h, index);
    assert h[k] in h;
  }

  lemma {:induction false} LocatedById(codec: J.Codec, log: C.EntryLog, h: J.History, index: u64)
    requires B.Carries(codec, log, h) && R.Rising(h)
    ensures index in R.Ids(h) <==> B.Located(log, index).Some?
    ensures index in R.Ids(h) ==> forall id :: B.SameId(B.Located(log, index).value, id) <==> id == R.Ids(h)[index]
    decreases |log|
  {
    hide B.RegistryRecord, B.Names, B.SameId;
    if log != [] {
      var start, e := log[..|log| - 1], log[|log| - 1];
      assert log == start + [e];
      B.LocatedSnoc(start, e, index);
      if B.IsRegistry(e.record) {
        var n := |h| - 1;
        B.CarriesLast(codec, log, h);
        LocatedById(codec, start, h[..n], index);
        B.RecordFields(codec, h[n]);
        if index == h[n].index && index in R.Ids(h[..n]) {
          IdsBelow(h[..n], index);
        }
      } else {
        LocatedById(codec, start, h, index);
        B.NamesRegistry(e.record, index);
      }
    }
  }

  // ----- Joint runs -----

  datatype Joint = Joint(registry: State, control: C.Cluster)

  /** `slot` is the place of the control log among the registry's replicas. */
  datatype JointEnv = JointEnv(registry: J.Env, control: C.ControlEnv, slot: nat)

  datatype JointEvent =
    | RegistryEvent(event: Event)
    | ControlEvent(step: C.ControlEvent)
    | CftEvent(ingress: NodeId, tick: u64, failed: set<NodeId>)

  /** The registry's own steps leave the control log alone. */
  predicate Elsewhere(env: JointEnv, e: Event) {
    (e.ReplicateStep? || e.ReopenReplicaStep?) ==> e.replica != env.slot
  }

  predicate Asked(s: State) {
    !s.refused && s.base <= |s.history| && Offered(s).Some?
  }

  ghost function JointNext(env: JointEnv, j: Joint, e: JointEvent): Joint {
    match e
    case RegistryEvent(event) => if Elsewhere(env, event) then j.(registry := Step(env.registry, j.registry, event)) else j
    case ControlEvent(step) => j.(control := C.Next(env.control, j.control, step))
    case CftEvent(ingress, tick, failed) =>
      if !Asked(j.registry) then j
      else
        var (control, r) := B.CftCommit(env.registry.codec, env.control, j.control, ingress, Offered(j.registry).value, tick, failed);
        Joint(Step(env.registry, j.registry, ReplicateStep(env.slot, r.Ok?)), control)
  }

  ghost function JointRun(env: JointEnv, j: Joint, events: seq<JointEvent>): Joint {
    if events == [] then j else JointNext(env, JointRun(env, j, events[..|events| - 1]), events[|events| - 1])
  }

  /** Writes reach only nodes in step, leaders' disks work, and the ingress has recovered before it is asked. */
  ghost predicate Orderly(env: JointEnv, j: Joint, e: JointEvent) {
    match e
    case RegistryEvent(_) => true
    case ControlEvent(step) =>
      S.LeaderPersists(step) && S.Disciplined(j.control, step) && (step.ProposeEvent? ==> !B.IsRegistry(step.record))
    case CftEvent(ingress, _, failed) =>
      && ingress in j.control.nodes && j.control.nodes[ingress].log == j.control.history
      && (j.control.leader.Some? ==> j.control.leader.value !in failed && S.InStep(j.control, j.control.leader.value, failed))
  }

  ghost predicate OrderlyRun(env: JointEnv, j: Joint, events: seq<JointEvent>)
    decreases |events|
  {
    events == [] ||
    (var n := |events| - 1;
     OrderlyRun(env, j, events[..n]) && Orderly(env, JointRun(env, j, events[..n]), events[n]))
  }

  /** The control log carries exactly what its slot among the replicas has acknowledged. */
  ghost predicate JointOk(env: JointEnv, j: Joint, n: nat) {
    && env.registry.codec.Faithful() && Inv(env.registry, j.registry) && env.slot < |j.registry.replicas|
    && S.Safe(j.control, n) && S.Prefixes(j.control)
    && j.registry.replicas[env.slot].open
    && B.Carries(env.registry.codec, j.control.history, j.registry.replicas[env.slot].acked)
  }

  lemma OtherSlots(env: JointEnv, s: State, e: Event)
    requires Elsewhere(env, e) && env.slot < |s.replicas|
    ensures var s' := Step(env.registry, s, e);
            |s'.replicas| == |s.replicas| && s'.replicas[env.slot] == s.replicas[env.slot]
  {
    hide DraftCall, SnapshotFile, ReopenReplica, R.ReplicaCommit, Survives, KnownWith, OpenFiles, WalFrames, AfterPrepare, AfterCommit, Offered;
    if e.PrepareStep? && DraftCall(env.registry, s.image, e.call).Ok? {
      AfterBoth(env.registry, s, DraftCall(env.registry, s.image, e.call).value);
    }
    if e.CommitStep? && s.pending.Some? {
      AfterBoth(env.registry, s, s.pending.value);
    }
  }

  lemma AfterBoth(env: J.Env, s: State, t: J.Transaction)
    ensures AfterPrepare(env, s, t).replicas == s.replicas == AfterCommit(env, s, t).replicas
  {
  }

  /** A commit through a recovered node answers as a file replica with the same contents would. */
  lemma CftAnswers(env: JointEnv, j: Joint, n: nat, ingress: NodeId, t: J.Transaction, tick: u64, failed: set<NodeId>)
    requires JointOk(env, j, n) && ingress in j.control.nodes && j.control.nodes[ingress].log == j.control.history
    ensures var codec, rep := env.registry.codec, j.registry.replicas[env.slot];
            var (c', r) := B.CftCommit(codec, env.control, j.control, ingress, t, tick, failed);
            var after := R.ReplicaCommit(codec, rep, t, r.Ok?);
            && (after.Ok? <==> r.Ok?)
            && B.Carries(codec, c'.history, if after.Ok? then after.value.acked else rep.acked)
            && (after.Ok? ==> after.value.open)
  {
    hide Inv, S.Safe, S.Prefixes, B.RegistryRecord, B.SameId, B.Located, B.ProposeFrom, B.RegistryRecords, B.RecordsOf, R.Ids;
    var codec, rep := env.registry.codec, j.registry.replicas[env.slot];
    assert rep.committed == R.Ids(rep.acked) && R.Rising(rep.acked) by { RunsSafety.ReplicaAt(env.registry, j.registry, env.slot); }
    LocatedById(codec, j.control.history, rep.acked, t.index);
    B.ProposeFromHistory(env.control, j.control, ingress, B.RegistryRecord(codec, t), tick, failed);
    B.RecordFields(codec, t);
    B.RecordsSnoc(codec, rep.acked, t);
  }

  /** The control side of a commit is a disciplined write or nothing. */
  lemma CftControl(env: JointEnv, c: C.Cluster, n: nat, ingress: NodeId, t: J.Transaction, tick: u64, failed: set<NodeId>)
    requires S.Safe(c, n) && S.Prefixes(c) && n + 1 < U64_LIMIT
    requires c.leader.Some? ==> c.leader.value !in failed && S.InStep(c, c.leader.value, failed)
    ensures var c' := B.CftCommit(env.registry.codec, env.control, c, ingress, t, tick, failed).0;
            S.Safe(c', n + 1) && S.Prefixes(c')
  {
    hide S.Safe, S.Prefixes, S.InStep, B.RegistryRecord, B.SameId, B.Located, C.Propose, C.Authorize, C.Connected;
    S.More(c, n);
    if c.leader.Some? {
      var record := B.RegistryRecord(env.registry.codec, t);
      S.ProposeKeeps(env.control, c, n, c.leader.value, record, failed);
      S.WritePrefixes(env.control, c, n, c.leader.value, record, failed);
    }
  }

  lemma CftKeeps(env: JointEnv, j: Joint, n: nat, ingress: NodeId, tick: u64, failed: set<NodeId>)
    requires JointOk(env, j, n) && n + 1 < U64_LIMIT && Orderly(env, j, CftEvent(ingress, tick, failed)) && Asked(j.registry)
    ensures JointOk(env, JointNext(env, j, CftEvent(ingress, tick, failed)), n + 1)
  {
    hide Inv, S.Safe, S.Prefixes, B.CftCommit, R.ReplicaCommit, B.Carries, S.InStep, Offered;
    var t, codec := Offered(j.registry).value, env.registry.codec;
    var (c', r) := B.CftCommit(codec, env.control, j.control, ingress, t, tick, failed);
    CftAnswers(env, j, n, ingress, t, tick, failed);
    CftControl(env, j.control, n, ingress, t, tick, failed);
    RunsSafety.StepKeeps(env.registry, j.registry, ReplicateStep(env.slot, r.Ok?));
  }

  lemma JointKeeps(env: JointEnv, j: Joint, n: nat, e: JointEvent)
    requires JointOk(env, j, n) && n + 1 < U64_LIMIT && Orderly(env, j, e)
    ensures JointOk(env, JointNext(env, j, e), n + 1)
  {
    hide Inv, S.Safe, S.Prefixes, B.CftCommit, B.Carries, S.InStep, S.Disciplined, Step, C.Next, Asked;
    S.More(j.control, n);
    match e
    case RegistryEvent(event) =>
      if Elsewhere(env, event) {
        RunsSafety.StepKeeps(env.registry, j.registry, event);
        OtherSlots(env, j.registry, event);
      }
    case ControlEvent(step) =>
      S.NextKeeps(env.control, j.control, n, step);
      S.NextPrefixes(env.control, j.control, n, step);
      B.OthersCarry(env.control, j.control, step);
      SameCarried(env.registry.codec, j.control.history, C.Next(env.control, j.control, step).history, j.registry.replicas[env.slot].acked);
    case CftEvent(ingress, tick, failed) =>
      if Asked(j.registry) {
        CftKeeps(env, j, n, ingress, tick, failed);
      }
  }

  lemma SameCarried(codec: J.Codec, a: C.EntryLog, b: C.EntryLog, h: J.History)
    requires B.Carries(codec, a, h) && B.RegistryRecords(b) == B.RegistryRecords(a)
    ensures B.Carries(codec, b, h)
  {
  }

  function JointStart(env: JointEnv, kinds: map<NodeId, C.NodeKind>): Joint {
    Joint(Init(env.registry), C.Start(kinds))
  }

  lemma StartOk(env: JointEnv, kinds: map<NodeId, C.NodeKind>)
    requires env.registry.codec.Faithful() && env.slot < env.registry.replicas && C.Admissible(kinds)
    ensures JointOk(env, JointStart(env, kinds), 0)
  {
    hide Inv, S.Safe, C.Admissible;
    RunsSafety.EveryRunKeeps(env.registry, []);
    S.StartSafe(kinds);
  }

  lemma {:induction false} EveryJointRun(env: JointEnv, kinds: map<NodeId, C.NodeKind>, events: seq<JointEvent>)
    requires env.registry.codec.Faithful() && env.slot < env.registry.replicas && C.Admissible(kinds) && |events| + 1 < U64_LIMIT
    requires OrderlyRun(env, JointStart(env, kinds), events)
    ensures JointOk(env, JointRun(env, JointStart(env, kinds), events), |events|)
    decreases |events|
  {
    hide JointOk, JointNext, Orderly, JointStart;
    if events == [] {
      StartOk(env, kinds);
    } else {
      var n := |events| - 1;
      EveryJointRun(env, kinds, events[..n]);
      JointKeeps(env, JointRun(env, JointStart(env, kinds), events[..n]), n, events[n]);
    }
  }

  // ----- Restoring the registry from the control log -----

  lemma AckedRestorable(env: J.Env, known: J.History, rep: R.Replica)
    requires J.Chain(env, known) && ReplicaOk(env, known, rep)
    ensures forall t <- rep.acked :: B.Restorable(env.codec, t)
  {
    hide J.Chain, B.Restorable, EncodeAll, J.Pairs, R.Ids, R.Rising, SyncsAt;
    B.ChainRestorable(env, known);
    forall t | t in rep.acked
      ensures B.Restorable(env.codec, t)
    {
      assert Belongs(env, known, t);
    }
  }

  /**
   In every orderly run of registry and control plane, the leader's log and any longest log
   restore to the registry's own first transactions: exactly when the control log skipped none and
   the restored log does not look legacy, it opens to their image.
   */
  lemma JointRestores(env: JointEnv, kinds: map<NodeId, C.NodeKind>, events: seq<JointEvent>, id: NodeId)
    requires env.registry.codec.Faithful() && env.slot < env.registry.replicas && C.Admissible(kinds) && |events| + 1 < U64_LIMIT
    requires OrderlyRun(env, JointStart(env, kinds), events)
    requires var c := JointRun(env, JointStart(env, kinds), events).control;
             id in c.nodes && (C.LongestLog(c.nodes, id) || c.leader == Some(id))
    ensures var j := JointRun(env, JointStart(env, kinds), events);
            && env.slot < |j.registry.replicas|
            && var acked := j.registry.replicas[env.slot].acked;
            && var restored := B.Restore(env.registry.codec, j.control.nodes[id].log);
            && restored.Ok?
            && J.Replay(env.registry, None, restored.value) ==
               (if J.LooksLegacy(restored.value) || !RegistryTheorems.Gapless(acked) then Err(Corrupt)
                else Ok(J.Recovered(J.ImageOf(env.registry, Known(j.registry)[..if |acked| <= |Known(j.registry)| then |acked| else 0]),
                                    None, |acked|, |restored.value|)))
  {
    hide JointRun, OrderlyRun, JointStart, Inv, S.Safe, S.Prefixes, C.LongestLog, J.Replay, J.LooksLegacy, J.ImageOf, Known, RegistryTheorems.Gapless,
         B.Restore, B.Carries, B.Restorable, J.Chain, ReplicaOk, EncodeAll, J.Pairs;
    EveryJointRun(env, kinds, events);
    var j, n := JointRun(env, JointStart(env, kinds), events), |events|;
    var s, c, rep := j.registry, j.control, j.registry.replicas[env.slot];
    if c.leader == Some(id) {
      S.LeaderComplete(c, n);
    } else {
      G.AnyLongestLog(c, n, id);
    }
    RunsSafety.ReplicaAt(env.registry, s, env.slot);
    RunsSafety.KnownChain(env.registry, s);
    AckedRestorable(env.registry, Known(s), rep);
    B.RestoreExactly(env.registry.codec, c.nodes[id].log, rep.acked);
    RegistryTheorems.ReplicaBytes(env.registry, Known(s), rep);
    RegistryTheorems.ReplicaReplaysExactly(env.registry, s, env.slot);
  }
}
