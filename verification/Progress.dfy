/** When a call of the registry succeeds: which writes and acknowledgements it needs, and that nothing else stops it. */
module Progress {
  import opened Wire
  import opened Outcomes
  import opened Tasks
  import opened Calls
  import opened Frames
  import opened Journal
  import opened Replicas
  import opened Runs
  import opened RunsSafety
  import opened RegistryTheorems
  import opened Registry

  // ----- Enough acknowledgements -----

  /** The names from the `i`-th on that would acknowledge. */
  ghost function Willing(names: seq<string>, acks: seq<bool>, i: nat): set<string>
    requires i <= |names| == |acks|
  {
    set j | i <= j < |names| && acks[j] :: names[j]
  }

  /** Asking in order and stopping early finds enough proofs exactly when enough distinct names would give one. */
  lemma {:induction false} EnoughExactly(names: seq<string>, acks: seq<bool>, proven: set<string>, required: nat, i: nat)
    requires i <= |names| == |acks|
    ensures |Asking(names, acks, proven, required, i).proven| >= required <==> |proven + Willing(names, acks, i)| >= required
    decreases |names| - i
  {
    if i == |names| {
      assert proven + Willing(names, acks, i) == proven;
    } else if |proven| >= required {
      Larger(proven, proven + Willing(names, acks, i));
    } else {
      WillingStep(names, acks, proven, i);
      EnoughExactly(names, acks, if names[i] !in proven && acks[i] then proven + {names[i]} else proven, required, i + 1);
    }
  }

  lemma WillingStep(names: seq<string>, acks: seq<bool>, proven: set<string>, i: nat)
    requires i < |names| == |acks|
    ensures var proven' := if names[i] !in proven && acks[i] then proven + {names[i]} else proven;
            proven + Willing(names, acks, i) == proven' + Willing(names, acks, i + 1)
  {
    var rest := Willing(names, acks, i + 1);
    assert Willing(names, acks, i) == if acks[i] then {names[i]} + rest else rest;
  }

  lemma Larger(a: set<string>, b: set<string>)
    requires a <= b
    ensures |a| <= |b|
  {
    assert b == a + (b - a);
  }

  /** The replica is up, and holds the transaction already or can write it. */
  predicate CanStore(rep: Replica, t: Transaction, written: bool) {
    rep.open && (t.index in rep.committed || written)
  }

  ghost function Helpers(names: seq<string>, views: seq<Replica>, t: Transaction, written: nat -> bool): set<string>
    requires |names| == |views|
  {
    set i | 0 <= i < |views| && CanStore(views[i], t, written(i)) :: names[i]
  }

  /** The transaction that is pending, or one that may be opened now. */
  ghost predicate Current(env: Env, s: State, t: Transaction) {
    if s.pending.Some? then s.pending.value == t else Genuine(env, s.image, t)
  }

  /** In every reachable state a replica acknowledges unless it is down or its write fails; no conflict stands in the way. */
  lemma AcknowledgesExactly(env: Env, s: State, t: Transaction, r: nat, written: bool)
    requires Inv(env, s) && Current(env, s, t) && r < |s.replicas|
    ensures ReplicaCommit(env.codec, s.replicas[r], t, written).Ok? <==> CanStore(s.replicas[r], t, written)
  {
    hide Inv, Genuine, EncodeAll, Pair, SyncsAt;
    if t.index in s.replicas[r].committed {
      ReplicaAgrees(env, s, r, t.index);
      CurrentIndex(env, s, t);
    }
  }

  lemma CurrentIndex(env: Env, s: State, t: Transaction)
    requires Inv(env, s) && Current(env, s, t)
    ensures t.index == |s.history| + 1
  {
    hide DiskOk, SyncOk, ReplicasOk, Chain, ImageOf, Acceptable;
    Journal.LastIndex(env, s.history);
  }

  lemma HelpersWilling(env: Env, s: State, names: seq<string>, t: Transaction, written: nat -> bool)
    requires Inv(env, s) && Current(env, s, t) && |names| == |s.replicas|
    ensures Willing(names, Acks(env.codec, s.replicas, t, written), 0) == Helpers(names, s.replicas, t, written)
  {
    hide Inv, Current, ReplicaCommit, CanStore;
    forall r | 0 <= r < |s.replicas|
      ensures Acks(env.codec, s.replicas, t, written)[r] <==> CanStore(s.replicas[r], t, written(r))
    {
      AcknowledgesExactly(env, s, t, r, written(r));
    }
  }

  // ----- Opening -----

  /** A draft is the one genuine transaction for the mutation; without one the call meets the record's error or the size limits. */
  lemma DraftExactly(env: Env, image: Image, m: Mutation, t: Transaction)
    requires FromCall(m)
    ensures Draft(env, image, m) == Ok(t) <==> Genuine(env, image, t) && t.mutation == m && |env.codec.mutationJson(m)| <= env.options.maxRecordBytes
    ensures Draft(env, image, m).Err? ==>
            Draft(env, image, m).error ==
            (match Apply(image.records, m, env.options.maxTasks) case Err(e) => e case Ok(_) => CapacityExceeded)
  {
    hide Apply, Fits, ChainId, FromCall;
  }

  // ----- The whole call -----

  /** What a prepared transaction still needs: enough distinct replicas that can store it, then its commit write. */
  lemma SettlesExactly(env: Env, s: State, names: seq<string>, t: Transaction, had: set<string>, count: nat, faults: Faults)
    requires Inv(env, s) && Current(env, s, t) && |names| == |s.replicas|
    ensures var enough := |had + Helpers(names, s.replicas, t, faults.replicaWritten)| >= RequiredAcks(s.image.records, t.mutation);
            var answer := Settle(env, s.image.records, s.replicas, names, t, had, count, faults);
            && (answer.Committed? <==> enough && faults.commitWritten)
            && (answer.Refused? ==> answer.error == if enough then Storage else DurabilityUnavailable)
            && (answer.Committed? && faults.lengthKnown ==> answer.report.None?)
  {
    hide Inv, Current, Asking, Willing, Helpers, Acks, RequiredAcks;
    HelpersWilling(env, s, names, t, faults.replicaWritten);
    EnoughExactly(names, Acks(env.codec, s.replicas, t, faults.replicaWritten), had, RequiredAcks(s.image.records, t.mutation), 0);
  }

  ghost predicate Distinct(names: seq<string>) {
    forall i, j :: 0 <= i < j < |names| ==> names[i] != names[j]
  }

  lemma {:induction false} AllHelp(names: seq<string>, n: nat)
    requires Distinct(names) && n <= |names|
    ensures |set i | 0 <= i < n :: names[i]| == n
  {
    if n > 0 {
      AllHelp(names, n - 1);
      var rest := set i | 0 <= i < n - 1 :: names[i];
      assert (set i | 0 <= i < n :: names[i]) == rest + {names[n - 1]};
      assert names[n - 1] !in rest;
    }
  }

  /** Every write lands and every replica is up. */
  ghost predicate Favourable(s: State, faults: Faults) {
    && faults.prepareWritten && faults.commitWritten && faults.lengthKnown
    && (forall i :: 0 <= i < |s.replicas| ==> s.replicas[i].open && faults.replicaWritten(i))
  }

  lemma HelpEnough(s: State, names: seq<string>, t: Transaction, had: set<string>, faults: Faults, required: nat)
    requires Favourable(s, faults) && Distinct(names) && |names| == |s.replicas| >= required
    ensures |had + Helpers(names, s.replicas, t, faults.replicaWritten)| >= required
  {
    AllHelp(names, |names|);
    var all := set i | 0 <= i < |names| :: names[i];
    forall i | 0 <= i < |names|
      ensures names[i] in Helpers(names, s.replicas, t, faults.replicaWritten)
    {
      assert CanStore(s.replicas[i], t, faults.replicaWritten(i));
    }
    Larger(all, had + Helpers(names, s.replicas, t, faults.replicaWritten));
  }

  /**
   When nothing fails, every call without an objection commits, provided its transaction fits the
   size limits and the counters and no other call's transaction is prepared; the report is an error
   only for a quarantined output.
   */
  lemma NothingFails(env: Env, s: State, names: seq<string>, held: set<string>, count: nat, call: Call, request: Request, t: Transaction, faults: Faults)
    requires Inv(env, s) && Favourable(s, faults) && Distinct(names) && |names| == |s.replicas|
    requires Objection(s.image.records, call, env.replicas, env.options.maxTasks) == None
    requires Plan(s.image.records, call, env.replicas) == Ok(request)
    requires t.mutation == request.mutation && Current(env, s, t)
    requires |env.codec.mutationJson(t.mutation)| <= env.options.maxRecordBytes
    requires RequiredAcks(s.image.records, t.mutation) <= |names|
    ensures var stale := call.CallStage? && call.task in s.image.records && Outdated(s.image.records[call.task], call);
            AnswerTo(env, s, names, held, count, call, faults) == Answer.Committed(if stale then Some(AttemptStale) else None)
  {
    hide Inv, Objection, Plan, Genuine, RequiredAcks, Draft, Settle, Favourable, Outdated, FromCall, Distinct;
    assert FromCall(request.mutation) by { Opening(env, s, call); }
    var had := if s.pending.Some? then held else {};
    if s.pending.None? {
      DraftExactly(env, s.image, t.mutation, t);
    }
    HelpEnough(s, names, t, had, faults, RequiredAcks(s.image.records, t.mutation));
    SettlesExactly(env, s, names, t, had, count, faults);
    Lands(s, faults);
  }

  lemma Lands(s: State, faults: Faults)
    requires Favourable(s, faults)
    ensures faults.prepareWritten && faults.commitWritten && faults.lengthKnown
  {
  }

  lemma Opening(env: Env, s: State, call: Call)
    requires Inv(env, s) && Plan(s.image.records, call, env.replicas).Ok?
    ensures FromCall(Plan(s.image.records, call, env.replicas).value.mutation)
  {
    hide Inv, Plan, WellFormed;
    Bounded(env, s);
    PlanShape(s.image.records, call, env.replicas);
  }
}
