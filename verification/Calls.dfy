/** What each public call of the registry does to the records, field by field, and when it is refused. */
module Calls {
  import opened Wire
  import opened Outcomes
  import opened Tasks

  function TaskOf(call: Call): TaskId {
    if call.CallSubmit? then call.spec.id else call.task
  }

  /** The attempt at work on a well-formed record: in the busy states, the last one. */
  function AtWork(r: Record): Option<Attempt> {
    if Busy(r.state) && r.attempts != [] then Some(r.attempts[|r.attempts| - 1]) else None
  }

  /** The reported output comes from another attempt or node than the one at work. */
  predicate Outdated(r: Record, call: Call)
    requires call.CallStage?
  {
    AtWork(r).Some? && (AtWork(r).value.number != call.attempt || AtWork(r).value.node != call.worker)
  }

  // ----- Refusals -----

  /** Why a new task is refused: its durability cannot be had, or its place is taken. */
  function SubmitObjection(records: Records, call: Call, replicas: nat, maxTasks: nat): Option<Error>
    requires call.CallSubmit?
  {
    var mode := call.spec.requested;
    if (mode.Durable? && replicas < 1) || (mode.Critical? && (mode.minimumReplicas < 2 || replicas + 1 < mode.minimumReplicas))
    then Some(DurabilityUnavailable)
    else if call.inputCopies.Err? then Some(call.inputCopies.error)
    else if !mode.Fast? && !call.inputsRecoverable then Some(DurabilityUnavailable)
    else if mode.Critical? && call.spec.inputs != [] && call.inputCopies.value < mode.minimumReplicas then Some(DurabilityUnavailable)
    else if call.spec.id in records then Some(Conflict)
    else if |records| >= maxTasks then Some(CapacityExceeded)
    else None
  }

  /** Why a call on a record is refused, by its state and the attempt at work. */
  function RecordObjection(r: Record, call: Call): Option<Error>
    requires !call.CallSubmit?
  {
    match call
    case CallAssign(_, number, _, _, _) =>
      if r.state in {TaskState.Committed, Failed, Cancelled, OutputStaged} || (r.attempts != [] && number <= r.attempts[|r.attempts| - 1].number)
      then Some(InvalidTransition) else None
    case CallRunning(_, number) =>
      if r.state == Assigned && AtWork(r).Some? && AtWork(r).value.number == number then None else Some(InvalidTransition)
    case CallStage(_, _, _, _, copies, ready) =>
      if AtWork(r).None? then Some(InvalidTransition)
      else if Outdated(r, call) then None
      else if r.state == OutputStaged then Some(InvalidTransition)
      else if copies.None? || !ready then Some(DurabilityUnavailable) else None
    case CallCommit(_, ready) =>
      if r.staged.None? then Some(InvalidTransition)
      else if r.state != OutputStaged || !ready then Some(DurabilityUnavailable) else None
    case CallFail(_, _, _) => if r.state in {TaskState.Committed, Failed, Cancelled} then Some(InvalidTransition) else None
    case CallCancel(_) => if r.state in {TaskState.Committed, Failed, Cancelled} then Some(InvalidTransition) else None
  }

  function Objection(records: Records, call: Call, replicas: nat, maxTasks: nat): Option<Error> {
    if call.CallSubmit? then SubmitObjection(records, call, replicas, maxTasks)
    else if call.CallAssign? && (call.attempt == 0 || call.generation == 0) then Some(InvalidConfig)
    else if call.task !in records then Some(TaskUnknown)
    else RecordObjection(records[call.task], call)
  }

  // ----- Effects, field by field -----

  function StateAfter(r: Record, call: Call): TaskState {
    match call
    case CallSubmit(_, _, _) => r.state
    case CallAssign(_, _, _, _, _) => Assigned
    case CallRunning(_, _) => Running
    case CallStage(_, _, _, _, _, _) => if Outdated(r, call) then r.state else OutputStaged
    case CallCommit(_, _) => TaskState.Committed
    case CallFail(_, _, recoveryRequired) => if recoveryRequired then RecoveryRequired else Failed
    case CallCancel(_) => Cancelled
  }

  /** Attempts are kept in order; a new one is appended, and none is active once a task has ended or moved. */
  predicate AttemptsAfter(before: seq<Attempt>, after: seq<Attempt>, call: Call) {
    if call.CallRunning? || call.CallStage? then after == before
    else
      && |after| == |before| + (if call.CallAssign? then 1 else 0)
      && (forall i :: 0 <= i < |before| ==> after[i] == before[i].(active := false))
      && (call.CallAssign? ==> after[|before|] == Attempt(call.attempt, call.node, call.handle, call.generation, true))
  }

  function StagedAfter(r: Record, call: Call): Option<Staged> {
    if call.CallStage? && call.copies.Some? && !Outdated(r, call)
    then Some(Staged(call.attempt, call.worker, call.content, call.copies.value)) else r.staged
  }

  function CommittedAfter(r: Record, call: Call): Option<ContentId> {
    if call.CallCommit? && r.staged.Some? then Some(r.staged.value.content) else r.committed
  }

  function ConflictsAfter(r: Record, call: Call): seq<ConflictRecord> {
    if call.CallStage? && Outdated(r, call) then r.conflicts + [ConflictRecord(call.attempt, call.worker, call.content)] else r.conflicts
  }

  function FailureAfter(r: Record, call: Call): Option<string> {
    if call.CallFail? then Some(call.reason) else r.failure
  }

  predicate RecordAfter(r: Record, r': Record, call: Call) {
    && r'.spec == r.spec && r'.acceptance == r.acceptance && r'.metadataCopies == r.metadataCopies
    && r'.state == StateAfter(r, call) && AttemptsAfter(r.attempts, r'.attempts, call)
    && r'.staged == StagedAfter(r, call) && r'.committed == CommittedAfter(r, call)
    && r'.conflicts == ConflictsAfter(r, call) && r'.failure == FailureAfter(r, call)
  }

  /** A new task starts without attempts, outputs, conflicts or failure. */
  predicate RecordOfNew(r: Record, call: Call)
    requires call.CallSubmit?
  {
    && r.spec == call.spec && r.acceptance == call.spec.requested && r.metadataCopies == MinimumCopies(call.spec.requested)
    && r.state == (if call.spec.requested.Fast? then TaskState.Submitted else Persisted)
    && r.attempts == [] && r.staged == None && r.committed == None && r.conflicts == [] && r.failure == None
  }

  /** What a call that commits does: its own record changes as above and every other stays. */
  predicate Effects(before: Records, after: Records, call: Call) {
    && after.Keys == before.Keys + {TaskOf(call)}
    && (forall id <- before :: id != TaskOf(call) ==> after[id] == before[id])
    && (if call.CallSubmit? then RecordOfNew(after[TaskOf(call)], call)
        else TaskOf(call) in before && RecordAfter(before[TaskOf(call)], after[TaskOf(call)], call))
  }

  // ----- The calls meet them -----

  /** The recursion that finds the active attempt finds the attempt at work. */
  lemma ActiveIsAtWork(r: Record)
    requires WellFormed(r)
    ensures ActiveAttempt(r.attempts) == AtWork(r)
  {
    hide Ascending, StagedByNewest;
    if r.attempts != [] && !Busy(r.state) {
      NoneActive(r.attempts);
    }
  }

  /** A number beats every attempt exactly when it beats the last. */
  lemma LastIsHighest(r: Record, number: u32)
    requires WellFormed(r)
    ensures (exists i :: 0 <= i < |r.attempts| && r.attempts[i].number >= number) <==>
            r.attempts != [] && number <= r.attempts[|r.attempts| - 1].number
  {
    if r.attempts != [] {
      var n := |r.attempts| - 1;
      assert forall i :: 0 <= i < n ==> r.attempts[i].number < r.attempts[n].number;
    }
  }

  lemma SubmitExactly(records: Records, call: Call, replicas: nat, maxTasks: nat)
    requires call.CallSubmit?
    ensures var plan, o := Plan(records, call, replicas), Objection(records, call, replicas, maxTasks);
            && (plan.Err? ==> o == Some(plan.error))
            && (plan.Ok? ==> var applied := Apply(records, plan.value.mutation, maxTasks);
                             && plan.value.mutation.Target() == TaskOf(call) && !plan.value.mutation.ConflictOutput?
                             && (if applied.Err? then o == Some(applied.error)
                                 else o == None && Effects(records, records[TaskOf(call) := applied.value], call)))
  {
  }

  lemma ExistingExactly(r: Record, records: Records, call: Call, replicas: nat, maxTasks: nat)
    requires !call.CallSubmit? && call.task in records && records[call.task] == r && WellFormed(r)
    ensures var plan, o := Plan(records, call, replicas), Objection(records, call, replicas, maxTasks);
            && (plan.Err? ==> o == Some(plan.error))
            && (plan.Ok? ==> var applied := ApplyExisting(r, plan.value.mutation);
                             && !plan.value.mutation.Submit? && plan.value.mutation.Target() == call.task
                             && (plan.value.mutation.ConflictOutput? <==> call.CallStage? && Outdated(r, call))
                             && (if applied.Err? then o == Some(applied.error) else o == None && RecordAfter(r, applied.value, call)))
  {
    hide WellFormed, ActiveAttempt, Ascending;
    ActiveIsAtWork(r);
    if call.CallAssign? {
      LastIsHighest(r, call.attempt);
    }
    BusyHasAttempt(r);
  }

  lemma BusyHasAttempt(r: Record)
    requires WellFormed(r)
    ensures Busy(r.state) ==> r.attempts != []
  {
  }

  /**
   Every call is refused exactly as `Objection` says, with that error, and has otherwise exactly
   the effects above; an output is quarantined exactly when it is stale.
   */
  lemma CallExactly(records: Records, call: Call, replicas: nat, maxTasks: nat)
    requires AllWellFormed(records)
    ensures var plan, o := Plan(records, call, replicas), Objection(records, call, replicas, maxTasks);
            && (plan.Err? ==> o == Some(plan.error))
            && (plan.Ok? ==> var applied := Apply(records, plan.value.mutation, maxTasks);
                             && plan.value.mutation.Target() == TaskOf(call)
                             && (plan.value.mutation.ConflictOutput? <==>
                                 call.CallStage? && call.task in records && Outdated(records[call.task], call))
                             && (if applied.Err? then o == Some(applied.error)
                                 else o == None && Effects(records, records[TaskOf(call) := applied.value], call)))
  {
    hide WellFormed, RecordAfter, ApplyExisting, RecordObjection, SubmitObjection, PlanStage, PlanSubmit;
    if call.CallSubmit? {
      SubmitExactly(records, call, replicas, maxTasks);
    } else if call.task in records {
      ExistingExactly(records[call.task], records, call, replicas, maxTasks);
      var plan := Plan(records, call, replicas);
      if plan.Ok? && ApplyExisting(records[call.task], plan.value.mutation).Ok? {
        var after := records[call.task := ApplyExisting(records[call.task], plan.value.mutation).value];
        assert after.Keys == records.Keys + {call.task};
      }
    }
  }
}
