/** Durable task records, the mutations of the registry, and the calls that produce them. */
module Tasks {
  import opened Wire
  import opened Outcomes

  type TaskId = string
  type NodeId = string

  datatype Acceptance = Fast | Durable | Critical(minimumReplicas: byte)

  function MinimumCopies(a: Acceptance): nat {
    match a
    case Fast => 1
    case Durable => 2
    case Critical(n) => n
  }

  datatype TaskState =
    | Submitted | Persisted | Assigned | Running | OutputStaged
    | Committed | Failed | Cancelled | RecoveryRequired

  predicate Terminal(s: TaskState) {
    s.Committed? || s.Failed? || s.Cancelled?
  }

  /** The states in which some node is expected to be at work. */
  predicate Busy(s: TaskState) {
    s.Assigned? || s.Running? || s.OutputStaged?
  }

  datatype ContentId = ContentId(algorithm: string, digest: string, size: nat, format: string)

  /** `body` stands for the portable task and its requirements, which the registry never reads. */
  datatype TaskSpec = TaskSpec(id: TaskId, body: Bytes, inputs: seq<ContentId>, requested: Acceptance)

  datatype Attempt = Attempt(number: u32, node: NodeId, handle: Option<Bytes>, generation: u64, active: bool)

  datatype Staged = Staged(attempt: u32, worker: NodeId, content: ContentId, verifiedCopies: nat)

  datatype ConflictRecord = ConflictRecord(attempt: u32, worker: NodeId, content: ContentId)

  datatype Record = Record(
    spec: TaskSpec,
    state: TaskState,
    acceptance: Acceptance,
    metadataCopies: nat,
    attempts: seq<Attempt>,
    staged: Option<Staged>,
    committed: Option<ContentId>,
    conflicts: seq<ConflictRecord>,
    failure: Option<string>)

  type Records = map<TaskId, Record>

  datatype Mutation =
    | Submit(record: Record)
    | Assign(task: TaskId, attempt: Attempt)
    | MarkRunning(task: TaskId, number: u32)
    | StageOutput(task: TaskId, output: Staged)
    | ConflictOutput(task: TaskId, conflict: ConflictRecord)
    | CommitOutput(task: TaskId, content: ContentId)
    | SetFailure(task: TaskId, state: TaskState, reason: string)
    | Cancel(task: TaskId)
  {
    function Target(): TaskId {
      if Submit? then record.spec.id else task
    }
  }

  /** The last attempt that is still active (`active_attempt`). */
  function ActiveAttempt(attempts: seq<Attempt>): Option<Attempt> {
    if attempts == [] then None
    else if attempts[|attempts| - 1].active then Some(attempts[|attempts| - 1])
    else ActiveAttempt(attempts[..|attempts| - 1])
  }

  function Deactivated(attempts: seq<Attempt>): (r: seq<Attempt>)
    ensures |r| == |attempts|
    ensures forall i | 0 <= i < |r| :: r[i] == attempts[i].(active := false)
  {
    seq(|attempts|, i requires 0 <= i < |attempts| => attempts[i].(active := false))
  }

  // ----- Transitions -----

  function InitialState(a: Acceptance): TaskState {
    if a.Fast? then TaskState.Submitted else Persisted
  }

  /** `prepare_mutation`: the record that a mutation would produce. */
  function Apply(records: Records, m: Mutation, maxTasks: nat): Result<Record> {
    if m.Submit? then
      var id := m.record.spec.id;
      if id in records then Err(Conflict)
      else if |records| >= maxTasks then Err(CapacityExceeded)
      else if m.record.state != InitialState(m.record.acceptance) || m.record.attempts != []
              || m.record.staged.Some? || m.record.committed.Some?
      then Err(InvalidTransition)
      else Ok(m.record)
    else if m.task !in records then Err(TaskUnknown)
    else ApplyExisting(records[m.task], m)
  }

  /** `prepare_existing_mutation`. */
  function ApplyExisting(r: Record, m: Mutation): Result<Record>
    requires !m.Submit?
  {
    match m
    case Assign(_, a) =>
      if Terminal(r.state) || r.state.OutputStaged? || a.number == 0 || a.generation == 0
         || exists i :: 0 <= i < |r.attempts| && r.attempts[i].number >= a.number
      then Err(InvalidTransition)
      else Ok(r.(attempts := Deactivated(r.attempts) + [a], state := Assigned))
    case MarkRunning(_, number) =>
      var active := ActiveAttempt(r.attempts);
      if !r.state.Assigned? || active.None? || active.value.number != number then Err(InvalidTransition)
      else Ok(r.(state := Running))
    case StageOutput(_, output) =>
      var active := ActiveAttempt(r.attempts);
      if active.None? || !(r.state.Assigned? || r.state.Running?)
         || active.value.number != output.attempt || active.value.node != output.worker
      then Err(InvalidTransition)
      else Ok(r.(staged := Some(output), state := OutputStaged))
    case ConflictOutput(_, conflict) =>
      Ok(r.(conflicts := r.conflicts + [conflict]))
    case CommitOutput(_, content) =>
      if !r.state.OutputStaged? || r.staged.None? || r.staged.value.content != content
      then Err(InvalidTransition)
      else Ok(r.(committed := Some(content), state := Committed, attempts := Deactivated(r.attempts)))
    case SetFailure(_, state, reason) =>
      if Terminal(r.state) || !(state.Failed? || state.RecoveryRequired?) then Err(InvalidTransition)
      else Ok(r.(state := state, failure := Some(reason), attempts := Deactivated(r.attempts)))
    case Cancel(_) =>
      if Terminal(r.state) then Err(InvalidTransition)
      else Ok(r.(state := Cancelled, attempts := Deactivated(r.attempts)))
  }

  // ----- What every reachable record satisfies -----

  predicate Ascending(attempts: seq<Attempt>) {
    forall i, j :: 0 <= i < j < |attempts| ==> attempts[i].number < attempts[j].number
  }

  /** The newest attempt produced the staged output that the record relies on. */
  predicate StagedByNewest(r: Record) {
    && r.attempts != [] && r.staged.Some?
    && r.staged.value.attempt == r.attempts[|r.attempts| - 1].number
    && r.staged.value.worker == r.attempts[|r.attempts| - 1].node
  }

  predicate WellFormed(r: Record) {
    && Ascending(r.attempts)
    && (forall i :: 0 <= i < |r.attempts| ==>
          (r.attempts[i].active <==> i == |r.attempts| - 1 && Busy(r.state)))
    && (Busy(r.state) ==> r.attempts != [])
    && (r.state.OutputStaged? ==> StagedByNewest(r))
    && (r.committed.Some? <==> r.state.Committed?)
    && (r.committed.Some? ==> StagedByNewest(r) && r.staged.value.content == r.committed.value)
    && (r.acceptance.Critical? ==> r.acceptance.minimumReplicas >= 2)
  }

  /** What no mutation may undo: final states, committed outputs and the order of attempts. */
  predicate Evolves(before: Record, after: Record) {
    && after.spec == before.spec && after.acceptance == before.acceptance
    && (Terminal(before.state) ==> after.state == before.state)
    && (before.committed.Some? ==> after.committed == before.committed && after.staged == before.staged)
    && |before.attempts| <= |after.attempts|
    && (forall i :: 0 <= i < |before.attempts| ==>
          after.attempts[i].number == before.attempts[i].number && after.attempts[i].node == before.attempts[i].node)
  }

  /** The mutations that the registry's own calls build. */
  predicate FromCall(m: Mutation) {
    && (m.Assign? ==> m.attempt.active)
    && (m.Submit? ==> && m.record.acceptance == m.record.spec.requested
                      && (m.record.acceptance.Critical? ==> m.record.acceptance.minimumReplicas >= 2))
  }

  lemma {:induction false} ActiveIsNewest(r: Record)
    requires WellFormed(r)
    ensures ActiveAttempt(r.attempts)
         == if Busy(r.state) then Some(r.attempts[|r.attempts| - 1]) else None
  {
    if r.attempts != [] && !Busy(r.state) {
      NoneActive(r.attempts);
    }
  }

  lemma {:induction false} NoneActive(attempts: seq<Attempt>)
    requires forall i :: 0 <= i < |attempts| ==> !attempts[i].active
    ensures ActiveAttempt(attempts) == None
  {
    if attempts != [] {
      NoneActive(attempts[..|attempts| - 1]);
    }
  }

  lemma ApplyExistingKeeps(r: Record, m: Mutation)
    requires WellFormed(r) && FromCall(m) && !m.Submit? && ApplyExisting(r, m).Ok?
    ensures var r' := ApplyExisting(r, m).value; WellFormed(r') && Evolves(r, r')
  {
    hide WellFormed, ApplyExisting, Evolves;
    match m
    case Assign(_, _) => AssignKeeps(r, m);
    case MarkRunning(_, _) => WorkKeeps(r, m);
    case StageOutput(_, _) => WorkKeeps(r, m);
    case ConflictOutput(_, _) => EndKeeps(r, m);
    case CommitOutput(_, _) => EndKeeps(r, m);
    case SetFailure(_, _, _) => EndKeeps(r, m);
    case Cancel(_) => EndKeeps(r, m);
  }

  /** Progress of the active attempt. */
  lemma WorkKeeps(r: Record, m: Mutation)
    requires WellFormed(r) && (m.MarkRunning? || m.StageOutput?) && ApplyExisting(r, m).Ok?
    ensures var r' := ApplyExisting(r, m).value; WellFormed(r') && Evolves(r, r')
  {
    hide ActiveAttempt;
    ActiveIsNewest(r);
  }

  /** The end of a task, and outputs that came too late. */
  lemma EndKeeps(r: Record, m: Mutation)
    requires WellFormed(r) && (m.ConflictOutput? || m.CommitOutput? || m.SetFailure? || m.Cancel?) && ApplyExisting(r, m).Ok?
    ensures var r' := ApplyExisting(r, m).value; WellFormed(r') && Evolves(r, r')
  {
    hide ActiveAttempt;
  }

  lemma AssignKeeps(r: Record, m: Mutation)
    requires WellFormed(r) && m.Assign? && m.attempt.active && ApplyExisting(r, m).Ok?
    ensures var r' := ApplyExisting(r, m).value; WellFormed(r') && Evolves(r, r')
  {
    var r' := ApplyExisting(r, m).value;
    var old', new' := r.attempts, r'.attempts;
    assert forall i :: 0 <= i < |old'| ==> old'[i].number < m.attempt.number;
    assert forall i :: 0 <= i < |old'| ==> new'[i] == old'[i].(active := false);
    assert new'[|old'|] == m.attempt;
    assert r.committed.None?;
  }

  predicate AllWellFormed(records: Records) {
    forall id :: id in records ==> WellFormed(records[id]) && records[id].spec.id == id
  }

  /** Every record stays well formed, the others are untouched, and the target only evolves. */
  lemma ApplyKeeps(records: Records, m: Mutation, maxTasks: nat)
    requires AllWellFormed(records) && FromCall(m) && Apply(records, m, maxTasks).Ok?
    ensures var r := Apply(records, m, maxTasks).value;
            && AllWellFormed(records[m.Target() := r])
            && (m.Target() in records ==> Evolves(records[m.Target()], r))
            && (|records| <= maxTasks ==> |records[m.Target() := r]| <= maxTasks)
  {
    hide ApplyExisting, WellFormed;
    if m.Submit? {
      SubmittedWellFormed(records, m, maxTasks);
      var grown := records[m.Target() := m.record];
      assert grown.Keys == records.Keys + {m.Target()};
    } else {
      ApplyExistingKeeps(records[m.task], m);
      var r := Apply(records, m, maxTasks).value;
      assert records[m.task := r].Keys == records.Keys;
    }
  }

  lemma SubmittedWellFormed(records: Records, m: Mutation, maxTasks: nat)
    requires m.Submit? && FromCall(m) && Apply(records, m, maxTasks).Ok?
    ensures WellFormed(m.record)
  {
  }

  // ----- The calls of the registry -----

  /** A public call; what it asks the resource catalog is part of the call. */
  datatype Call =
    | CallSubmit(spec: TaskSpec, inputCopies: Result<nat>, inputsRecoverable: bool)
    | CallAssign(task: TaskId, attempt: u32, node: NodeId, handle: Option<Bytes>, generation: u64)
    | CallRunning(task: TaskId, attempt: u32)
    | CallStage(task: TaskId, attempt: u32, worker: NodeId, content: ContentId, copies: Option<nat>, ready: bool)
    | CallCommit(task: TaskId, ready: bool)
    | CallFail(task: TaskId, reason: string, recoveryRequired: bool)
    | CallCancel(task: TaskId)

  /** What a call hands to `transact_locked`. */
  datatype Request = Request(mutation: Mutation, copies: nat, sync: bool)

  function RequestFor(a: Acceptance, m: Mutation): Request {
    Request(m, MinimumCopies(a), !a.Fast?)
  }

  /** The checks that each call makes before it opens a transaction. */
  function Plan(records: Records, call: Call, replicas: nat): Result<Request> {
    match call
    case CallSubmit(spec, inputCopies, recoverable) => PlanSubmit(spec, inputCopies, recoverable, replicas)
    case CallAssign(task, number, node, handle, generation) =>
      if number == 0 || generation == 0 then Err(InvalidConfig)
      else if task !in records then Err(TaskUnknown)
      else Ok(RequestFor(records[task].acceptance, Assign(task, Attempt(number, node, handle, generation, true))))
    case CallRunning(task, number) =>
      if task !in records then Err(TaskUnknown)
      else Ok(RequestFor(records[task].acceptance, MarkRunning(task, number)))
    case CallStage(task, number, worker, content, copies, ready) =>
      if task !in records then Err(TaskUnknown)
      else PlanStage(records[task], call)
    case CallCommit(task, ready) =>
      if task !in records then Err(TaskUnknown)
      else
        var r := records[task];
        if r.staged.None? then Err(InvalidTransition)
        else if !r.state.OutputStaged? || !ready then Err(DurabilityUnavailable)
        else Ok(RequestFor(r.acceptance, CommitOutput(task, r.staged.value.content)))
    case CallFail(task, reason, recoveryRequired) =>
      if task !in records then Err(TaskUnknown)
      else Ok(RequestFor(records[task].acceptance,
                         SetFailure(task, if recoveryRequired then RecoveryRequired else Failed, reason)))
    case CallCancel(task) =>
      if task !in records then Err(TaskUnknown)
      else Ok(RequestFor(records[task].acceptance, Cancel(task)))
  }

  function PlanSubmit(spec: TaskSpec, inputCopies: Result<nat>, recoverable: bool, replicas: nat): Result<Request> {
    var a := spec.requested;
    var copies := MinimumCopies(a);
    if copies == 0 || (a.Critical? && a.minimumReplicas <= 1) || copies > replicas + 1 then
      Err(DurabilityUnavailable)
    else if inputCopies.Err? then Err(inputCopies.error)
    else if !a.Fast? && !recoverable then Err(DurabilityUnavailable)
    else if a.Critical? && spec.inputs != [] && inputCopies.value < a.minimumReplicas then
      Err(DurabilityUnavailable)
    else
      Ok(RequestFor(a, Submit(Record(spec, InitialState(a), a, copies, [], None, None, [], None))))
  }

  /** An output of a node whose attempt was superseded is recorded as a conflict. */
  function PlanStage(r: Record, call: Call): Result<Request>
    requires call.CallStage?
  {
    var active := ActiveAttempt(r.attempts);
    if active.None? then Err(InvalidTransition)
    else if active.value.number != call.attempt || active.value.node != call.worker then
      Ok(RequestFor(r.acceptance, ConflictOutput(call.task, ConflictRecord(call.attempt, call.worker, call.content))))
    else if !(r.state.Assigned? || r.state.Running?) then Err(InvalidTransition)
    else if call.copies.None? || !call.ready then Err(DurabilityUnavailable)
    else Ok(RequestFor(r.acceptance, StageOutput(call.task, Staged(call.attempt, call.worker, call.content, call.copies.value))))
  }

  /** The acceptance mode that governs a mutation: the new task's own, or the recorded one. */
  function AcceptanceOf(records: Records, m: Mutation): Acceptance {
    if m.Submit? then m.record.acceptance
    else if m.task in records then records[m.task].acceptance
    else Fast
  }

  predicate NeedsSync(records: Records, m: Mutation) {
    !AcceptanceOf(records, m).Fast?
  }

  function RequiredAcks(records: Records, m: Mutation): nat {
    var copies := MinimumCopies(AcceptanceOf(records, m));
    if copies == 0 then 0 else copies - 1
  }

  /**
   Whatever call opened it, a transaction asks for replicas exactly when it also syncs, and both
   follow from the mutation and the record alone: a retry asks for the same.
   */
  lemma PlanShape(records: Records, call: Call, replicas: nat)
    requires AllWellFormed(records) && Plan(records, call, replicas).Ok?
    ensures var q := Plan(records, call, replicas).value;
            && FromCall(q.mutation)
            && q.sync == NeedsSync(records, q.mutation)
            && q.copies == RequiredAcks(records, q.mutation) + 1
            && (q.sync <==> q.copies >= 2)
  {
  }
}
