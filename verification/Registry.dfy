/** The registry and its replicas as objects whose methods are runs of the step system. */
module Registry {
  import opened Wire
  import opened Outcomes
  import opened Tasks
  import opened Calls
  import opened Frames
  import opened Journal
  import opened Replicas
  import opened Runs
  import opened RunsSafety
  import opened RegistryTheorems

  datatype Proof = Proof(replica: string, transaction: Bytes, index: u64)

  class FileMetadataReplica {
    const codec: Codec
    const id: string
    var wal: Bytes
    var committed: map<u64, Bytes>
    ghost var acked: History

    ghost function View(): Replica
      reads this
    {
      Replica(true, wal, committed, acked)
    }

    /** A replica over a log that its scan has accepted. */
    constructor (codec: Codec, id: string, wal: Bytes, committed: map<u64, Bytes>, ghost acked: History)
      ensures this.codec == codec && this.id == id && View() == Replica(true, wal, committed, acked)
    {
      this.codec, this.id, this.wal, this.committed, this.acked := codec, id, wal, committed, acked;
    }

    /** Stores a transaction once; a second store of the same one is acknowledged without a write. */
    method Commit(t: Transaction, written: bool) returns (ack: Result<Proof>)
      modifies this
      ensures var after := ReplicaCommit(codec, old(View()), t, written);
              && View() == (if after.Ok? then after.value else old(View()))
              && ack == (if after.Ok? then Ok(Proof(id, t.id, t.index)) else Err(after.error))
    {
      if t.index in committed {
        if committed[t.index] == t.id {
          return Ok(Proof(id, t.id, t.index));
        }
        return Err(Conflict);
      }
      if !written {
        return Err(Storage);
      }
      wal := wal + EncodeAll(codec.sha, Pair(codec, t));
      committed := committed[t.index := t.id];
      acked := acked + [t];
      return Ok(Proof(id, t.id, t.index));
    }
  }

  /** `FileMetadataReplica::open` on the bytes that a crash left. */
  method OpenReplica(codec: Codec, id: string, ghost before: Replica, ghost pending: Option<Transaction>, ghost landed: nat, file: Bytes)
    returns (r: Result<FileMetadataReplica>)
    requires var writes := pending.Some? && pending.value.index !in before.committed;
             var extra := if writes then EncodeAll(codec.sha, Pair(codec, pending.value)) else [];
             file == before.wal + (if landed <= |extra| then extra[..landed] else extra)
    ensures r.Ok? ==> fresh(r.value) && r.value.View() == ReopenReplica(codec, before, pending, landed)
    ensures r.Err? ==> ReopenReplica(codec, before, pending, landed) == before.(open := false)
  {
    var scan := RunScan(codec, file);
    match scan
    case Err(e) => r := Err(e);
    case Ok((ids, kept)) =>
      ghost var after := ReopenReplica(codec, before, pending, landed);
      var replica := new FileMetadataReplica(codec, id, file[..kept], ids, after.acked);
      r := Ok(replica);
  }

  /** A prepared transaction with the acknowledgements collected so far. */
  datatype Pending = Pending(transaction: Transaction, resulting: Record, proofs: map<string, Proof>)

  datatype Receipt = Receipt(transaction: Bytes, index: u64, proofs: map<string, Proof>)

  datatype Truncation = Truncated | TruncatedUnreported | NotTruncated

  /** What the environment does to one call. */
  datatype Faults = Faults(
    prepareWritten: bool,
    replicaWritten: nat -> bool,
    commitWritten: bool,
    lengthKnown: bool,
    snapshotWritten: bool,
    truncation: Truncation)

  lemma {:induction false} RunAppend(env: Env, s: State, a: seq<Event>, b: seq<Event>)
    ensures Run(env, s, a + b) == Run(env, Run(env, s, a), b)
    decreases |b|
  {
    hide Step;
    if b == [] {
      assert a + b == a;
    } else {
      var n := |b| - 1;
      assert (a + b)[..|a + b| - 1] == a + b[..n];
      RunAppend(env, s, a, b[..n]);
    }
  }

  lemma RunOne(env: Env, s: State, a: seq<Event>, e: Event)
    ensures Run(env, s, a + [e]) == Step(env, Run(env, s, a), e)
  {
    hide Step;
    assert (a + [e])[..|a|] == a;
  }

  /** A step extends a run and keeps the invariant. */
  lemma Advance(env: Env, before: State, trace: seq<Event>, s: State, e: Event)
    requires env.codec.Faithful() && s == Run(env, before, trace) && Inv(env, s)
    ensures Run(env, before, trace + [e]) == Step(env, s, e) && Inv(env, Step(env, s, e))
  {
    hide Inv, Step;
    RunOne(env, before, trace, e);
    StepKeeps(env, s, e);
  }

  lemma Live(env: Env, s: State)
    requires Inv(env, s)
    ensures s.base <= |s.history|
  {
    hide HistoryOk, SyncOk, ReplicasOk, EncodeAll, WalFrames, SnapshotFile, Stale, Readable;
  }

  lemma StepPrepare(env: Env, s: State, call: Call)
    requires Inv(env, s) && !s.refused && s.pending.None? && DraftCall(env, s.image, call).Ok?
    ensures Step(env, s, PrepareStep(call, true)) == AfterPrepare(env, s, DraftCall(env, s.image, call).value)
  {
    hide Inv, AfterPrepare, DraftCall;
    Live(env, s);
  }

  lemma DraftShape(env: Env, image: Image, m: Mutation)
    requires Draft(env, image, m).Ok?
    ensures Draft(env, image, m).value.mutation == m
  {
    hide Apply, ChainId, Fits;
  }

  lemma StepCommit(env: Env, s: State)
    requires Inv(env, s) && !s.refused && s.pending.Some?
    ensures Step(env, s, CommitStep(true)) == AfterCommit(env, s, s.pending.value)
  {
    hide Inv, AfterCommit;
    Live(env, s);
  }

  lemma PublishShape(env: Env, image: Image, t: Transaction, r: Record)
    requires Apply(image.records, t.mutation, env.options.maxTasks) == Ok(r)
    ensures Publish(env, image, t) == Image(image.records[t.task := r], image.versions[t.task := t.newVersion], t.index, t.id)
  {
    hide Apply;
  }

  lemma StepReplicate(env: Env, s: State, i: nat, written: bool)
    requires Inv(env, s) && !s.refused && i < |s.replicas| && s.pending.Some? && NeedsSync(s.image.records, s.pending.value.mutation)
    ensures var after := ReplicaCommit(env.codec, s.replicas[i], s.pending.value, written);
            Step(env, s, ReplicateStep(i, written)) == if after.Ok? then s.(replicas := s.replicas[i := after.value]) else s
  {
    hide Inv, ReplicaCommit;
    Live(env, s);
  }

  lemma StepCompact(env: Env, s: State)
    requires Inv(env, s) && !s.refused && s.pending.None? && SnapshotFile(env, s.image).Some?
    ensures var saved := s.(snapshot := SnapshotFile(env, s.image), base := |s.history|, stale := WalFrames(env.codec, s));
            && Step(env, s, SnapshotStep) == saved
            && Step(env, saved, TruncateStep) == saved.(wal := [], synced := 0, stale := [], settled := 0)
  {
    hide Inv, SnapshotFile, WalFrames;
    Live(env, s);
  }

  ghost function Views(rs: seq<FileMetadataReplica>): (views: seq<Replica>)
    reads rs
    ensures |views| == |rs| && forall i | 0 <= i < |rs| :: views[i] == rs[i].View()
  {
    if rs == [] then [] else [rs[0].View()] + Views(rs[1..])
  }

  /** Every proof names a replica that holds the transaction. */
  ghost predicate Backed(rs: seq<FileMetadataReplica>, views: seq<Replica>, proofs: map<string, Proof>, t: Transaction)
    requires |views| == |rs|
  {
    forall name <- proofs ::
      && proofs[name] == Proof(name, t.id, t.index)
      && exists i :: 0 <= i < |rs| && rs[i].id == name && Holds(views[i], t)
  }

  predicate Holds(rep: Replica, t: Transaction) {
    t.index in rep.committed && rep.committed[t.index] == t.id
  }

  /** A replica that stores the transaction keeps every proof backed and backs one more. */
  lemma StillBacked(rs: seq<FileMetadataReplica>, views: seq<Replica>, proofs: map<string, Proof>, i: nat, t: Transaction,
                    codec: Codec, written: bool)
    requires |views| == |rs| && i < |rs| && Backed(rs, views, proofs, t)
    requires ReplicaCommit(codec, views[i], t, written).Ok?
    ensures var after := views[i := ReplicaCommit(codec, views[i], t, written).value];
            && Backed(rs, after, proofs, t)
            && Backed(rs, after, proofs[rs[i].id := Proof(rs[i].id, t.id, t.index)], t)
  {
    hide EncodeAll, Pair;
    var after := views[i := ReplicaCommit(codec, views[i], t, written).value];
    assert Holds(after[i], t);
    forall name | name in proofs
      ensures exists j :: 0 <= j < |rs| && rs[j].id == name && Holds(after[j], t)
    {
      var j :| 0 <= j < |rs| && rs[j].id == name && Holds(views[j], t);
      assert Holds(after[j], t);
    }
  }

  /** Who was asked, in order, and the names with a proof in the end. */
  datatype Round = Round(order: seq<nat>, proven: set<string>)

  /**
   The round from the `i`-th replica on, when `acks` says who would acknowledge: those without a
   proof are asked in order until the required number of proofs is there.
   */
  ghost function Asking(names: seq<string>, acks: seq<bool>, proven: set<string>, required: nat, i: nat): Round
    requires i <= |names| == |acks|
    decreases |names| - i
  {
    if i == |names| || |proven| >= required then Round([], proven)
    else if names[i] in proven then Asking(names, acks, proven, required, i + 1)
    else
      var rest := Asking(names, acks, if acks[i] then proven + {names[i]} else proven, required, i + 1);
      rest.(order := [i] + rest.order)
  }

  /** A round that has asked `order` so far and continues from the `i`-th replica. */
  ghost predicate Continues(names: seq<string>, acks: seq<bool>, required: nat, order: seq<nat>, proven: set<string>, i: nat, total: Round)
    requires i <= |names| == |acks|
  {
    var rest := Asking(names, acks, proven, required, i);
    total == rest.(order := order + rest.order)
  }

  lemma ContinuesAsk(names: seq<string>, acks: seq<bool>, required: nat, order: seq<nat>, proven: set<string>, i: nat, total: Round)
    requires i < |names| == |acks| && |proven| < required && names[i] !in proven && Continues(names, acks, required, order, proven, i, total)
    ensures Continues(names, acks, required, order + [i], proven + (if acks[i] then {names[i]} else {}), i + 1, total)
  {
    var proven' := if acks[i] then proven + {names[i]} else proven;
    assert proven' == proven + (if acks[i] then {names[i]} else {});
    var rest := Asking(names, acks, proven', required, i + 1);
    assert order + ([i] + rest.order) == (order + [i]) + rest.order;
  }

  lemma ContinuesSkip(names: seq<string>, acks: seq<bool>, required: nat, order: seq<nat>, proven: set<string>, i: nat, total: Round)
    requires i < |names| == |acks| && |proven| < required && names[i] in proven && Continues(names, acks, required, order, proven, i, total)
    ensures Continues(names, acks, required, order, proven, i + 1, total)
  {
  }

  lemma ContinuesEnds(names: seq<string>, acks: seq<bool>, required: nat, order: seq<nat>, proven: set<string>, i: nat, total: Round)
    requires i <= |names| == |acks| && (i == |names| || |proven| >= required) && Continues(names, acks, required, order, proven, i, total)
    ensures total == Round(order, proven)
  {
    assert order + [] == order;
  }

  lemma ContinuesStart(names: seq<string>, acks: seq<bool>, required: nat, proven: set<string>)
    requires |names| == |acks|
    ensures Continues(names, acks, required, [], proven, 0, Asking(names, acks, proven, required, 0))
  {
    var all := Asking(names, acks, proven, required, 0);
    assert [] + all.order == all.order;
  }

  ghost function Asks(written: nat -> bool, order: seq<nat>): seq<Event> {
    seq(|order|, i requires 0 <= i < |order| => ReplicateStep(order[i], written(order[i])))
  }

  lemma AsksNone(written: nat -> bool)
    ensures Asks(written, []) == []
  {
  }

  lemma AsksSnoc(written: nat -> bool, order: seq<nat>, i: nat)
    ensures Asks(written, order + [i]) == Asks(written, order) + [ReplicateStep(i, written(i))]
  {
  }

  function Names(rs: seq<FileMetadataReplica>): (names: seq<string>)
    ensures |names| == |rs| && forall i :: 0 <= i < |rs| ==> names[i] == rs[i].id
  {
    seq(|rs|, i requires 0 <= i < |rs| => rs[i].id)
  }

  /** Which replicas would acknowledge a transaction. */
  ghost function Acks(codec: Codec, views: seq<Replica>, t: Transaction, written: nat -> bool): (acks: seq<bool>)
    ensures |acks| == |views| && forall i :: 0 <= i < |views| ==> acks[i] == ReplicaCommit(codec, views[i], t, written(i)).Ok?
  {
    seq(|views|, i requires 0 <= i < |views| => ReplicaCommit(codec, views[i], t, written(i)).Ok?)
  }

  /** The call changed no record, version or index, and kept what was pending. */
  ghost predicate Untouched(before: State, after: State) {
    && after.history == before.history && after.image == before.image
    && (before.pending.Some? ==> after.pending == before.pending)
  }

  /** The call committed `m`, as the transaction that was already pending if there was one. */
  ghost predicate Commits(env: Env, before: State, after: State, m: Mutation) {
    && |after.history| == |before.history| + 1
    && var t := after.history[|before.history|];
    && after.history == before.history + [t] && t.mutation == m
    && (before.pending.Some? ==> before.pending.value == t)
    && after.image == Publish(env, before.image, t) && after.pending.None?
  }

  lemma UntouchedSelf(s: State)
    ensures Untouched(s, s)
  {
  }

  lemma Untouched2(env: Env, before: State, mid: State, after: State, m: Mutation)
    requires Untouched(before, mid)
    ensures Commits(env, mid, after, m) ==> Commits(env, before, after, m)
    ensures Untouched(mid, after) ==> Untouched(before, after)
  {
    hide Publish;
  }

  lemma CommitsLast(env: Env, before: State, after: State, m: Mutation, t: Transaction)
    requires after.history == before.history + [t] && t.mutation == m && after.image == Publish(env, before.image, t)
    requires after.pending.None? && (before.pending.Some? ==> before.pending.value == t)
    ensures Commits(env, before, after, m)
  {
    hide Publish;
  }

  /** The receipt names the committed transaction and as many replicas as its mode requires. */
  ghost predicate Proves(before: State, t: Transaction, receipt: Receipt, rs: seq<FileMetadataReplica>, views: seq<Replica>)
    requires |views| == |rs|
  {
    && receipt.transaction == t.id && receipt.index == t.index
    && |receipt.proofs| == RequiredAcks(before.image.records, t.mutation)
    && Backed(rs, views, receipt.proofs, t)
  }

  /**
   What `transact_locked` does: it commits `m` and reports success, unless the log's length was
   needed and lost, or it changes no record, version or index and fails.  A success is proved.
   */
  ghost predicate Transacted(
    env: Env, before: State, after: State, m: Mutation, r: Result<Receipt>, lengthLost: bool, rs: seq<FileMetadataReplica>)
    requires |after.replicas| == |rs|
  {
    && (after.history == before.history ==> r.Err? && Untouched(before, after))
    && (after.history != before.history ==> Commits(env, before, after, m) && (r.Err? <==> lengthLost))
    && (r.Ok? ==> after.history != [] && Proves(before, after.history[|after.history| - 1], r.value, rs, after.replicas))
  }

  lemma TransactFails(env: Env, before: State, after: State, m: Mutation, r: Result<Receipt>, lengthLost: bool, rs: seq<FileMetadataReplica>)
    requires |after.replicas| == |rs| && Untouched(before, after) && r.Err?
    ensures Transacted(env, before, after, m, r, lengthLost, rs)
  {
  }

  lemma TransactCommits(
    env: Env, before: State, after: State, m: Mutation, t: Transaction, r: Result<Receipt>, lengthLost: bool, rs: seq<FileMetadataReplica>)
    requires |after.replicas| == |rs| && Commits(env, before, after, m) && (r.Err? <==> lengthLost)
    requires after.history == before.history + [t] && (r.Ok? ==> Proves(before, t, r.value, rs, after.replicas))
    ensures Transacted(env, before, after, m, r, lengthLost, rs)
  {
    hide Commits, Proves;
  }

  /** A prepare before it does not change the outcome of a transaction. */
  lemma TransactedAfter(
    env: Env, before: State, mid: State, after: State, m: Mutation, r: Result<Receipt>, lengthLost: bool, rs: seq<FileMetadataReplica>)
    requires |after.replicas| == |rs| && Untouched(before, mid) && Transacted(env, mid, after, m, r, lengthLost, rs)
    ensures Transacted(env, before, after, m, r, lengthLost, rs)
  {
    hide Publish, Backed, RequiredAcks;
    Untouched2(env, before, mid, after, m);
  }

  // ----- The answer to a call -----

  /** Refused: nothing was committed.  Committed: the call's transaction was, and `report` may still be an error. */
  datatype Answer = Refused(error: Error) | Committed(report: Option<Error>)

  /** The answer once transaction `t` is prepared and `had` are the names with a proof for it. */
  ghost function Settle(env: Env, records: Records, views: seq<Replica>, names: seq<string>, t: Transaction, had: set<string>, count: nat, faults: Faults): Answer
    requires |names| == |views|
  {
    var required := RequiredAcks(records, t.mutation);
    var round := Asking(names, Acks(env.codec, views, t, faults.replicaWritten), had, required, 0);
    if |round.proven| < required then Refused(DurabilityUnavailable)
    else if !faults.commitWritten then Refused(Storage)
    else Answer.Committed(if count + 1 < env.options.compactAfterRecords && !faults.lengthKnown then Some(Storage) else None)
  }

  /** The transaction that a mutation continues or opens, or why there is none. */
  ghost function Opens(env: Env, s: State, m: Mutation, written: bool): Result<Transaction> {
    if |env.codec.mutationJson(m)| > env.options.maxRecordBytes then Err(CapacityExceeded)
    else if s.pending.Some? then if s.pending.value.mutation == m then Ok(s.pending.value) else Err(Conflict)
    else
      match Draft(env, s.image, m)
      case Err(e) => Err(e)
      case Ok(t) => if written then Ok(t) else Err(Storage)
  }

  ghost function AnswerFor(env: Env, s: State, names: seq<string>, held: set<string>, count: nat, m: Mutation, faults: Faults): Answer
    requires |names| == |s.replicas|
  {
    match Opens(env, s, m, faults.prepareWritten)
    case Err(e) => Refused(e)
    case Ok(t) => Settle(env, s.image.records, s.replicas, names, t, if s.pending.Some? then held else {}, count, faults)
  }

  /**
   What a call answers, from the state before it and the faults: the objection of its checks; then
   why no transaction opens; then too few acknowledgements; then a failed commit write.  Otherwise
   it commits, and reports an error only for a lost length or a quarantined output.
   */
  ghost function AnswerTo(env: Env, s: State, names: seq<string>, held: set<string>, count: nat, call: Call, faults: Faults): Answer
    requires |names| == |s.replicas|
  {
    var objection := Objection(s.image.records, call, env.replicas, env.options.maxTasks);
    if objection.Some? then Refused(objection.value)
    else
      match Plan(s.image.records, call, env.replicas)
      case Err(e) => Refused(e)
      case Ok(request) =>
        var answer := AnswerFor(env, s, names, held, count, request.mutation, faults);
        if answer == Answer.Committed(None) && call.CallStage? && call.task in s.image.records && Outdated(s.image.records[call.task], call)
        then Answer.Committed(Some(AttemptStale)) else answer
  }

  /** The result and the history are what the answer says. */
  ghost predicate Answers(answer: Answer, before: State, after: State, r: Result<Receipt>) {
    match answer
    case Refused(e) => after.history == before.history && r == Err(e)
    case Committed(report) => |after.history| == |before.history| + 1 && (if report.Some? then r == Err(report.value) else r.Ok?)
  }

  lemma RefusedAnswer(e: Error, s: State, r: Result<Receipt>)
    requires r == Err(e)
    ensures Answers(Refused(e), s, s, r)
  {
  }

  lemma UntouchedHistory(before: State, after: State)
    requires Untouched(before, after)
    ensures after.history == before.history && after.image == before.image
  {
  }

  /** A committed transaction changes the records as `Publish` does. */
  lemma TransactedRecords(env: Env, before: State, after: State, m: Mutation, applied: Result<Record>, answer: Answer, r: Result<Receipt>)
    requires applied == Apply(before.image.records, m, env.options.maxTasks) && Answers(answer, before, after, r)
    requires applied.Err? ==> answer == Refused(applied.error)
    requires Inv(env, after) && (after.history != before.history ==> Commits(env, before, after, m))
    ensures after.history != before.history ==> applied.Ok? && after.image.records == before.image.records[m.Target() := applied.value]
  {
    hide Apply, Inv;
    if after.history != before.history {
      HistoryTask(env, after, |before.history|);
    }
  }

  lemma HistoryTask(env: Env, s: State, i: nat)
    requires Inv(env, s) && i < |s.history|
    ensures s.history[i].task == s.history[i].mutation.Target()
  {
    hide DiskOk, SyncOk, ReplicasOk, ImageOf, Chain, Acceptable;
    ChainPrefix(env, s.history, i);
  }

  lemma LateAnswer(answer: Answer, before: State, after: State, r: Result<Receipt>)
    requires Answers(answer, before, after, r) && r.Ok?
    ensures answer == Answer.Committed(None) && Answers(Answer.Committed(Some(AttemptStale)), before, after, Err(AttemptStale))
  {
  }

  lemma SameAnswer(answer: Answer, before: State, after: State, r: Result<Receipt>)
    requires Answers(answer, before, after, r)
    ensures answer == Answer.Committed(None) <==> r.Ok?
  {
  }

  lemma AnswersAfter(answer: Answer, before: State, mid: State, after: State, r: Result<Receipt>)
    requires Answers(answer, mid, after, r) && mid.history == before.history
    ensures Answers(answer, before, after, r)
  {
  }

  lemma SettleFails(
    env: Env, records: Records, views: seq<Replica>, names: seq<string>, t: Transaction, had: set<string>, count: nat, faults: Faults, s: State, r: Result<Receipt>)
    requires |names| == |views|
    requires var required := RequiredAcks(records, t.mutation);
             var round := Asking(names, Acks(env.codec, views, t, faults.replicaWritten), had, required, 0);
             if |round.proven| < required then r == Err(DurabilityUnavailable) else !faults.commitWritten && r == Err(Storage)
    ensures forall after: State :: after.history == s.history ==> Answers(Settle(env, records, views, names, t, had, count, faults), s, after, r)
  {
    hide Asking, Acks, RequiredAcks;
  }

  lemma SettleCommits(
    env: Env, records: Records, views: seq<Replica>, names: seq<string>, t: Transaction, had: set<string>, count: nat, faults: Faults,
    before: State, after: State, r: Result<Receipt>)
    requires |names| == |views| && |after.history| == |before.history| + 1 && faults.commitWritten
    requires var required := RequiredAcks(records, t.mutation);
             |Asking(names, Acks(env.codec, views, t, faults.replicaWritten), had, required, 0).proven| >= required
    requires if count + 1 < env.options.compactAfterRecords && !faults.lengthKnown then r == Err(Storage) else r.Ok?
    ensures Answers(Settle(env, records, views, names, t, had, count, faults), before, after, r)
  {
    hide Asking, Acks, RequiredAcks;
  }

  class PersistentRegistry {
    const env: Env
    const replicas: seq<FileMetadataReplica>
    var snapshot: Option<Bytes>
    var wal: Bytes
    var records: Records
    var versions: Versions
    var lastIndex: u64
    var lastId: Bytes
    var walTransactions: nat
    var pending: Option<Pending>
    ghost var synced: nat
    ghost var history: History
    ghost var base: nat
    ghost var stale: seq<Frame>
    ghost var settled: nat

    function Current(): Image
      reads this
    {
      Image(records, versions, lastIndex, lastId)
    }

    ghost function View(): State
      reads this, replicas
    {
      State(false, Current(), if pending.Some? then Some(pending.value.transaction) else None,
            snapshot, wal, synced, Views(replicas), history, base, stale, settled)
    }

    /** The names with a proof for the pending transaction. */
    ghost function Held(): set<string>
      reads this
    {
      if pending.Some? then pending.value.proofs.Keys else {}
    }

    /** The configuration that `open` checks: distinct replicas with distinct names. */
    ghost predicate Configured()
    {
      && env.codec.Faithful() && |replicas| == env.replicas
      && (forall i, j :: 0 <= i < j < |replicas| ==> replicas[i] != replicas[j] && replicas[i].id != replicas[j].id)
      && (forall i :: 0 <= i < |replicas| ==> replicas[i].codec == env.codec)
    }

    /** Acknowledgements come from replicas that hold the pending transaction, and not too many. */
    ghost predicate ProofsOk()
      reads this, replicas
    {
      pending.Some? ==>
        var p := pending.value;
        && Apply(records, p.transaction.mutation, env.options.maxTasks) == Ok(p.resulting)
        && |p.proofs| <= RequiredAcks(records, p.transaction.mutation)
        && Backed(replicas, Views(replicas), p.proofs, p.transaction)
    }

    ghost predicate Valid()
      reads this, replicas
    {
      Configured() && Inv(env, View()) && ProofsOk()
    }

    /** A registry over recovered files; no proof survives a restart. */
    constructor (env: Env, replicas: seq<FileMetadataReplica>, snapshot: Option<Bytes>, wal: Bytes, r: Recovered, ghost s: State)
      requires s.snapshot == snapshot && s.wal == wal && s.image == r.image && s.pending == r.pending && !s.refused
      requires Views(replicas) == s.replicas && Inv(env, s)
      requires r.pending.Some? ==> Apply(r.image.records, r.pending.value.mutation, env.options.maxTasks).Ok?
      ensures this.env == env && this.replicas == replicas
      ensures View() == s && ProofsOk()
    {
      this.env, this.replicas, this.snapshot, this.wal := env, replicas, snapshot, wal;
      records, versions, lastIndex, lastId := r.image.records, r.image.versions, r.image.lastIndex, r.image.lastId;
      walTransactions := r.count;
      if r.pending.Some? {
        var t := r.pending.value;
        pending := Some(Pending(t, Apply(r.image.records, t.mutation, env.options.maxTasks).value, map[]));
      } else {
        pending := None;
      }
      synced, history, base, stale, settled := s.synced, s.history, s.base, s.stale, s.settled;
    }

    /** `prepare_pending_transaction`: reuses the pending transaction or writes a new prepare. */
    method PreparePending(call: Call, m: Mutation, resulting: Record, written: bool) returns (error: Option<Error>, ghost trace: seq<Event>)
      requires Valid() && Plan(records, call, env.replicas).Ok? && m == Plan(records, call, env.replicas).value.mutation
      requires Apply(records, m, env.options.maxTasks) == Ok(resulting) && |env.codec.mutationJson(m)| <= env.options.maxRecordBytes
      modifies this
      ensures Valid() && View() == Run(env, old(View()), trace) && Untouched(old(View()), View())
      ensures records == old(records) && walTransactions == old(walTransactions)
      ensures error.None? ==> pending.Some? && pending.value.transaction.mutation == m
      ensures error.Some? || old(pending).Some? ==> View() == old(View()) && pending == old(pending)
      ensures Views(replicas) == old(Views(replicas)) && Held() == old(Held())
      ensures Opens(env, old(View()), m, written) == if error.Some? then Err(error.value) else Ok(pending.value.transaction)
    {
      hide Inv, Plan, Apply, Encode, EncodeAll, WalFrames, Fits, ChainId, RequiredAcks, Run, Step, Draft, Syncs;
      ghost var before := View();
      trace := [];
      RunNone(env, before);
      if pending.Some? {
        var t := pending.value.transaction;
        SameVersion();
        if t.mutation != m || t.previousVersion != VersionOf(Current(), m.Target()) {
          return Some(Conflict), [];
        }
        return None, [];
      }
      match Draft(env, Current(), m) {
        case Err(e) => return Some(e), [];
        case Ok(t) =>
          if !written {
            return Some(Storage), [];
          }
          ghost var next := AfterPrepare(env, before, t);
          wal := wal + Encode(env.codec.sha, PrepareFrame(env.codec, t));
          pending := Some(Pending(t, resulting, map[]));
          synced, settled := next.synced, next.settled;
          trace := [] + [PrepareStep(call, true)];
          DraftShape(env, Current(), m);
          assert View() == next;
          StepPrepare(env, before, call);
          Advance(env, before, [], before, PrepareStep(call, true));
          return None, trace;
      }
    }

    /** A pending transaction was drafted at the version that its task still has. */
    lemma SameVersion()
      requires Valid() && pending.Some?
      ensures pending.value.transaction.previousVersion == VersionOf(Current(), pending.value.transaction.mutation.Target())
    {
      hide DiskOk, SyncOk, ReplicasOk, Chain, ImageOf, Apply;
    }

    /**
     `replicate_transaction`: asks the replicas without a proof in order, stops as soon as enough
     have acknowledged, and records a proof for exactly those that did.
     */
    method Replicate(required: nat, written: nat -> bool) returns (ghost trace: seq<Event>)
      requires Valid() && pending.Some? && required == RequiredAcks(records, pending.value.transaction.mutation)
      requires required > 0 ==> NeedsSync(records, pending.value.transaction.mutation)
      modifies this`pending, replicas
      ensures Valid() && View() == Run(env, old(View()), trace)
      ensures pending.Some? && pending.value.transaction == old(pending).value.transaction
      ensures pending.value.resulting == old(pending).value.resulting
      ensures var acks := Acks(env.codec, old(Views(replicas)), old(pending).value.transaction, written);
              var round := Asking(Names(replicas), acks, old(pending).value.proofs.Keys, required, 0);
              trace == Asks(written, round.order) && pending.value.proofs.Keys == round.proven
    {
      hide Inv, Apply, Run, Step, RequiredAcks, NeedsSync, Asking, Continues, Asks, Acks, Names, Views, ProofsOk, Configured;
      var i := 0;
      ghost var before, p := View(), pending.value;
      ghost var acks, order: seq<nat> := Acks(env.codec, Views(replicas), p.transaction, written), [];
      ghost var total := Asking(Names(replicas), acks, p.proofs.Keys, required, 0);
      ContinuesStart(Names(replicas), acks, required, p.proofs.Keys);
      RunNone(env, before);
      AsksNone(written);
      while i < |replicas|
        invariant i <= |replicas| && InTurn(before, p, written, acks, required, order, i, total)
      {
        if |pending.value.proofs| >= required {
          break;
        }
        order := TakeTurn(before, p, written, acks, required, order, i, total);
        i := i + 1;
      }
      ContinuesEnds(Names(replicas), acks, required, order, pending.value.proofs.Keys, i, total);
      trace := Asks(written, order);
    }

    /** The loop of `replicate_transaction` at the `i`-th replica, having asked `order`. */
    ghost predicate InTurn(before: State, p: Pending, written: nat -> bool, acks: seq<bool>, required: nat, order: seq<nat>, i: nat, total: Round)
      requires i <= |replicas| == |acks| && |before.replicas| == |replicas|
      reads this, replicas
    {
      && Valid() && View() == Run(env, before, Asks(written, order))
      && pending.Some? && pending.value.transaction == p.transaction && pending.value.resulting == p.resulting
      && (forall j :: i <= j < |replicas| ==> Views(replicas)[j] == before.replicas[j])
      && Continues(Names(replicas), acks, required, order, pending.value.proofs.Keys, i, total)
    }

    /** One turn of that loop: asks the replica unless it has a proof already. */
    method TakeTurn(ghost before: State, ghost p: Pending, written: nat -> bool, ghost acks: seq<bool>, required: nat,
                    ghost order: seq<nat>, i: nat, ghost total: Round) returns (ghost next: seq<nat>)
      requires i < |replicas| == |acks| && |before.replicas| == |replicas|
      requires InTurn(before, p, written, acks, required, order, i, total)
      requires acks == Acks(env.codec, before.replicas, p.transaction, written)
      requires |pending.value.proofs| < required == RequiredAcks(records, p.transaction.mutation)
      requires NeedsSync(records, p.transaction.mutation)
      modifies this`pending, replicas
      ensures InTurn(before, p, written, acks, required, next, i + 1, total)
    {
      hide Inv, Apply, Run, Step, ReplicaCommit, RequiredAcks, NeedsSync, Asking, Continues, Asks, Acks, Names, Views, ProofsOk, Configured;
      ghost var proven := pending.value.proofs.Keys;
      if replicas[i].id !in pending.value.proofs {
        ContinuesAsk(Names(replicas), acks, required, order, proven, i, total);
        AskReplica(i, written(i));
        RunOne(env, before, Asks(written, order), ReplicateStep(i, written(i)));
        AsksSnoc(written, order, i);
        next := order + [i];
      } else {
        ContinuesSkip(Names(replicas), acks, required, order, proven, i, total);
        next := order;
      }
    }

    lemma Distinct(i: nat)
      requires Configured() && i < |replicas|
      ensures replicas[i].codec == env.codec && forall j :: 0 <= j < |replicas| && j != i ==> replicas[j] != replicas[i]
    {
    }

    /** A replica is offered a transaction; the others stay as they are. */
    method Offer(i: nat, t: Transaction, written: bool) returns (ack: Result<Proof>)
      requires Configured() && i < |replicas|
      modifies replicas[i]
      ensures var after := ReplicaCommit(env.codec, old(Views(replicas))[i], t, written);
              && Views(replicas) == (if after.Ok? then old(Views(replicas))[i := after.value] else old(Views(replicas)))
              && ack == (if after.Ok? then Ok(Proof(replicas[i].id, t.id, t.index)) else Err(after.error))
    {
      hide ReplicaCommit, Views, Configured;
      assert forall j :: 0 <= j < |replicas| && j != i ==> replicas[j] != replicas[i] by { Distinct(i); }
      assert replicas[i].codec == env.codec by { Distinct(i); }
      ghost var before := Views(replicas);
      ack := replicas[i].Commit(t, written);
      ghost var after := ReplicaCommit(env.codec, before[i], t, written);
      assert forall j :: 0 <= j < |replicas| && j != i ==> Views(replicas)[j] == before[j];
      assert Views(replicas) == if after.Ok? then before[i := after.value] else before;
    }

    /** One replica is asked; a proof is recorded exactly when it acknowledges. */
    method AskReplica(i: nat, written: bool)
      requires Valid() && pending.Some? && i < |replicas| && replicas[i].id !in pending.value.proofs
      requires NeedsSync(records, pending.value.transaction.mutation)
      requires |pending.value.proofs| < RequiredAcks(records, pending.value.transaction.mutation)
      modifies this`pending, replicas[i]
      ensures Valid() && View() == Step(env, old(View()), ReplicateStep(i, written))
      ensures pending.Some? && pending.value.transaction == old(pending).value.transaction
      ensures pending.value.resulting == old(pending).value.resulting
      ensures forall j :: 0 <= j < |replicas| && j != i ==> Views(replicas)[j] == old(Views(replicas))[j]
      ensures var acked := ReplicaCommit(env.codec, old(Views(replicas))[i], old(pending).value.transaction, written).Ok?;
              pending.value.proofs.Keys == old(pending).value.proofs.Keys + (if acked then {replicas[i].id} else {})
    {
      hide Inv, Apply, RequiredAcks, Run, Step, Backed, ReplicaCommit, NeedsSync, Views;
      var t, replica := pending.value.transaction, replicas[i];
      ghost var before := View();
      StepReplicate(env, before, i, written);
      RunNone(env, before);
      Advance(env, before, [], before, ReplicateStep(i, written));
      var ack := Offer(i, t, written);
      if ack.Ok? {
        StillBacked(replicas, before.replicas, pending.value.proofs, i, t, env.codec, written);
        pending := Some(pending.value.(proofs := pending.value.proofs[replica.id := ack.value]));
      }
      assert View() == Step(env, before, ReplicateStep(i, written));
    }

    /** The fields that a committed transaction replaces. */
    method Install(t: Transaction, record: Record)
      modifies this`records, this`versions, this`lastIndex, this`lastId, this`walTransactions, this`pending
      ensures Current() == Image(old(records)[t.task := record], old(versions)[t.task := t.newVersion], t.index, t.id)
      ensures pending == None && walTransactions == old(walTransactions) + 1
    {
      records, versions := records[t.task := record], versions[t.task := t.newVersion];
      lastIndex, lastId := t.index, t.id;
      walTransactions := walTransactions + 1;
      pending := None;
    }

    /** Writes the commit frame and publishes the record. */
    method CommitLocal(written: bool) returns (error: Option<Error>, ghost trace: seq<Event>)
      requires Valid() && pending.Some?
      modifies this
      ensures Valid() && View() == Run(env, old(View()), trace)
      ensures !written ==> error == Some(Storage) && View() == old(View()) && pending == old(pending)
      ensures written ==> && error == None && pending == None
                          && walTransactions == old(walTransactions) + 1
                          && history == old(history) + [old(pending).value.transaction]
                          && Current() == Publish(env, old(Current()), old(pending).value.transaction)
    {
      hide Inv, Encode, EncodeAll, WalFrames, RequiredAcks, Backed, Syncs, Run, Step, Apply, Publish, Views;
      ghost var before := View();
      RunNone(env, before);
      if !written {
        return Some(Storage), [];
      }
      var p := pending.value;
      var t := p.transaction;
      ghost var next := AfterCommit(env, before, t);
      StepCommit(env, before);
      Advance(env, before, [], before, CommitStep(true));
      PublishShape(env, Current(), t, p.resulting);
      wal := wal + Encode(env.codec.sha, CommitFrame(t));
      Install(t, p.resulting);
      synced, settled, history := next.synced, next.settled, next.history;
      assert View() == next;
      error, trace := None, [] + [CommitStep(true)];
    }

    /** The first half of `compact_locked`: the snapshot file replaces the old one. */
    method SaveSnapshot(file: Bytes)
      requires Valid() && pending.None? && SnapshotFile(env, Current()) == Some(file)
      modifies this`snapshot, this`base, this`stale
      ensures Valid() && View() == Step(env, old(View()), SnapshotStep) && snapshot == Some(file)
    {
      hide Inv, SnapshotFile, WalFrames, RequiredAcks, Backed, Run, Step, Views;
      ghost var before := View();
      StepCompact(env, before);
      RunNone(env, before);
      Advance(env, before, [], before, SnapshotStep);
      ghost var saved := Step(env, before, SnapshotStep);
      snapshot, base, stale := Some(file), saved.base, saved.stale;
      assert View() == saved;
    }

    /** The second half: the log is emptied. */
    method EmptyLog(ghost before: State)
      requires Valid() && pending.None? && Inv(env, before) && !before.refused && before.pending.None?
      requires SnapshotFile(env, before.image).Some? && View() == Step(env, before, SnapshotStep)
      modifies this`wal, this`synced, this`stale, this`settled
      ensures Valid() && View() == Step(env, old(View()), TruncateStep) && wal == []
    {
      hide Inv, SnapshotFile, WalFrames, RequiredAcks, Backed, Run, Step, Views;
      ghost var saved := View();
      StepCompact(env, before);
      RunNone(env, saved);
      Advance(env, saved, [], saved, TruncateStep);
      wal, synced, stale, settled := [], 0, [], 0;
      assert View() == Step(env, saved, TruncateStep);
    }

    /** `compact_locked`: saves a snapshot, then empties the log. */
    method CompactLocked(faults: Faults) returns (error: Option<Error>, ghost trace: seq<Event>)
      requires Valid() && pending.None?
      modifies this
      ensures Valid() && View() == Run(env, old(View()), trace)
      ensures Current() == old(Current()) && history == old(history) && pending == None
      ensures error.None? <==> SnapshotFile(env, Current()).Some? && faults.snapshotWritten && faults.truncation == Truncated
      ensures error.None? ==> wal == [] && snapshot == SnapshotFile(env, Current()) && walTransactions == 0
    {
      hide Inv, SnapshotFile, Run, Step, Views;
      ghost var before := View();
      RunNone(env, before);
      var file := SnapshotFile(env, Current());
      if file.None? || !faults.snapshotWritten {
        return Some(if file.None? then CapacityExceeded else Storage), [];
      }
      SaveSnapshot(file.value);
      trace := [] + [SnapshotStep];
      RunOne(env, before, [], SnapshotStep);
      if faults.truncation == NotTruncated {
        return Some(Storage), trace;
      }
      EmptyLog(before);
      RunOne(env, before, trace, TruncateStep);
      trace := trace + [TruncateStep];
      if faults.truncation == TruncatedUnreported {
        return Some(Storage), trace;
      }
      walTransactions := 0;
      error := None;
    }

    /** `compact`: refused while a transaction is prepared. */
    method Compact(faults: Faults) returns (error: Option<Error>, ghost trace: seq<Event>)
      requires Valid()
      modifies this
      ensures Valid() && View() == Run(env, old(View()), trace)
      ensures Current() == old(Current()) && history == old(history) && pending == old(pending)
      ensures pending.Some? ==> error == Some(Conflict) && View() == old(View())
      ensures error.None? ==> wal == [] && snapshot == SnapshotFile(env, Current())
    {
      hide Inv, Run, SnapshotFile, ProofsOk;
      if pending.Some? {
        RunNone(env, View());
        return Some(Conflict), [];
      }
      error, trace := CompactLocked(faults);
    }

    /** An output of a stale attempt: it is committed as a conflict and then reported as an error. */
    static predicate Quarantines(records: Records, call: Call, replicas: nat) {
      var plan := Plan(records, call, replicas);
      plan.Ok? && plan.value.mutation.ConflictOutput?
    }

    /** Whether `compaction_due` has to ask the file for its length after a commit. */
    predicate AsksLength()
      reads this
    {
      walTransactions + 1 < env.options.compactAfterRecords
    }

    lemma EnoughProofs(before: State, required: nat)
      requires Valid() && pending.Some? && before.image == Current()
      requires required == RequiredAcks(records, pending.value.transaction.mutation) <= |pending.value.proofs|
      ensures var p := pending.value;
              Proves(before, p.transaction, Receipt(p.transaction.id, p.transaction.index, p.proofs), replicas, Views(replicas))
    {
      hide Inv, Apply, Backed, RequiredAcks;
    }

    /** The rest of `transact_locked`, once a transaction is pending. */
    method Conclude(required: nat, faults: Faults) returns (r: Result<Receipt>, ghost trace: seq<Event>)
      requires Valid() && pending.Some? && required == RequiredAcks(records, pending.value.transaction.mutation)
      requires required > 0 ==> NeedsSync(records, pending.value.transaction.mutation)
      modifies this, replicas
      ensures Valid() && View() == Run(env, old(View()), trace)
      ensures Transacted(env, old(View()), View(), old(pending).value.transaction.mutation, r, old(AsksLength()) && !faults.lengthKnown, replicas)
      ensures Answers(Settle(env, old(records), old(Views(replicas)), Names(replicas), old(pending).value.transaction, old(Held()), old(walTransactions), faults),
                      old(View()), View(), r)
      ensures history != old(history) ==> Maintained(faults)
    {
      hide Inv, Apply, Run, Backed, Publish, Step, NeedsSync, RequiredAcks, Commits, Configured, Proves, Asking, Asks, Acks, ReplicaCommit,
           Views, ProofsOk, Transacted, Settle, Answers, Names, Maintained;
      ghost var before, lost := View(), AsksLength() && !faults.lengthKnown;
      ghost var views, held, count, names := Views(replicas), Held(), walTransactions, Names(replicas);
      trace := Replicate(required, faults.replicaWritten);
      var p := pending.value;
      ghost var t, m := p.transaction, p.transaction.mutation;
      if |p.proofs| < required {
        r := Err(DurabilityUnavailable);
        TransactFails(env, before, View(), m, r, lost, replicas);
        SettleFails(env, records, views, names, t, held, count, faults, before, r);
        return;
      }
      var receipt := Receipt(p.transaction.id, p.transaction.index, p.proofs);
      EnoughProofs(before, required);
      var error, committed := CommitLocal(faults.commitWritten);
      RunAppend(env, before, trace, committed);
      trace := trace + committed;
      if error.Some? {
        r := Err(error.value);
        TransactFails(env, before, View(), m, r, lost, replicas);
        SettleFails(env, old(records), views, names, t, held, count, faults, before, r);
        return;
      }
      var known, maintained := Maintain(faults);
      RunAppend(env, before, trace, maintained);
      trace := trace + maintained;
      CommitsLast(env, before, View(), m, p.transaction);
      r := if known then Ok(receipt) else Err(Storage);
      TransactCommits(env, before, View(), m, p.transaction, r, lost, replicas);
      SettleCommits(env, old(records), views, names, t, held, count, faults, before, View(), r);
    }

    /** With a working disk, and an image that fits its snapshot, no compaction is due any more. */
    ghost predicate Maintained(faults: Faults)
      reads this
    {
      OptionsOk(env.options) && faults.lengthKnown && faults.snapshotWritten && faults.truncation == Truncated && SnapshotFile(env, Current()).Some?
      ==> walTransactions < env.options.compactAfterRecords && |wal| < env.options.compactAfterBytes
    }

    /** Compacts when due; a failed compaction is only reported, a failed length query is an error. */
    method Maintain(faults: Faults) returns (known: bool, ghost trace: seq<Event>)
      requires Valid() && pending.None?
      modifies this
      ensures Valid() && View() == Run(env, old(View()), trace)
      ensures Current() == old(Current()) && history == old(history) && pending == None
      ensures known <==> faults.lengthKnown || old(walTransactions) >= env.options.compactAfterRecords
      ensures Maintained(faults)
      ensures old(walTransactions) < env.options.compactAfterRecords && |old(wal)| < env.options.compactAfterBytes ==> View() == old(View())
    {
      hide Inv, Run, SnapshotFile, Views;
      RunNone(env, View());
      var byCount := walTransactions >= env.options.compactAfterRecords;
      if !byCount && !faults.lengthKnown {
        return false, [];
      }
      known, trace := true, [];
      if byCount || |wal| >= env.options.compactAfterBytes {
        var _, compacted := CompactLocked(faults);
        trace := compacted;
      }
    }

    /** The part of `transact_locked` that writes: prepare or reuse, then replicate and commit. */
    method Carry(call: Call, request: Request, resulting: Record, faults: Faults) returns (r: Result<Receipt>, ghost trace: seq<Event>)
      requires Valid() && Plan(records, call, env.replicas) == Ok(request)
      requires Apply(records, request.mutation, env.options.maxTasks) == Ok(resulting)
      requires |env.codec.mutationJson(request.mutation)| <= env.options.maxRecordBytes
      modifies this, replicas
      ensures Valid() && View() == Run(env, old(View()), trace)
      ensures Transacted(env, old(View()), View(), request.mutation, r, old(AsksLength()) && !faults.lengthKnown, replicas)
      ensures Answers(AnswerFor(env, old(View()), Names(replicas), old(Held()), old(walTransactions), request.mutation, faults), old(View()), View(), r)
      ensures old(pending).Some? && old(pending).value.transaction.mutation != request.mutation ==> r.Err? && View() == old(View())
      ensures history != old(history) ==> Maintained(faults)
    {
      hide Inv, Apply, Run, Backed, Publish, Plan, Step, NeedsSync, RequiredAcks, Commits, ProofsOk, Proves, Untouched, Opens, Settle, Answers,
           Names, Maintained, Views, Configured;
      ghost var before := View();
      var m := request.mutation;
      PlanNeeds(call);
      UntouchedSelf(before);
      var failure, prepared := PreparePending(call, m, resulting, faults.prepareWritten);
      if failure.Some? {
        r, trace := Err(failure.value), prepared;
        RefusedAnswer(failure.value, before, r);
        return;
      }
      ghost var mid := View();
      ghost var concluded;
      r, concluded := Conclude(request.copies - 1, faults);
      RunAppend(env, before, prepared, concluded);
      trace := prepared + concluded;
      TransactedAfter(env, before, mid, View(), m, r, old(AsksLength()) && !faults.lengthKnown, replicas);
      assert mid.history == before.history by { UntouchedHistory(before, mid); }
      AnswersAfter(Settle(env, before.image.records, before.replicas, Names(replicas), mid.pending.value, old(Held()), old(walTransactions), faults),
                   before, mid, View(), r);
    }

    /** `transact_locked`. */
    method Transact(call: Call, request: Request, faults: Faults) returns (r: Result<Receipt>, ghost trace: seq<Event>)
      requires Valid() && Plan(records, call, env.replicas) == Ok(request)
      modifies this, replicas
      ensures Valid() && View() == Run(env, old(View()), trace)
      ensures Transacted(env, old(View()), View(), request.mutation, r, old(AsksLength()) && !faults.lengthKnown, replicas)
      ensures var applied := Apply(old(records), request.mutation, env.options.maxTasks);
              Answers(if applied.Err? then Refused(applied.error)
                      else AnswerFor(env, old(View()), Names(replicas), old(Held()), old(walTransactions), request.mutation, faults),
                      old(View()), View(), r)
      ensures Blocked(old(View()), call) ==> r.Err? && View() == old(View())
      ensures history != old(history) ==> Maintained(faults)
    {
      hide Inv, Apply, Run, Plan, Step, ProofsOk, Untouched, Answers, Maintained, Views, Configured, Names, Settle;
      var m := request.mutation;
      RunNone(env, View());
      UntouchedSelf(View());
      var applied := Apply(records, m, env.options.maxTasks);
      if applied.Err? {
        r, trace := Err(applied.error), [];
        RefusedAnswer(applied.error, View(), r);
        return;
      }
      if |env.codec.mutationJson(m)| > env.options.maxRecordBytes {
        r, trace := Err(CapacityExceeded), [];
        RefusedAnswer(CapacityExceeded, View(), r);
        return;
      }
      r, trace := Carry(call, request, applied.value, faults);
    }

    /**
     A public call: its own checks, then `transact_locked`.  Every behaviour is a run of the step
     system, and the answer is exactly that of `AnswerTo`.  A call that commits has exactly its
     `Effects` on the records, commits the planned mutation with the required number of proofs
     from distinct replicas, and leaves no compaction due; a pending transaction is reused or blocks
     the call.  Otherwise records, versions and history stay as they are.
     */
    method Execute(call: Call, faults: Faults) returns (r: Result<Receipt>, ghost trace: seq<Event>)
      requires Valid()
      modifies this, replicas
      ensures Valid() && View() == Run(env, old(View()), trace)
      ensures Answers(AnswerTo(env, old(View()), Names(replicas), old(Held()), old(walTransactions), call, faults), old(View()), View(), r)
      ensures history == old(history) ==> r.Err? && Untouched(old(View()), View())
      ensures history != old(history) ==>
                && Plan(old(records), call, env.replicas).Ok?
                && Commits(env, old(View()), View(), Plan(old(records), call, env.replicas).value.mutation)
                && Effects(old(records), records, call) && Maintained(faults)
      ensures r.Ok? ==> Proves(old(View()), history[|history| - 1], r.value, replicas, Views(replicas))
      ensures Blocked(old(View()), call) ==> r.Err? && View() == old(View())
    {
      hide Inv, Run, Plan, Commits, Proves, ProofsOk, Untouched, Answers, Maintained, Views, Configured, Names, AnswerFor, Effects, Objection, Apply, Outdated;
      ghost var before := View();
      WellFormedNow();
      CallExactly(records, call, env.replicas, env.options.maxTasks);
      var plan := Plan(records, call, env.replicas);
      if plan.Err? {
        RunNone(env, View());
        UntouchedSelf(View());
        r, trace := Err(plan.error), [];
        RefusedAnswer(plan.error, View(), r);
        return;
      }
      ghost var m := plan.value.mutation;
      ghost var applied := Apply(records, m, env.options.maxTasks);
      ghost var answer := if applied.Err? then Refused(applied.error)
                          else AnswerFor(env, before, Names(replicas), Held(), walTransactions, m, faults);
      r, trace := Transact(call, plan.value, faults);
      TransactedRecords(env, before, View(), m, applied, answer, r);
      if r.Ok? && plan.value.mutation.ConflictOutput? {
        LateAnswer(answer, before, View(), r);
        r := Err(AttemptStale);
      } else {
        SameAnswer(answer, before, View(), r);
      }
    }

    lemma WellFormedNow()
      requires Valid()
      ensures AllWellFormed(records)
    {
      hide Inv, ProofsOk, WellFormed;
      Bounded(env, View());
    }

    /** Another transaction is prepared than the one this call would open. */
    ghost predicate Blocked(s: State, call: Call) {
      var plan := Plan(s.image.records, call, env.replicas);
      s.pending.Some? && plan.Ok? && plan.value.mutation != s.pending.value.mutation
    }

    lemma PlanNeeds(call: Call)
      requires Valid() && Plan(records, call, env.replicas).Ok?
      ensures var q := Plan(records, call, env.replicas).value;
              && q.copies == RequiredAcks(records, q.mutation) + 1
              && (q.copies > 1 ==> NeedsSync(records, q.mutation))
    {
      hide Inv, Plan, ProofsOk, WellFormed, RequiredAcks, NeedsSync;
      Bounded(env, View());
      PlanShape(records, call, env.replicas);
    }
  }

  predicate OptionsOk(o: Options) {
    o.maxTasks > 0 && o.maxRecordBytes > 0 && o.compactAfterRecords > 0 && o.compactAfterBytes > 0
  }

  /** `validate_replica_ids`: names are given and distinct. */
  predicate NamesOk(rs: seq<FileMetadataReplica>) {
    && (forall i :: 0 <= i < |rs| ==> rs[i].id != "")
    && (forall i, j :: 0 <= i < j < |rs| ==> rs[i].id != rs[j].id)
  }

  predicate ZeroOption(o: Options) {
    o.maxTasks == 0 || o.maxRecordBytes == 0 || o.compactAfterRecords == 0 || o.compactAfterBytes == 0
  }

  /** Some name is empty or given twice. */
  predicate BadName(names: seq<string>) {
    "" in names || exists i, j :: 0 <= i < j < |names| && names[i] == names[j]
  }

  /** The checks of `open` refuse exactly these. */
  lemma ChecksExactly(o: Options, rs: seq<FileMetadataReplica>)
    ensures OptionsOk(o) <==> !ZeroOption(o)
    ensures NamesOk(rs) <==> !BadName(Names(rs))
  {
    var names := Names(rs);
    if "" in names {
      var i :| 0 <= i < |names| && names[i] == "";
      assert rs[i].id == "";
    }
    assert forall i :: 0 <= i < |rs| ==> rs[i].id == names[i] && names[i] in names;
  }

  /**
   `open_with_options` on whatever a crash left of the files: it is the crash step of the step
   system, and it fails exactly when the options or the names are invalid or that step refuses.
   */
  method OpenRegistry(env: Env, replicas: seq<FileMetadataReplica>, snapshot: Option<Bytes>, bytes: Bytes,
                      ghost before: State, ghost w: Writing, ghost cut: nat) returns (r: Result<PersistentRegistry>)
    requires env.codec.Faithful() && |replicas| == env.replicas && Views(replicas) == before.replicas
    requires forall i, j :: 0 <= i < j < |replicas| ==> replicas[i] != replicas[j]
    requires forall i :: 0 <= i < |replicas| ==> replicas[i].codec == env.codec
    requires Inv(env, before) && !before.refused && snapshot == before.snapshot && bytes == Survives(env, before, w, cut)
    ensures r.Err? <==> ZeroOption(env.options) || BadName(Names(replicas)) || Step(env, before, CrashStep(w, cut)).refused
    ensures r.Ok? ==> && fresh(r.value) && r.value.env == env && r.value.replicas == replicas
                      && r.value.Valid() && r.value.View() == Step(env, before, CrashStep(w, cut))
  {
    hide Inv, Replay, LoadSnapshot, Survives, Apply, KnownWith, Whole, Log, Recovers, LooksLegacy, EncodeAll, OptionsOk, ZeroOption, BadName, Names, Step, Views;
    ChecksExactly(env.options, replicas);
    if !OptionsOk(env.options) || !NamesOk(replicas) {
      return Err(InvalidConfig);
    }
    ghost var after := Step(env, before, CrashStep(w, cut));
    Live(env, before);
    StepKeeps(env, before, CrashStep(w, cut));
    CrashMeans(env, before, w, cut);
    CrashOpens(env, before, w, cut);
    match LoadSnapshot(env, snapshot)
    case Err(e) => return Err(e);
    case Ok(s) =>
      var recovered := RunReplay(env, s, bytes);
      if recovered.Err? {
        return Err(recovered.error);
      }
      if recovered.value.pending.Some? {
        PendingApplies(env, after);
      }
      var registry := new PersistentRegistry(env, replicas, snapshot, bytes[..recovered.value.kept], recovered.value, after);
      r := Ok(registry);
  }

  /** The fields that a crash step takes from the recovered files. */
  lemma CrashOpens(env: Env, s: State, w: Writing, cut: nat)
    requires env.codec.Faithful() && Inv(env, s) && !s.refused
    ensures var bytes := Survives(env, s, w, cut); var s' := Step(env, s, CrashStep(w, cut));
            var found := OpenFiles(env, s.snapshot, bytes);
            && (s'.refused <==> found.Err?) && s'.snapshot == s.snapshot && s'.replicas == s.replicas
            && (found.Ok? ==> && found.value.kept <= |bytes| && s'.wal == bytes[..found.value.kept]
                               && s'.image == found.value.image && s'.pending == found.value.pending)
  {
    hide Inv, OpenFiles, Survives, KnownWith, Whole, Log;
    Live(env, s);
    KeptWithin(env, s.snapshot, Survives(env, s, w, cut));
    var _ := CrashFile(env, s, w);
  }

  lemma KeptWithin(env: Env, snapshot: Option<Bytes>, bytes: Bytes)
    ensures OpenFiles(env, snapshot, bytes).Ok? ==> OpenFiles(env, snapshot, bytes).value.kept <= |bytes|
  {
    hide ReplayFrom, LoadSnapshot, Acceptable;
  }

  lemma PendingApplies(env: Env, s: State)
    requires Inv(env, s) && s.pending.Some?
    ensures Apply(s.image.records, s.pending.value.mutation, env.options.maxTasks).Ok?
  {
    hide DiskOk, SyncOk, ReplicasOk, Apply, Chain, ImageOf;
  }

  lemma RunNone(env: Env, s: State)
    ensures Run(env, s, []) == s
  {
  }
}
