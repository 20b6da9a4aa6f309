/**
 The registry, its disk and its file replicas as one step system.  Every fault is part of an
 event: a write that fails, a replica that refuses, a process that dies with any number of bytes
 of the current write on disk.
 */
module Runs {
  import opened Wire
  import opened Outcomes
  import opened Tasks
  import opened Frames
  import opened Journal
  import opened Replicas

  /**
   `synced` is the length of the log that a crash cannot lose.  The last four fields are
   auxiliary: no step reads them to decide what the registry does.
   */
  datatype State = State(
    refused: bool,
    image: Image,
    pending: Option<Transaction>,
    snapshot: Option<Bytes>,
    wal: Bytes,
    synced: nat,
    replicas: seq<Replica>,
    history: History,
    base: nat,
    stale: seq<Frame>,
    settled: nat)

  /** The write that a crash interrupts. */
  datatype Writing = Nothing | WritingPrepare(call: Call) | WritingCommit

  datatype Event =
    | PrepareStep(call: Call, written: bool)
    | ReplicateStep(replica: nat, written: bool)
    | CommitStep(written: bool)
    | SnapshotStep
    | TruncateStep
    | CrashStep(writing: Writing, cut: nat)
    | ReopenReplicaStep(replica: nat, landed: nat)

  function Init(env: Env): State {
    State(false, EMPTY, None, None, [], 0, seq(env.replicas, _ => NEW_REPLICA), [], 0, [], 0)
  }

  // ----- Opening a transaction -----

  /** The transaction that a request opens when none is pending. */
  function Draft(env: Env, image: Image, m: Mutation): Result<Transaction> {
    var version := VersionOf(image, m.Target());
    var json := env.codec.mutationJson(m);
    match Apply(image.records, m, env.options.maxTasks)
    case Err(e) => Err(e)
    case Ok(_) =>
      if |json| > env.options.maxRecordBytes then Err(CapacityExceeded)
      else if image.lastIndex + 1 >= U64_LIMIT || version + 1 >= U64_LIMIT then Err(CapacityExceeded)
      else
        var id := ChainId(env.codec, image.lastId, image.lastIndex + 1, version, json);
        var t := Transaction(id, image.lastIndex + 1, image.lastId, m.Target(), version, version + 1, m);
        if |env.codec.transactionJson(t)| > env.options.maxRecordBytes || !Fits(PrepareFrame(env.codec, t))
        then Err(CapacityExceeded)
        else Ok(t)
  }

  function DraftCall(env: Env, image: Image, call: Call): Result<Transaction> {
    match Plan(image.records, call, env.replicas)
    case Err(e) => Err(e)
    case Ok(request) => Draft(env, image, request.mutation)
  }

  predicate Syncs(image: Image, t: Transaction) {
    NeedsSync(image.records, t.mutation)
  }

  // ----- Steps -----

  function AfterPrepare(env: Env, s: State, t: Transaction): State {
    var wal := s.wal + Encode(env.codec.sha, PrepareFrame(env.codec, t));
    s.(pending := Some(t), wal := wal,
       synced := if Syncs(s.image, t) then |wal| else s.synced,
       settled := if Syncs(s.image, t) then |WalFrames(env.codec, s)| + 1 else s.settled)
  }

  function AfterCommit(env: Env, s: State, t: Transaction): State {
    var wal := s.wal + Encode(env.codec.sha, CommitFrame(t));
    s.(pending := None, wal := wal, image := Publish(env, s.image, t), history := s.history + [t],
       synced := if Syncs(s.image, t) then |wal| else s.synced,
       settled := if Syncs(s.image, t) then |WalFrames(env.codec, s)| + 1 else s.settled)
  }

  /** The snapshot file, or nothing when the image is too large to be written. */
  function SnapshotFile(env: Env, image: Image): Option<Bytes> {
    var json := env.codec.snapshotJson(SnapshotRecord(FORMAT, image));
    var frame := Frame(Snapshot, image.lastIndex, json);
    if |json| > env.options.maxRecordBytes * (if |image.records| == 0 then 1 else |image.records|) then None
    else if !Fits(frame) then None
    else Some(Encode(env.codec.sha, frame))
  }

  /** `load_snapshot`. */
  function LoadSnapshot(env: Env, file: Option<Bytes>): Result<Option<SnapshotRecord>> {
    if file.None? then Ok(None)
    else
      var bytes := file.value;
      var limit := if |bytes| > env.options.maxRecordBytes then |bytes| else env.options.maxRecordBytes;
      match Decode(env.codec.sha, bytes, 0, limit)
      case Panics => Err(Panic)
      case Incomplete => Err(Corrupt)
      case Rejected => Err(Corrupt)
      case Decoded(frame, end) =>
        if !frame.kind.Snapshot? || end != |bytes| then Err(Corrupt)
        else
          match env.codec.parseSnapshot(frame.payload)
          case None => Err(Corrupt)
          case Some(s) => if s.image.lastIndex != frame.index then Err(Corrupt) else Ok(Some(s))
  }

  /** `open_with_options` on a snapshot file and log bytes. */
  function OpenFiles(env: Env, snapshot: Option<Bytes>, bytes: Bytes): Result<Recovered> {
    match LoadSnapshot(env, snapshot)
    case Err(e) => Err(e)
    case Ok(s) => Replay(env, s, bytes)
  }

  // ----- The log as a function of what was committed -----

  /** Everything committed, and the prepared transaction. */
  function Known(s: State): History {
    if s.pending.Some? then s.history + [s.pending.value] else s.history
  }

  /** The frames in the log: the full log but for the commit of a pending transaction. */
  function WalFrames(codec: Codec, s: State): seq<Frame> {
    if s.base > |s.history| then []
    else
      var all := Log(codec, s.stale, s.base, Known(s));
      if s.pending.Some? then all[..|all| - 1] else all
  }

  // ----- Crashes -----

  function Interrupted(env: Env, s: State, w: Writing): Option<Frame> {
    match w
    case Nothing => None
    case WritingCommit => if s.pending.Some? then Some(CommitFrame(s.pending.value)) else None
    case WritingPrepare(call) =>
      if s.pending.Some? then None
      else
        match DraftCall(env, s.image, call)
        case Err(_) => None
        case Ok(t) => Some(PrepareFrame(env.codec, t))
  }

  /** The history if the interrupted write had completed. */
  function KnownWith(env: Env, s: State, w: Writing): History {
    if w.WritingPrepare? && s.pending.None? then
      match DraftCall(env, s.image, w.call)
      case Err(_) => Known(s)
      case Ok(t) => Known(s) + [t]
    else Known(s)
  }

  /** The log with the interrupted write. */
  function FullFile(env: Env, s: State, w: Writing): Bytes {
    match Interrupted(env, s, w)
    case None => s.wal
    case Some(f) => s.wal + Encode(env.codec.sha, f)
  }

  /** The bytes that survive: at least the synced ones, at most those that were written. */
  function Survives(env: Env, s: State, w: Writing, cut: nat): Bytes {
    var file := FullFile(env, s, w);
    if cut >= |file| then file
    else if cut < s.synced <= |file| then file[..s.synced]
    else file[..cut]
  }

  function Reopened(env: Env, s: State, known: History, bytes: Bytes): State
    requires s.base <= |known|
  {
    match OpenFiles(env, s.snapshot, bytes)
    case Err(_) => s.(refused := true)
    case Ok(r) =>
      var frames := Whole(Log(env.codec, s.stale, s.base, known), |bytes|);
      s.(image := r.image, pending := r.pending, wal := if r.kept <= |bytes| then bytes[..r.kept] else bytes,
         synced := r.kept, settled := frames,
         history := if r.image.lastIndex <= |known| then known[..r.image.lastIndex] else known,
         stale := if frames < |s.stale| then s.stale[..frames] else s.stale)
  }

  // ----- Replica crashes -----

  /** A replica that dies with `landed` bytes of the pending pair on disk and is reopened. */
  function ReopenReplica(codec: Codec, rep: Replica, pending: Option<Transaction>, landed: nat): Replica {
    var writes := pending.Some? && pending.value.index !in rep.committed;
    var extra := if writes then EncodeAll(codec.sha, Pair(codec, pending.value)) else [];
    var file := rep.wal + (if landed <= |extra| then extra[..landed] else extra);
    match ScanLog(codec, file)
    case Err(_) => rep.(open := false)
    case Ok((ids, kept)) =>
      Replica(true, file[..kept], ids, if kept > |rep.wal| && writes then rep.acked + [pending.value] else rep.acked)
  }

  // ----- The step function -----

  /** The pending transaction when it is one that replicas are asked to store. */
  function Offered(s: State): Option<Transaction> {
    if s.pending.Some? && Syncs(s.image, s.pending.value) then s.pending else None
  }

  function Step(env: Env, s: State, e: Event): State {
    if s.refused || s.base > |s.history| then s
    else
      match e
      case PrepareStep(call, written) =>
        if s.pending.Some? || !written || DraftCall(env, s.image, call).Err? then s
        else AfterPrepare(env, s, DraftCall(env, s.image, call).value)
      case ReplicateStep(r, written) =>
        if Offered(s).None? || r >= |s.replicas| then s
        else
          (match ReplicaCommit(env.codec, s.replicas[r], Offered(s).value, written)
           case Err(_) => s
           case Ok(rep) => s.(replicas := s.replicas[r := rep]))
      case CommitStep(written) =>
        if s.pending.None? || !written then s else AfterCommit(env, s, s.pending.value)
      case SnapshotStep =>
        if s.pending.Some? || SnapshotFile(env, s.image).None? then s
        else s.(snapshot := SnapshotFile(env, s.image), base := |s.history|, stale := WalFrames(env.codec, s))
      case TruncateStep =>
        if s.pending.Some? || s.snapshot.None? || s.base != |s.history| then s
        else s.(wal := [], synced := 0, stale := [], settled := 0)
      case CrashStep(writing, cut) =>
        Reopened(env, s, KnownWith(env, s, writing), Survives(env, s, writing, cut))
      case ReopenReplicaStep(r, landed) =>
        if r >= |s.replicas| then s
        else s.(replicas := s.replicas[r := ReopenReplica(env.codec, s.replicas[r], Offered(s), landed)])
  }

  function Run(env: Env, s: State, events: seq<Event>): State {
    if events == [] then s else Step(env, Run(env, s, events[..|events| - 1]), events[|events| - 1])
  }

  // ----- The invariant -----

  predicate HistoryOk(env: Env, s: State) {
    && Chain(env, s.history) && s.image == ImageOf(env, s.history)
    && |s.history| < U64_LIMIT
    && (s.pending.Some? ==> Genuine(env, s.image, s.pending.value))
  }

  predicate DiskOk(env: Env, s: State) {
    && s.base <= |s.history|
    && Stale(s.stale, s.base) && Readable(env, s.stale)
    && s.wal == EncodeAll(env.codec.sha, WalFrames(env.codec, s))
    && (if s.snapshot.None? then s.base == 0
        else s.snapshot == SnapshotFile(env, ImageOf(env, s.history[..s.base])))
  }

  /** The frames that a crash cannot lose, and the transactions that must be among them. */
  predicate SyncOk(env: Env, s: State) {
    var frames := WalFrames(env.codec, s);
    && s.settled <= |frames|
    && s.synced == |EncodeAll(env.codec.sha, frames[..s.settled])|
    && (forall i :: s.base <= i < |s.history| && SyncsAt(env, s.history, i) ==>
          |s.stale| + 2 * (i - s.base) + 2 <= s.settled)
    && (Offered(s).Some? ==> s.settled == |frames|)
  }

  /** Whether the transaction at position `i` of a history was one that syncs. */
  predicate SyncsAt(env: Env, h: History, i: nat)
    requires i < |h|
  {
    Syncs(ImageOf(env, h[..i]), h[i])
  }

  /** A transaction is the one at its own index of what the registry knows, and it syncs. */
  predicate Belongs(env: Env, known: History, t: Transaction) {
    1 <= t.index <= |known| && known[t.index - 1] == t && SyncsAt(env, known, t.index - 1)
  }

  predicate ReplicaOk(env: Env, known: History, rep: Replica) {
    && rep.wal == EncodeAll(env.codec.sha, Pairs(env.codec, rep.acked))
    && rep.committed == Ids(rep.acked)
    && Rising(rep.acked)
    && (forall t <- rep.acked :: Belongs(env, known, t))
  }

  predicate ReplicasOk(env: Env, s: State) {
    && |s.replicas| == env.replicas
    && (forall i :: 0 <= i < |s.replicas| ==> ReplicaOk(env, Known(s), s.replicas[i]))
  }

  predicate Inv(env: Env, s: State) {
    HistoryOk(env, s) && DiskOk(env, s) && SyncOk(env, s) && ReplicasOk(env, s)
  }
}
