/** The reference control plane: nodes that vote and log, links, leases and execution grants. */
module Control {
  import opened Wire
  import opened Outcomes
  import opened Tasks

  datatype NodeKind = Full | Witness
  datatype Role = LeaderRole | FollowerRole | WitnessRole

  datatype RecordKind =
    | Membership | GlobalTask | Assignment | PluginGeneration | ResourceMetadata
    | ManagementConfig | ExecutionGrant | ResultCommit | Reconciliation

  datatype ControlRecord = ControlRecord(id: string, kind: RecordKind, metadata: map<string, string>)

  datatype Entry = Entry(index: u64, term: u64, epoch: u64, record: ControlRecord)

  type EntryLog = seq<Entry>

  datatype ControlNode = ControlNode(kind: NodeKind, role: Role, term: u64, votedFor: Option<NodeId>, log: EntryLog, alive: bool)

  type Nodes = map<NodeId, ControlNode>

  datatype Lease = Lease(leader: NodeId, term: u64, issued: u64, until: u64)

  datatype Grant = Grant(
    task: TaskId, attempt: u32, worker: NodeId, term: u64, epoch: u64, issued: u64, until: u64, irreversible: bool)

  type Grants = map<TaskId, Grant>

  /** `history` is auxiliary: the entries whose proposals succeeded, in order. */
  datatype Cluster = Cluster(
    nodes: Nodes,
    links: map<set<NodeId>, bool>,
    leader: Option<NodeId>,
    lease: Option<Lease>,
    epoch: u64,
    grants: Grants,
    history: EntryLog)

  // ----- Queries -----

  function LastIndex(log: EntryLog): u64 {
    if log == [] then 0 else log[|log| - 1].index
  }

  function Quorum(c: Cluster): nat {
    |c.nodes| / 2 + 1
  }

  predicate Connected(c: Cluster, a: NodeId, b: NodeId) {
    a == b || ({a, b} in c.links ==> c.links[{a, b}])
  }

  /** The live nodes that an observer can reach; every node votes. */
  function Reachable(c: Cluster, observer: NodeId): set<NodeId> {
    set id <- c.nodes | c.nodes[id].alive && Connected(c, observer, id)
  }

  predicate HasLeaderQuorum(c: Cluster, observer: NodeId) {
    && c.leader == Some(observer) && observer in c.nodes && c.nodes[observer].alive
    && |Reachable(c, observer)| >= Quorum(c)
  }

  function CurrentTerm(c: Cluster): u64 {
    if c.leader.Some? && c.leader.value in c.nodes then c.nodes[c.leader.value].term else 0
  }

  predicate ValidAt(issued: u64, until: u64, tick: u64) {
    issued <= tick <= until
  }

  datatype Operation =
    | Query | LocalWork | ContinueGranted | DurableWrite | MembershipChange | GenerationSwitch | IrreversibleEffect

  function Authorize(c: Cluster, observer: NodeId, op: Operation, grant: Option<Grant>, tick: u64): Result<()> {
    match op
    case Query => Ok(())
    case LocalWork => Ok(())
    case ContinueGranted =>
      if grant.None? || grant.value.worker != observer || !ValidAt(grant.value.issued, grant.value.until, tick) then Err(GrantExpired)
      else ValidateResult(c, grant.value, tick)
    case _ =>
      if !HasLeaderQuorum(c, observer) then Err(QuorumLost)
      else if c.lease.Some? && c.lease.value.leader == observer && c.lease.value.term == CurrentTerm(c)
              && ValidAt(c.lease.value.issued, c.lease.value.until, tick)
      then Ok(())
      else Err(ControlLeaseExpired)
  }

  /** `validate_result`: only the live grant of a task is honoured. */
  function ValidateResult(c: Cluster, g: Grant, tick: u64): Result<()> {
    if !ValidAt(g.issued, g.until, tick) then Err(GrantExpired)
    else if g.task !in c.grants || c.grants[g.task] != g then Err(Fenced)
    else Ok(())
  }

  // ----- Elections -----

  ghost function MaxTerm(nodes: Nodes): (m: u64)
    ensures forall id <- nodes :: nodes[id].term <= m
    ensures nodes == map[] ==> m == 0
    ensures nodes != map[] ==> exists id <- nodes :: nodes[id].term == m
    decreases |nodes|
  {
    if nodes == map[] then 0
    else
      var id :| id in nodes;
      var rest := nodes - {id};
      assert |rest| < |nodes| by { assert nodes.Keys == rest.Keys + {id}; }
      var m := MaxTerm(rest);
      assert forall other <- nodes :: other == id || other in rest;
      if nodes[id].term > m || rest == map[] then nodes[id].term else m
  }

  function Voters(c: Cluster, candidate: NodeId): set<NodeId>
    requires candidate in c.nodes
  {
    set id <- c.nodes | c.nodes[id].alive && Connected(c, candidate, id)
                        && LastIndex(c.nodes[id].log) <= LastIndex(c.nodes[candidate].log)
  }

  function VotedNode(n: ControlNode, self: bool, candidate: NodeId, term: u64): ControlNode {
    n.(term := term, votedFor := Some(candidate),
       role := if n.kind.Witness? then WitnessRole else if self then LeaderRole else FollowerRole)
  }

  ghost function Elect(c: Cluster, candidate: NodeId): (Cluster, Result<u64>) {
    if candidate !in c.nodes || !c.nodes[candidate].alive || !c.nodes[candidate].kind.Full? then (c, Err(WorkerUnavailable))
    else
      var term := SatAdd(MaxTerm(c.nodes), 1);
      var voters := Voters(c, candidate);
      if |voters| < Quorum(c) then (c.(leader := None), Err(QuorumLost))
      else
        var nodes := map id <- c.nodes ::
          if id in voters then VotedNode(c.nodes[id], id == candidate, candidate, term) else c.nodes[id];
        (c.(nodes := nodes, leader := Some(candidate), lease := None), Ok(term))
  }

  // ----- Membership -----

  function SetAlive(c: Cluster, id: NodeId, alive: bool): Cluster {
    if id !in c.nodes then c
    else
      var c' := c.(nodes := c.nodes[id := c.nodes[id].(alive := alive)]);
      if !alive && c.leader == Some(id) then c'.(leader := None, lease := None) else c'
  }

  /** The links of a node with others, all up or all down. */
  function Links(id: NodeId, others: set<NodeId>, up: bool): map<set<NodeId>, bool> {
    map other <- others :: {id, other} := up
  }

  function Isolate(c: Cluster, id: NodeId, isolated: bool): Cluster {
    if id !in c.nodes then c
    else
      var c' := c.(links := c.links + Links(id, c.nodes.Keys - {id}, !isolated));
      if isolated && c.leader == Some(id) then c'.(leader := None, lease := None) else c'
  }

  /** `recover`: a node that returns copies the log, term and vote of the leader it can reach. */
  function Recover(c: Cluster, id: NodeId): Cluster {
    if id !in c.nodes then c
    else
      var c' := SetAlive(c, id, true);
      if c'.leader.None? || c'.leader.value !in c'.nodes || !Connected(c', id, c'.leader.value) then c'
      else
        var leader := c'.leader.value;
        var source, node := c'.nodes[leader], c'.nodes[id];
        c'.(nodes := c'.nodes[id := node.(log := source.log, term := source.term, votedFor := Some(leader),
                                          role := if node.kind.Full? then FollowerRole else WitnessRole)])
  }

  // ----- Writes -----

  const MAX_RECORD: nat := 65536

  /** `recordSize` is the length of a record's JSON. */
  datatype ControlEnv = ControlEnv(recordSize: ControlRecord -> nat)

  function NextEntry(c: Cluster, leader: NodeId, record: ControlRecord): Entry
    requires leader in c.nodes
  {
    Entry(SatAdd(LastIndex(c.nodes[leader].log), 1), CurrentTerm(c), SatAdd(c.epoch, 1), record)
  }

  function Appended(nodes: Nodes, ids: set<NodeId>, e: Entry): Nodes {
    map id <- nodes :: if id in ids then nodes[id].(log := nodes[id].log + [e]) else nodes[id]
  }

  /** `propose`; `failed` are the nodes that could not persist the entry. */
  function Propose(env: ControlEnv, c: Cluster, leader: NodeId, record: ControlRecord, failed: set<NodeId>): (Cluster, Result<Entry>) {
    if c.leader != Some(leader) then (c, Err(NotLeader))
    else if !HasLeaderQuorum(c, leader) then (c, Err(QuorumLost))
    else if env.recordSize(record) > MAX_RECORD then (c, Err(CapacityExceeded))
    else
      var entry := NextEntry(c, leader, record);
      var persisted := Reachable(c, leader) - failed;
      if |persisted| < Quorum(c) then (c, Err(QuorumLost))
      else (c.(nodes := Appended(c.nodes, persisted, entry), epoch := entry.epoch, history := c.history + [entry]), Ok(entry))
  }

  function Renew(c: Cluster, leader: NodeId, tick: u64, ticks: u64): Cluster {
    if ticks == 0 || !HasLeaderQuorum(c, leader) then c
    else c.(lease := Some(Lease(leader, CurrentTerm(c), tick, SatAdd(tick, ticks))))
  }

  // ----- Decimal text -----

  function Digit(n: nat): char
    requires n < 10
  {
    ('0' as int + n) as char
  }

  function ToText(n: nat): (s: string)
    ensures s != []
  {
    if n < 10 then [Digit(n)] else ToText(n / 10) + [Digit(n % 10)]
  }

  predicate IsDigit(c: char) {
    '0' <= c <= '9'
  }

  function DigitsValue(s: string): Option<nat> {
    if s == [] then Some(0)
    else
      var last := s[|s| - 1];
      var start := DigitsValue(s[..|s| - 1]);
      if !IsDigit(last) || start.None? then None else Some(10 * start.value + (last as int - '0' as int))
  }

  /** `str::parse` of an unsigned integer below `limit`. */
  function ParseText(s: string, limit: nat): (r: Option<nat>)
    ensures r.Some? ==> r.value < limit
  {
    var digits := if s != [] && s[0] == '+' then s[1..] else s;
    var value := DigitsValue(digits);
    if digits == [] || value.None? || value.value >= limit then None else value
  }

  function BoolText(b: bool): string {
    if b then "true" else "false"
  }

  // ----- Grants -----

  function GrantRecord(g: Grant): ControlRecord {
    ControlRecord("grant:" + g.task + ":" + ToText(g.epoch), ExecutionGrant, map[
      "global_task_id" := g.task,
      "attempt" := ToText(g.attempt),
      "worker_node" := g.worker,
      "issued_tick" := ToText(g.issued),
      "valid_until_tick" := ToText(g.until),
      "irreversible_effects" := BoolText(g.irreversible)])
  }

  function Number(m: map<string, string>, key: string, limit: nat): (r: Option<nat>)
    ensures r.Some? ==> r.value < limit
  {
    if key in m then ParseText(m[key], limit) else None
  }

  /** The grant that a logged record stands for, or nothing when its metadata is corrupt. */
  function ParseGrant(e: Entry): Option<Grant> {
    var m := e.record.metadata;
    var attempt, issued, until := Number(m, "attempt", U32_LIMIT), Number(m, "issued_tick", U64_LIMIT), Number(m, "valid_until_tick", U64_LIMIT);
    if "global_task_id" !in m || "worker_node" !in m || "irreversible_effects" !in m || attempt.None? || issued.None? || until.None? then None
    else if m["irreversible_effects"] != "true" && m["irreversible_effects"] != "false" then None
    else Some(Grant(m["global_task_id"], attempt.value, m["worker_node"], e.term, e.epoch, issued.value, until.value,
                    m["irreversible_effects"] == "true"))
  }

  /** The fold of `rebuild_grants` over one log. */
  function RebuildGrants(log: EntryLog): Result<Grants> {
    if log == [] then Ok(map[])
    else
      var e := log[|log| - 1];
      match RebuildGrants(log[..|log| - 1])
      case Err(x) => Err(x)
      case Ok(grants) =>
        if !e.record.kind.ExecutionGrant? then Ok(grants)
        else
          match ParseGrant(e)
          case None => Err(Corrupt)
          case Some(g) => Ok(grants[g.task := g])
  }

  function NewGrant(c: Cluster, task: TaskId, attempt: u32, worker: NodeId, tick: u64, ticks: u64, irreversible: bool): Grant {
    Grant(task, attempt, worker, CurrentTerm(c), SatAdd(c.epoch, 1), tick, SatAdd(tick, ticks), irreversible)
  }

  function IssueGrant(
    env: ControlEnv, c: Cluster, leader: NodeId, task: TaskId, attempt: u32, worker: NodeId,
    tick: u64, ticks: u64, irreversible: bool, failed: set<NodeId>): (Cluster, Result<Grant>)
  {
    var op := if irreversible then IrreversibleEffect else DurableWrite;
    if attempt == 0 || ticks == 0 then (c, Err(InvalidConfig))
    else if Authorize(c, leader, op, None, tick).Err? then (c, Err(Authorize(c, leader, op, None, tick).error))
    else
      var g := NewGrant(c, task, attempt, worker, tick, ticks, irreversible);
      var (c', r) := Propose(env, c, leader, GrantRecord(g), failed);
      if r.Err? then (c', Err(r.error)) else (c'.(grants := c'.grants[task := g]), Ok(g))
  }

  // ----- Reopening -----

  predicate LongestLog(nodes: Nodes, id: NodeId) {
    id in nodes && forall other <- nodes :: LastIndex(nodes[other].log) <= LastIndex(nodes[id].log)
  }

  /** The order of node names in a `BTreeMap`. */
  predicate TextLe(a: string, b: string)
    decreases |a|
  {
    a == [] || (b != [] && (a[0] < b[0] || (a[0] == b[0] && TextLe(a[1..], b[1..]))))
  }

  lemma {:induction false} TextTotal(a: string, b: string)
    ensures TextLe(a, b) || TextLe(b, a)
    decreases |a|
  {
    if a != [] && b != [] {
      TextTotal(a[1..], b[1..]);
    }
  }

  lemma {:induction false} TextTransitive(a: string, b: string, c: string)
    requires TextLe(a, b) && TextLe(b, c)
    ensures TextLe(a, c)
    decreases |a|
  {
    if a != [] && a[0] == b[0] == c[0] {
      TextTransitive(a[1..], b[1..], c[1..]);
    }
  }

  /** The log that `max_by_key` picks: of the longest ones, that of the last node in key order. */
  predicate Chosen(nodes: Nodes, id: NodeId) {
    LongestLog(nodes, id) && forall other <- nodes :: LastIndex(nodes[other].log) == LastIndex(nodes[id].log) ==> TextLe(other, id)
  }

  ghost predicate IsMaxEpoch(nodes: Nodes, m: u64) {
    && (forall id <- nodes, e <- nodes[id].log :: e.epoch <= m)
    && (m == 0 || exists id <- nodes, e <- nodes[id].log :: e.epoch == m)
  }

  function ReopenedNode(n: ControlNode): ControlNode {
    n.(alive := true, role := if n.kind.Full? then FollowerRole else WitnessRole)
  }

  /** `open` over the nodes' files; grants come from one node's log. */
  function Reopen(c: Cluster, source: NodeId, epoch: u64): Result<Cluster>
    requires source in c.nodes
  {
    match RebuildGrants(c.nodes[source].log)
    case Err(e) => Err(e)
    case Ok(grants) =>
      Ok(Cluster(map id <- c.nodes :: ReopenedNode(c.nodes[id]), map[], None, None, epoch, grants, c.history))
  }

  // ----- Runs -----

  datatype ControlEvent =
    | ElectEvent(candidate: NodeId)
    | AliveEvent(node: NodeId, alive: bool)
    | IsolateEvent(node: NodeId, isolated: bool)
    | RecoverEvent(node: NodeId)
    | RenewEvent(leader: NodeId, tick: u64, ticks: u64)
    | ProposeEvent(leader: NodeId, record: ControlRecord, failed: set<NodeId>)
    | GrantEvent(leader: NodeId, task: TaskId, attempt: u32, worker: NodeId, tick: u64, ticks: u64,
                 irreversible: bool, failed: set<NodeId>)
    | ReopenEvent(source: NodeId, epoch: u64)

  ghost function Next(env: ControlEnv, c: Cluster, e: ControlEvent): Cluster {
    match e
    case ElectEvent(candidate) => Elect(c, candidate).0
    case AliveEvent(node, alive) => SetAlive(c, node, alive)
    case IsolateEvent(node, isolated) => Isolate(c, node, isolated)
    case RecoverEvent(node) => Recover(c, node)
    case RenewEvent(leader, tick, ticks) => Renew(c, leader, tick, ticks)
    case ProposeEvent(leader, record, failed) => Propose(env, c, leader, record, failed).0
    case GrantEvent(leader, task, attempt, worker, tick, ticks, irreversible, failed) =>
      IssueGrant(env, c, leader, task, attempt, worker, tick, ticks, irreversible, failed).0
    case ReopenEvent(source, epoch) =>
      if !Chosen(c.nodes, source) || !IsMaxEpoch(c.nodes, epoch) then c
      else
        (match Reopen(c, source, epoch)
         case Err(_) => c
         case Ok(c') => c')
  }

  ghost function RunFrom(env: ControlEnv, c: Cluster, events: seq<ControlEvent>): Cluster {
    if events == [] then c else Next(env, RunFrom(env, c, events[..|events| - 1]), events[|events| - 1])
  }

  function FreshNode(kind: NodeKind): ControlNode {
    ControlNode(kind, if kind.Full? then FollowerRole else WitnessRole, 0, None, [], true)
  }

  /** `open` of new nodes: three full ones, or two and a witness, at least. */
  predicate Admissible(kinds: map<NodeId, NodeKind>) {
    var full := |set id <- kinds | kinds[id].Full?|;
    full >= 3 || (full >= 2 && |kinds| > full)
  }

  function Start(kinds: map<NodeId, NodeKind>): Cluster {
    Cluster(map id <- kinds :: FreshNode(kinds[id]), map[], None, None, 0, map[], [])
  }
}
