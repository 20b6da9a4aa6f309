/** Links, liveness and majorities: who reaches whom, who can lead, and who cannot while cut off. */
module ControlLinks {
  import opened Wire
  import opened Outcomes
  import opened Tasks
  import opened Control
  import opened ControlSafety
  import opened ControlLeases

  // ----- Isolation -----

  /** Isolating cuts, and healing restores, exactly the node's own links. */
  lemma IsolateConnects(c: Cluster, id: NodeId, isolated: bool, p: NodeId, q: NodeId)
    requires id in c.nodes && p in c.nodes && q in c.nodes
    ensures Connected(Isolate(c, id, isolated), p, q) <==>
            p == q || (if p == id || q == id then !isolated else Connected(c, p, q))
  {
    var own := Links(id, c.nodes.Keys - {id}, !isolated);
    var links := c.links + own;
    if p != q && (p == id || q == id) {
      var other := if p == id then q else p;
      assert {p, q} == {id, other} && {id, other} in own && own[{id, other}] == !isolated;
      assert links[{p, q}] == !isolated;
    } else if p != q {
      assert id !in {p, q};
      assert {p, q} !in own;
    }
  }

  lemma IsolateNodes(c: Cluster, id: NodeId, isolated: bool)
    ensures var c' := Isolate(c, id, isolated);
            && c'.nodes == c.nodes && Quorum(c') == Quorum(c) && c'.epoch == c.epoch && c'.grants == c.grants && c'.history == c.history
            && c'.leader == (if id in c.nodes && isolated && c.leader == Some(id) then None else c.leader)
  {
    hide Links;
  }

  /** An isolated node reaches itself alone, and every other node reaches what it did before without it. */
  lemma IsolatedAlone(c: Cluster, id: NodeId, q: NodeId)
    requires id in c.nodes && q in c.nodes
    ensures Reachable(Isolate(c, id, true), q) ==
            if q == id then (if c.nodes[id].alive then {id} else {}) else Reachable(c, q) - {id}
  {
    hide Isolate, Connected;
    var c' := Isolate(c, id, true);
    IsolateNodes(c, id, true);
    forall p | p in c.nodes
      ensures Connected(c', q, p) <==> q == p || (q != id && p != id && Connected(c, q, p))
    {
      IsolateConnects(c, id, true, q, p);
    }
    forall p | p in c.nodes && p == q
      ensures Connected(c, q, p)
    {
      Reflexive(c, p);
    }
  }

  lemma Reflexive(c: Cluster, p: NodeId)
    ensures Connected(c, p, p)
  {
  }

  /** A healed node reaches every live node, and every other node reaches it again if it lives. */
  lemma HealedReaches(c: Cluster, id: NodeId, q: NodeId)
    requires id in c.nodes && q in c.nodes
    ensures Reachable(Isolate(c, id, false), q) ==
            if q == id then set p <- c.nodes | c.nodes[p].alive else Reachable(c, q) + (if c.nodes[id].alive then {id} else {})
  {
    hide Isolate, Connected;
    var c' := Isolate(c, id, false);
    IsolateNodes(c, id, false);
    forall p | p in c.nodes
      ensures Connected(c', q, p) <==> q == p || q == id || p == id || Connected(c, q, p)
    {
      IsolateConnects(c, id, false, q, p);
    }
    forall p | p in c.nodes && p == q
      ensures Connected(c, q, p)
    {
      Reflexive(c, p);
    }
  }

  // ----- What a node that is cut off cannot do -----

  /** No link of the node is up. */
  predicate Alone(c: Cluster, id: NodeId) {
    id in c.nodes && forall q <- c.nodes :: q != id ==> !Connected(c, id, q)
  }

  lemma IsolatedIsAlone(c: Cluster, id: NodeId)
    requires id in c.nodes
    ensures Alone(Isolate(c, id, true), id)
  {
    hide Isolate, Connected;
    var c' := Isolate(c, id, true);
    IsolateNodes(c, id, true);
    forall q | q in c.nodes && q != id
      ensures !Connected(c', id, q)
    {
      IsolateConnects(c, id, true, id, q);
    }
  }

  lemma AloneReaches(c: Cluster, id: NodeId)
    requires Alone(c, id) && |c.nodes| >= 2
    ensures Reachable(c, id) <= {id} && |Reachable(c, id)| < Quorum(c) && Voters(c, id) <= Reachable(c, id) && |Voters(c, id)| < Quorum(c)
  {
    hide LastIndex;
    assert Reachable(c, id) <= {id};
    SubsetSize(Reachable(c, id), {id});
    SubsetSize(Voters(c, id), Reachable(c, id));
  }

  /** A node that is cut off from the rest of two or more can neither propose, renew, write, grant nor win. */
  lemma AlonePowerless(
    env: ControlEnv, c: Cluster, id: NodeId, record: ControlRecord, failed: set<NodeId>, tick: u64, ticks: u64, op: Operation,
    task: TaskId, attempt: u32, worker: NodeId, irreversible: bool)
    requires Alone(c, id) && |c.nodes| >= 2 && IsWrite(op)
    ensures Propose(env, c, id, record, failed).0 == c && Propose(env, c, id, record, failed).1.Err?
    ensures Renew(c, id, tick, ticks) == c && Authorize(c, id, op, None, tick) == Err(QuorumLost)
    ensures var (c', r) := IssueGrant(env, c, id, task, attempt, worker, tick, ticks, irreversible, failed); c' == c && r.Err?
    ensures Elect(c, id).1.Err?
  {
    hide Reachable, Quorum, Voters, MaxTerm, GrantRecord;
    AloneReaches(c, id);
  }

  /** Events that bring no link back. */
  predicate NoHealing(e: ControlEvent) {
    !e.ReopenEvent? && !(e.IsolateEvent? && !e.isolated)
  }

  lemma SameLinks(c: Cluster, c': Cluster, id: NodeId)
    requires Alone(c, id) && c'.links == c.links && c'.nodes.Keys == c.nodes.Keys
    ensures Alone(c', id)
  {
  }

  lemma NextLinks(env: ControlEnv, c: Cluster, e: ControlEvent)
    requires !e.IsolateEvent? && !e.ReopenEvent?
    ensures var c' := Next(env, c, e); c'.links == c.links && c'.nodes.Keys == c.nodes.Keys
  {
    hide Reachable, Quorum, Voters, MaxTerm, GrantRecord, CurrentTerm, HasLeaderQuorum, NextEntry, Authorize, Connected;
    assert forall ids, x :: Appended(c.nodes, ids, x).Keys == c.nodes.Keys;
  }

  lemma CutsKeepAlone(c: Cluster, id: NodeId, other: NodeId)
    requires Alone(c, id)
    ensures Alone(Isolate(c, other, true), id)
  {
    hide Isolate, Connected;
    var c' := Isolate(c, other, true);
    IsolateNodes(c, other, true);
    if other in c.nodes {
      forall q | q in c.nodes && q != id
        ensures !Connected(c', id, q)
      {
        IsolateConnects(c, other, true, id, q);
      }
    } else {
      assert c' == c by { IsolateUnknown(c, other, true); }
    }
  }

  lemma IsolateUnknown(c: Cluster, id: NodeId, isolated: bool)
    requires id !in c.nodes
    ensures Isolate(c, id, isolated) == c
  {
  }

  lemma AloneNext(env: ControlEnv, c: Cluster, e: ControlEvent, id: NodeId)
    requires Alone(c, id) && |c.nodes| >= 2 && NoHealing(e) && c.leader != Some(id)
    ensures var c' := Next(env, c, e); Alone(c', id) && |c'.nodes| >= 2 && c'.leader != Some(id)
  {
    hide Alone, Isolate, Elect, SetAlive, Recover, Renew, Propose, IssueGrant;
    if e.IsolateEvent? {
      CutsKeepAlone(c, id, e.node);
      IsolateNodes(c, e.node, true);
    } else {
      NextLinks(env, c, e);
      SameLinks(c, Next(env, c, e), id);
      assert |Next(env, c, e).nodes.Keys| == |c.nodes.Keys|;
      NextLeader(env, c, e, id);
    }
  }

  /** Only an election makes a leader, and a node that is cut off wins none. */
  lemma NextLeader(env: ControlEnv, c: Cluster, e: ControlEvent, id: NodeId)
    requires Alone(c, id) && |c.nodes| >= 2 && !e.IsolateEvent? && !e.ReopenEvent? && c.leader != Some(id)
    ensures Next(env, c, e).leader != Some(id)
  {
    hide Alone, Isolate, Reachable, Quorum, Voters, MaxTerm, GrantRecord, CurrentTerm, HasLeaderQuorum, NextEntry, Authorize, Connected, Appended;
    AloneReaches(c, id);
  }

  /** However a run goes on, an isolated node never leads until some link is healed or the cluster is reopened. */
  lemma {:induction false} IsolatedNeverLeads(env: ControlEnv, c: Cluster, id: NodeId, events: seq<ControlEvent>)
    requires id in c.nodes && |c.nodes| >= 2 && forall e <- events :: NoHealing(e)
    ensures var c' := RunFrom(env, Isolate(c, id, true), events); Alone(c', id) && |c'.nodes| >= 2 && c'.leader != Some(id)
    decreases |events|
  {
    hide Alone, Isolate, Next, NoHealing;
    if events == [] {
      IsolatedIsAlone(c, id);
      IsolateNodes(c, id, true);
    } else {
      var n := |events| - 1;
      assert events[n] in events;
      IsolatedNeverLeads(env, c, id, events[..n]);
      AloneNext(env, RunFrom(env, Isolate(c, id, true), events[..n]), events[n], id);
    }
  }

  // ----- Links over whole runs -----

  /** The last isolation or healing that named one of two nodes, if any. */
  function LastWord(events: seq<ControlEvent>, p: NodeId, q: NodeId): Option<bool> {
    if events == [] then None
    else
      var e := events[|events| - 1];
      if e.IsolateEvent? && (e.node == p || e.node == q) then Some(e.isolated) else LastWord(events[..|events| - 1], p, q)
  }

  /**
   In every run without a reopening two nodes are linked exactly as the last word about either of
   them says.  A node that was isolated is therefore linked again with each node healed after it.
   */
  lemma {:induction false} LinksExactly(env: ControlEnv, c: Cluster, events: seq<ControlEvent>, p: NodeId, q: NodeId)
    requires p in c.nodes && q in c.nodes && p != q && forall e <- events :: !e.ReopenEvent?
    ensures var c' := RunFrom(env, c, events);
            && c'.nodes.Keys == c.nodes.Keys
            && (Connected(c', p, q) <==> match LastWord(events, p, q) case None => Connected(c, p, q) case Some(isolated) => !isolated)
    decreases |events|
  {
    hide Next, Connected;
    if events != [] {
      var n := |events| - 1;
      var mid, e := RunFrom(env, c, events[..n]), events[n];
      assert e in events;
      LinksExactly(env, c, events[..n], p, q);
      if e.IsolateEvent? {
        IsolateStep(env, mid, e, p, q);
      } else {
        NextLinks(env, mid, e);
        SameConnected(mid, Next(env, mid, e), p, q);
      }
    }
  }

  lemma SameConnected(c: Cluster, c': Cluster, p: NodeId, q: NodeId)
    requires c'.links == c.links
    ensures Connected(c', p, q) == Connected(c, p, q)
  {
  }

  lemma IsolateStep(env: ControlEnv, c: Cluster, e: ControlEvent, p: NodeId, q: NodeId)
    requires e.IsolateEvent? && p in c.nodes && q in c.nodes && p != q
    ensures var c' := Next(env, c, e);
            && c'.nodes.Keys == c.nodes.Keys
            && (Connected(c', p, q) <==> if e.node == p || e.node == q then !e.isolated else Connected(c, p, q))
  {
    hide Isolate, Connected;
    IsolateNodes(c, e.node, e.isolated);
    if e.node in c.nodes {
      IsolateConnects(c, e.node, e.isolated, p, q);
    } else {
      IsolateUnknown(c, e.node, e.isolated);
    }
  }

  // ----- Liveness -----

  /** A node that dies leaves everyone's reach, and one that returns joins that of the nodes linked with it. */
  lemma AliveReaches(c: Cluster, id: NodeId, alive: bool, q: NodeId)
    requires id in c.nodes
    ensures Reachable(SetAlive(c, id, alive), q) ==
            if alive && Connected(c, q, id) then Reachable(c, q) + {id} else Reachable(c, q) - {id}
  {
    var c' := SetAlive(c, id, alive);
    assert forall p :: Connected(c', q, p) == Connected(c, q, p);
  }

  /** A reopened cluster: every node lives and reaches every other, and nobody leads or holds a lease. */
  lemma ReopenReaches(c: Cluster, source: NodeId, epoch: u64, q: NodeId)
    requires source in c.nodes && Reopen(c, source, epoch).Ok?
    ensures var c' := Reopen(c, source, epoch).value;
            && Reachable(c', q) == c.nodes.Keys && c'.leader.None? && c'.lease.None? && c'.epoch == epoch
            && c'.nodes.Keys == c.nodes.Keys && forall id <- c.nodes :: c'.nodes[id].log == c.nodes[id].log && c'.nodes[id].term == c.nodes[id].term
  {
    hide RebuildGrants;
  }

  // ----- Leaders are full nodes -----

  /** A leader is a live full node, and exactly the witnesses have the witness role. */
  predicate RolesOk(c: Cluster) {
    && (c.leader.Some? ==> c.leader.value in c.nodes && c.nodes[c.leader.value].kind.Full? && c.nodes[c.leader.value].alive)
    && (forall id <- c.nodes :: c.nodes[id].role.WitnessRole? <==> c.nodes[id].kind.Witness?)
  }

  lemma SameRoles(c: Cluster, c': Cluster)
    requires RolesOk(c) && c'.nodes.Keys == c.nodes.Keys && (c'.leader == c.leader || c'.leader.None?)
    requires forall id <- c.nodes :: c'.nodes[id].kind == c.nodes[id].kind && c'.nodes[id].role == c.nodes[id].role && c'.nodes[id].alive == c.nodes[id].alive
    ensures RolesOk(c')
  {
  }

  lemma WriteRoles(env: ControlEnv, c: Cluster, leader: NodeId, record: ControlRecord, failed: set<NodeId>)
    requires RolesOk(c)
    ensures RolesOk(Propose(env, c, leader, record, failed).0)
  {
    hide RolesOk, HasLeaderQuorum, Reachable, Quorum, NextEntry;
    SameRoles(c, Propose(env, c, leader, record, failed).0);
  }

  lemma NextRoles(env: ControlEnv, c: Cluster, e: ControlEvent)
    requires RolesOk(c)
    ensures RolesOk(Next(env, c, e))
  {
    hide RolesOk, Elect, SetAlive, Isolate, Recover, Propose, Authorize, GrantRecord, RebuildGrants, HasLeaderQuorum, Chosen, IsMaxEpoch, CurrentTerm;
    match e
    case ElectEvent(candidate) => ElectRoles(c, candidate);
    case AliveEvent(node, alive) => AliveRoles(c, node, alive);
    case IsolateEvent(node, isolated) =>
      IsolateNodes(c, node, isolated);
      SameRoles(c, Isolate(c, node, isolated));
    case RecoverEvent(node) => RecoverRoles(c, node);
    case RenewEvent(leader, tick, ticks) => SameRoles(c, Renew(c, leader, tick, ticks));
    case ProposeEvent(leader, record, failed) => WriteRoles(env, c, leader, record, failed);
    case GrantEvent(leader, task, attempt, worker, tick, ticks, irreversible, failed) =>
      var record := GrantRecord(NewGrant(c, task, attempt, worker, tick, ticks, irreversible));
      WriteRoles(env, c, leader, record, failed);
      SameRoles(Propose(env, c, leader, record, failed).0, Propose(env, c, leader, record, failed).0.(grants := Next(env, c, e).grants));
    case ReopenEvent(source, epoch) => ReopenRoles(env, c, source, epoch);
  }

  lemma ElectRoles(c: Cluster, candidate: NodeId)
    requires RolesOk(c)
    ensures RolesOk(Elect(c, candidate).0)
  {
    hide MaxTerm, Voters, Quorum;
  }

  lemma AliveRoles(c: Cluster, id: NodeId, alive: bool)
    requires RolesOk(c)
    ensures RolesOk(SetAlive(c, id, alive))
  {
  }

  lemma RecoverRoles(c: Cluster, id: NodeId)
    requires RolesOk(c)
    ensures RolesOk(Recover(c, id))
  {
    hide Connected;
  }

  lemma ReopenRoles(env: ControlEnv, c: Cluster, source: NodeId, epoch: u64)
    requires RolesOk(c)
    ensures RolesOk(Next(env, c, ReopenEvent(source, epoch)))
  {
    hide RebuildGrants, TextLe, IsMaxEpoch;
  }

  /** In every run, whatever fails, the leader is a live full node: a witness votes and never leads. */
  lemma {:induction false} EveryLeaderFull(env: ControlEnv, kinds: map<NodeId, NodeKind>, events: seq<ControlEvent>)
    ensures RolesOk(RunFrom(env, Start(kinds), events))
    decreases |events|
  {
    hide RolesOk, Next;
    if events == [] {
      assert RolesOk(Start(kinds)) by { StartRoles(kinds); }
    } else {
      EveryLeaderFull(env, kinds, events[..|events| - 1]);
      NextRoles(env, RunFrom(env, Start(kinds), events[..|events| - 1]), events[|events| - 1]);
    }
  }

  lemma StartRoles(kinds: map<NodeId, NodeKind>)
    ensures RolesOk(Start(kinds))
  {
  }

  // ----- Majorities -----

  /** The nodes but one. */
  function Without(c: Cluster, lost: NodeId): set<NodeId> {
    c.nodes.Keys - {lost}
  }

  lemma KindsSplit(kinds: map<NodeId, NodeKind>)
    requires Admissible(kinds)
    ensures |kinds| >= 3 && |set id <- kinds | kinds[id].Full?| >= 2
  {
    var full := set id <- kinds | kinds[id].Full?;
    SubsetSize(full, kinds.Keys);
    assert |kinds.Keys| == |kinds|;
  }

  /**
   An admissible cluster keeps a majority with a full node in it when any one node is lost, and the
   majority is the least that does the voting safely: one fewer could be had twice over.
   */
  lemma AdmissibleTolerates(kinds: map<NodeId, NodeKind>, lost: NodeId)
    requires Admissible(kinds) && lost in kinds
    ensures var c := Start(kinds);
            && |Without(c, lost)| >= Quorum(c) && (exists id <- Without(c, lost) :: c.nodes[id].kind.Full?)
            && 2 * (Quorum(c) - 1) <= |c.nodes| < 2 * Quorum(c)
  {
    var c := Start(kinds);
    var full := set id <- kinds | kinds[id].Full?;
    KindsSplit(kinds);
    assert c.nodes.Keys == kinds.Keys;
    assert |c.nodes.Keys| == |c.nodes| && |kinds.Keys| == |kinds|;
    assert c.nodes.Keys == Without(c, lost) + {lost};
    if full <= {lost} {
      SubsetSize(full, {lost});
    } else {
      var id :| id in full && id !in {lost};
      assert c.nodes[id].kind.Full?;
    }
  }

  /** Where every live node is linked and a majority lives, the full nodes whose log is longest among the live ones are electable. */
  lemma Electable(c: Cluster, candidate: NodeId)
    requires candidate in c.nodes && c.nodes[candidate].alive && c.nodes[candidate].kind.Full?
    requires |Reachable(c, candidate)| >= Quorum(c)
    requires forall id <- Reachable(c, candidate) :: LastIndex(c.nodes[id].log) <= LastIndex(c.nodes[candidate].log)
    ensures var (c', r) := Elect(c, candidate);
            && r == Ok(SatAdd(MaxTerm(c.nodes), 1)) && c'.leader == Some(candidate) && c'.nodes[candidate].role.LeaderRole?
            && HasLeaderQuorum(c', candidate) && CurrentTerm(c') == SatAdd(MaxTerm(c.nodes), 1)
            && (forall id <- Reachable(c, candidate) :: c'.nodes[id].term == CurrentTerm(c') && c'.nodes[id].votedFor == Some(candidate))
  {
    hide MaxTerm, LastIndex, Quorum;
    assert Voters(c, candidate) == Reachable(c, candidate);
    var c' := Elect(c, candidate).0;
    assert Reachable(c', candidate) == Reachable(c, candidate);
    assert c'.nodes.Keys == c.nodes.Keys;
    SameQuorum(c, c');
  }

  lemma SameQuorum(c: Cluster, c': Cluster)
    requires c'.nodes.Keys == c.nodes.Keys
    ensures Quorum(c') == Quorum(c)
  {
    assert |c'.nodes.Keys| == |c.nodes.Keys|;
  }

  // ----- A majority that elects nobody -----

  /** Nobody leads and no live full node finds a majority of live nodes it reaches with logs no longer than its own. */
  ghost predicate Stalled(c: Cluster) {
    c.leader.None? && forall id <- c.nodes :: c.nodes[id].alive && c.nodes[id].kind.Full? ==> |Voters(c, id)| < Quorum(c)
  }

  /** Everything that can be tried while no node returns and no link changes. */
  predicate Quiet(c: Cluster, e: ControlEvent) {
    match e
    case ElectEvent(_) => true
    case RecoverEvent(node) => node in c.nodes ==> c.nodes[node].alive
    case RenewEvent(_, _, _) => true
    case ProposeEvent(_, _, _) => true
    case GrantEvent(_, _, _, _, _, _, _, _) => true
    case AliveEvent(_, _) => false
    case IsolateEvent(_, _) => false
    case ReopenEvent(_, _) => false
  }

  lemma StalledNext(env: ControlEnv, c: Cluster, e: ControlEvent)
    requires Stalled(c) && Quiet(c, e)
    ensures Next(env, c, e) == c
  {
    hide Voters, Quorum, Reachable, MaxTerm, Connected, GrantRecord;
    if e.RecoverEvent? && e.node in c.nodes {
      assert c.nodes[e.node := c.nodes[e.node].(alive := true)] == c.nodes;
    }
  }

  /** A stalled cluster stays exactly as it is, whoever stands for election and whatever is tried, until a node or a link comes back. */
  lemma {:induction false} StalledStays(env: ControlEnv, c: Cluster, events: seq<ControlEvent>)
    requires Stalled(c) && forall e <- events :: Quiet(c, e)
    ensures RunFrom(env, c, events) == c
    decreases |events|
  {
    hide Stalled, Quiet, Next;
    if events != [] {
      var n := |events| - 1;
      assert events[n] in events;
      StalledStays(env, c, events[..n]);
      StalledNext(env, c, events[n]);
    }
  }

  function PairAndWitness(a: NodeId, b: NodeId, w: NodeId): map<NodeId, NodeKind> {
    map[a := Full, b := Full, w := Witness]
  }

  lemma ThreeNames(a: NodeId, b: NodeId, w: NodeId)
    requires a != b && a != w && b != w
    ensures |{a, b, w}| == 3 && |{a, w}| == 2 && |{b, w}| == 2 && {a, b, w} - {b} == {a, w}
  {
    assert {a, b, w} == {a, w} + {b};
  }

  lemma {:induction false} LongestAmong(nodes: Nodes, ids: set<NodeId>) returns (best: NodeId)
    requires ids != {} && ids <= nodes.Keys
    ensures best in ids && forall id <- ids :: LastIndex(nodes[id].log) <= LastIndex(nodes[best].log)
    decreases |ids|
  {
    hide LastIndex;
    var id :| id in ids;
    if ids == {id} {
      best := id;
    } else {
      best := LongestAmong(nodes, ids - {id});
      if LastIndex(nodes[best].log) <= LastIndex(nodes[id].log) {
        best := id;
      }
    }
  }

  /** Full nodes alone survive every loss that leaves a linked majority: one of them can be elected. */
  lemma FullMajorityElects(c: Cluster, live: set<NodeId>) returns (candidate: NodeId)
    requires live <= c.nodes.Keys && |live| >= Quorum(c) && forall id <- live :: Reachable(c, id) == live && c.nodes[id].kind.Full?
    ensures candidate in live && Elect(c, candidate).1.Ok?
  {
    hide LastIndex, MaxTerm, Elect;
    assert |live| > 0;
    candidate := LongestAmong(c.nodes, live);
    assert candidate in Reachable(c, candidate);
    Electable(c, candidate);
  }

  /** With one full node and a witness left of three, a leader can be elected exactly when the witness is not ahead. */
  lemma PairSurvivesExactly(c: Cluster, a: NodeId, b: NodeId, w: NodeId, candidate: NodeId)
    requires a != b && a != w && b != w && c.nodes.Keys == {a, b, w} && c.links == map[]
    requires c.nodes[b].kind.Full? && c.nodes[w].kind.Witness? && c.nodes[b].alive && c.nodes[w].alive
    ensures Elect(SetAlive(c, a, false), candidate).1.Ok? <==> candidate == b && LastIndex(c.nodes[w].log) <= LastIndex(c.nodes[b].log)
  {
    hide LastIndex, MaxTerm, Quorum;
    ThreeNames(a, b, w);
    var c' := SetAlive(c, a, false);
    assert c'.nodes.Keys == c.nodes.Keys;
    ThreeQuorum(c', a, b, w);
    assert Voters(c', b) == if LastIndex(c.nodes[w].log) <= LastIndex(c.nodes[b].log) then {b, w} else {b};
  }

  lemma ThreeQuorum(c: Cluster, a: NodeId, b: NodeId, w: NodeId)
    requires a != b && a != w && b != w && c.nodes.Keys == {a, b, w}
    ensures Quorum(c) == 2
  {
    ThreeNames(a, b, w);
    assert |c.nodes.Keys| == 3;
  }

  /** The first leader of two full nodes and a witness. */
  lemma FirstElected(a: NodeId, b: NodeId, w: NodeId)
    requires a != b && a != w && b != w
    ensures var c := Elect(Start(PairAndWitness(a, b, w)), a).0;
            && c.leader == Some(a) && c.links == map[] && c.history == [] && c.nodes.Keys == {a, b, w} && Quorum(c) == 2
            && (forall id <- c.nodes :: c.nodes[id].alive && c.nodes[id].log == [])
            && c.nodes[a].kind.Full? && c.nodes[b].kind.Full? && c.nodes[w].kind.Witness?
  {
    hide MaxTerm;
    var s := Start(PairAndWitness(a, b, w));
    ThreeNames(a, b, w);
    assert s.nodes.Keys == {a, b, w};
    assert |s.nodes.Keys| == 3;
    assert Voters(s, a) == {a, b, w};
    SameQuorum(s, Elect(s, a).0);
  }

  /** A write that the other full node misses. */
  lemma MissedWrite(env: ControlEnv, c: Cluster, a: NodeId, b: NodeId, w: NodeId, record: ControlRecord)
    requires a != b && a != w && b != w && c.nodes.Keys == {a, b, w} && c.leader == Some(a) && c.links == map[] && c.history == [] && Quorum(c) == 2
    requires (forall id <- c.nodes :: c.nodes[id].alive && c.nodes[id].log == []) && env.recordSize(record) <= MAX_RECORD
    ensures var c' := Propose(env, c, a, record, {b}).0;
            && |c'.history| == 1 && c'.leader == Some(a) && c'.links == map[] && c'.nodes.Keys == {a, b, w} && Quorum(c') == 2
            && LastIndex(c'.nodes[b].log) == 0 && LastIndex(c'.nodes[w].log) == 1
            && (forall id <- c.nodes :: c'.nodes[id].kind == c.nodes[id].kind && c'.nodes[id].alive)
  {
    hide CurrentTerm, Quorum;
    ThreeNames(a, b, w);
    assert Reachable(c, a) == {a, b, w};
    SameQuorum(c, Propose(env, c, a, record, {b}).0);
  }

  /** Losing the leader then leaves a majority without a candidate. */
  lemma LossStalls(c: Cluster, a: NodeId, b: NodeId, w: NodeId)
    requires a != b && a != w && b != w && c.nodes.Keys == {a, b, w} && c.leader == Some(a) && c.links == map[] && Quorum(c) == 2
    requires LastIndex(c.nodes[b].log) < LastIndex(c.nodes[w].log) && c.nodes[w].kind.Witness? && forall id <- c.nodes :: c.nodes[id].alive
    ensures var c' := SetAlive(c, a, false); Stalled(c') && Reachable(c', b) == {b, w} && |{b, w}| == 2 == Quorum(c')
    ensures var c' := SetAlive(c, a, false); c'.history == c.history && c'.nodes.Keys == c.nodes.Keys && c'.nodes[b].kind == c.nodes[b].kind
  {
    hide LastIndex, Quorum;
    ThreeNames(a, b, w);
    var c' := SetAlive(c, a, false);
    assert c'.nodes.Keys == c.nodes.Keys;
    SameQuorum(c, c');
    assert Voters(c', b) == {b};
    assert Reachable(c', b) == {b, w};
  }

  lemma PairAdmissible(a: NodeId, b: NodeId, w: NodeId)
    requires a != b && a != w && b != w
    ensures Admissible(PairAndWitness(a, b, w))
  {
    ThreeNames(a, b, w);
    var kinds := PairAndWitness(a, b, w);
    assert (set id <- kinds | kinds[id].Full?) == {a, b} && kinds.Keys == {a, b, w};
    assert |kinds.Keys| == |kinds|;
  }

  /**
   Two full nodes and a witness do not survive every loss of one node: once a committed write has
   missed one full node and the other is lost, a majority lives and elects nobody, for the witness
   is ahead of the only candidate and cannot stand itself.
   */
  lemma WitnessStalls(env: ControlEnv, a: NodeId, b: NodeId, w: NodeId, record: ControlRecord)
    requires a != b && a != w && b != w && env.recordSize(record) <= MAX_RECORD
    ensures Admissible(PairAndWitness(a, b, w))
    ensures var c := RunFrom(env, Start(PairAndWitness(a, b, w)), [ElectEvent(a), ProposeEvent(a, record, {b}), AliveEvent(a, false)]);
            && |c.history| == 1 && Stalled(c)
            && b in c.nodes && c.nodes[b].kind.Full? && Reachable(c, b) == {b, w} && |Reachable(c, b)| >= Quorum(c)
  {
    hide Elect, Propose, SetAlive, MaxTerm, Quorum, LastIndex, Start, PairAndWitness, Admissible, Stalled, Reachable, RunFrom;
    ThreeNames(a, b, w);
    PairAdmissible(a, b, w);
    var s := Start(PairAndWitness(a, b, w));
    FirstElected(a, b, w);
    var c1 := Elect(s, a).0;
    MissedWrite(env, c1, a, b, w, record);
    var c2 := Propose(env, c1, a, record, {b}).0;
    ThreeSteps(env, s, ElectEvent(a), ProposeEvent(a, record, {b}), AliveEvent(a, false));
    LossStalls(c2, a, b, w);
  }

  lemma ThreeSteps(env: ControlEnv, c: Cluster, e1: ControlEvent, e2: ControlEvent, e3: ControlEvent)
    ensures RunFrom(env, c, [e1, e2, e3]) == Next(env, Next(env, Next(env, c, e1), e2), e3)
  {
    hide Next;
    assert [e1, e2, e3][..2] == [e1, e2] && [e1, e2][..1] == [e1] && [e1][..0] == [];
    assert RunFrom(env, c, [e1]) == Next(env, c, e1);
    assert RunFrom(env, c, [e1, e2]) == Next(env, RunFrom(env, c, [e1]), e2);
  }
}
