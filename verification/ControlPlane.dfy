/** The control plane as an object whose methods take the steps of the model, loop by loop. */
module ControlPlane {
  import opened Wire
  import opened Outcomes
  import opened Tasks
  import opened Control

  // ----- Maxima over the nodes -----

  lemma MaxTermIs(nodes: Nodes, m: u64)
    requires forall id <- nodes :: nodes[id].term <= m
    requires m == 0 || exists id <- nodes :: nodes[id].term == m
    ensures m == MaxTerm(nodes)
  {
  }

  method HighestTerm(nodes: Nodes) returns (m: u64)
    ensures m == MaxTerm(nodes)
  {
    m := 0;
    var rest := nodes.Keys;
    while rest != {}
      invariant rest <= nodes.Keys
      invariant forall id <- nodes :: id !in rest ==> nodes[id].term <= m
      invariant m == 0 || exists id <- nodes :: nodes[id].term == m
      decreases rest
    {
      var id :| id in rest;
      if nodes[id].term > m {
        m := nodes[id].term;
      }
      rest := rest - {id};
    }
    MaxTermIs(nodes, m);
  }

  method HighestEpochIn(log: EntryLog, start: u64) returns (m: u64)
    ensures start <= m && forall e <- log :: e.epoch <= m
    ensures m == start || exists e <- log :: e.epoch == m
  {
    m := start;
    for i := 0 to |log|
      invariant start <= m && forall j :: 0 <= j < i ==> log[j].epoch <= m
      invariant m == start || exists e <- log :: e.epoch == m
    {
      if log[i].epoch > m {
        m := log[i].epoch;
        assert log[i] in log;
      }
    }
  }

  method HighestEpoch(nodes: Nodes) returns (m: u64)
    ensures IsMaxEpoch(nodes, m)
  {
    m := 0;
    var rest := nodes.Keys;
    while rest != {}
      invariant rest <= nodes.Keys
      invariant forall id <- nodes :: id !in rest ==> forall e <- nodes[id].log :: e.epoch <= m
      invariant m == 0 || exists id <- nodes, e <- nodes[id].log :: e.epoch == m
      decreases rest
    {
      var id :| id in rest;
      ghost var before := m;
      m := HighestEpochIn(nodes[id].log, m);
      if m != before {
        var e :| e in nodes[id].log && e.epoch == m;
      }
      rest := rest - {id};
    }
  }

  /** Whether `max_by_key` prefers the second node. */
  predicate Beats(nodes: Nodes, a: NodeId, b: NodeId)
    requires a in nodes && b in nodes
  {
    var x, y := LastIndex(nodes[a].log), LastIndex(nodes[b].log);
    x < y || (x == y && TextLe(a, b))
  }

  lemma BeatsOrder(nodes: Nodes, a: NodeId, b: NodeId, c: NodeId)
    requires a in nodes && b in nodes && c in nodes
    ensures Beats(nodes, a, b) || Beats(nodes, b, a)
    ensures Beats(nodes, a, b) && Beats(nodes, b, c) ==> Beats(nodes, a, c)
  {
    hide LastIndex;
    TextTotal(a, b);
    if TextLe(a, b) && TextLe(b, c) {
      TextTransitive(a, b, c);
    }
  }

  /** `max_by_key` on the last index. */
  method Longest(nodes: Nodes) returns (source: NodeId)
    requires nodes != map[]
    ensures source in nodes && Chosen(nodes, source)
  {
    hide Beats, TextLe;
    source :| source in nodes;
    BeatsOrder(nodes, source, source, source);
    var rest := nodes.Keys - {source};
    while rest != {}
      invariant rest <= nodes.Keys && source in nodes
      invariant forall id <- nodes :: id !in rest ==> Beats(nodes, id, source)
      decreases rest
    {
      var id :| id in rest;
      BeatsOrder(nodes, id, source, source);
      if Beats(nodes, source, id) {
        forall other | other in nodes && other !in rest
          ensures Beats(nodes, other, id)
        {
          BeatsOrder(nodes, other, source, id);
        }
        BeatsOrder(nodes, id, id, id);
        source := id;
      }
      rest := rest - {id};
    }
    BeatsAll(nodes, source);
  }

  lemma BeatsAll(nodes: Nodes, source: NodeId)
    requires source in nodes && forall id <- nodes :: Beats(nodes, id, source)
    ensures Chosen(nodes, source)
  {
    hide LastIndex, TextLe;
    assert forall id <- nodes :: Beats(nodes, id, source);
  }

  /** The loop of `rebuild_grants`. */
  method Rebuild(log: EntryLog) returns (r: Result<Grants>)
    ensures r == RebuildGrants(log)
  {
    hide ParseGrant;
    var grants: Grants := map[];
    for i := 0 to |log|
      invariant RebuildGrants(log[..i]) == Ok(grants)
    {
      assert log[..i + 1][..i] == log[..i];
      if log[i].record.kind.ExecutionGrant? {
        match ParseGrant(log[i])
        case None =>
          RebuildStops(log, i + 1);
          return Err(Corrupt);
        case Some(g) =>
          grants := grants[g.task := g];
      }
    }
    assert log[..|log|] == log;
    return Ok(grants);
  }

  lemma {:induction false} RebuildStops(log: EntryLog, k: nat)
    requires k <= |log| && RebuildGrants(log[..k]) == Err(Corrupt)
    ensures RebuildGrants(log) == Err(Corrupt)
    decreases |log|
  {
    hide ParseGrant;
    if k == |log| {
      assert log[..k] == log;
    } else {
      var n := |log| - 1;
      assert log[..n][..k] == log[..k];
      RebuildStops(log[..n], k);
    }
  }

  // ----- The object -----

  class ReferenceCftModel {
    const env: ControlEnv
    var nodes: Nodes
    var links: map<set<NodeId>, bool>
    var leader: Option<NodeId>
    var lease: Option<Lease>
    var epoch: u64
    var grants: Grants
    ghost var history: EntryLog

    /** The state without its auxiliary history. */
    function Now(): Cluster
      reads this
    {
      Cluster(nodes, links, leader, lease, epoch, grants, [])
    }

    ghost function View(): Cluster
      reads this
    {
      Now().(history := history)
    }

    constructor (env: ControlEnv, kinds: map<NodeId, NodeKind>)
      requires Admissible(kinds)
      ensures this.env == env && View() == Start(kinds)
    {
      this.env := env;
      nodes := map id <- kinds :: FreshNode(kinds[id]);
      links, leader, lease, epoch, grants, history := map[], None, None, 0, map[], [];
    }

    /** The loop that records a granted vote on every voter. */
    method RecordVotes(voters: set<NodeId>, candidate: NodeId, term: u64)
      requires voters <= nodes.Keys
      modifies this`nodes
      ensures nodes == map id <- old(nodes) :: if id in voters then VotedNode(old(nodes)[id], id == candidate, candidate, term) else old(nodes)[id]
    {
      var rest := voters;
      while rest != {}
        invariant rest <= voters && nodes.Keys == old(nodes).Keys
        invariant forall id <- nodes ::
                    nodes[id] == if id in voters - rest then VotedNode(old(nodes)[id], id == candidate, candidate, term) else old(nodes)[id]
        decreases rest
      {
        var id :| id in rest;
        nodes := nodes[id := VotedNode(nodes[id], id == candidate, candidate, term)];
        rest := rest - {id};
      }
    }

    method Elect(candidate: NodeId) returns (r: Result<u64>)
      modifies this`nodes, this`leader, this`lease
      ensures (View(), r) == Control.Elect(old(View()), candidate)
    {
      hide VotedNode, LastIndex, Connected, MaxTerm, Voters, Quorum;
      Aside(Now(), history);
      if candidate !in nodes || !nodes[candidate].alive || !nodes[candidate].kind.Full? {
        return Err(WorkerUnavailable);
      }
      var highest := HighestTerm(nodes);
      var term := SatAdd(highest, 1);
      var voters := Voters(Now(), candidate);
      if |voters| < Quorum(Now()) {
        leader := None;
        return Err(QuorumLost);
      }
      RecordVotes(voters, candidate, term);
      leader, lease := Some(candidate), None;
      return Ok(term);
    }

    method SetAlive(id: NodeId, alive: bool) returns (r: Result<()>)
      modifies this`nodes, this`leader, this`lease
      ensures View() == Control.SetAlive(old(View()), id, alive)
      ensures r == if id in old(nodes) then Ok(()) else Err(WorkerUnavailable)
    {
      if id !in nodes {
        return Err(WorkerUnavailable);
      }
      nodes := nodes[id := nodes[id].(alive := alive)];
      if !alive && leader == Some(id) {
        leader, lease := None, None;
      }
      return Ok(());
    }

    method Isolate(id: NodeId, isolated: bool) returns (r: Result<()>)
      modifies this`links, this`leader, this`lease
      ensures View() == Control.Isolate(old(View()), id, isolated)
      ensures r == if id in nodes then Ok(()) else Err(WorkerUnavailable)
    {
      if id !in nodes {
        return Err(WorkerUnavailable);
      }
      hide Links;
      var rest := nodes.Keys - {id};
      ghost var others := rest;
      NoLinks(links, id, !isolated);
      assert others - rest == {};
      while rest != {}
        invariant rest <= others && links == old(links) + Links(id, others - rest, !isolated)
        invariant leader == old(leader) && lease == old(lease)
        decreases rest
      {
        var other :| other in rest;
        ghost var done := others - rest;
        OneLink(old(links), done, id, other, !isolated);
        links := links[{id, other} := !isolated];
        rest := rest - {other};
        assert others - rest == done + {other};
      }
      assert others - rest == others;
      if isolated && leader == Some(id) {
        leader, lease := None, None;
      }
      return Ok(());
    }

    /** `recover`: the returning node catches up from the leader if it can reach it. */
    method Recover(id: NodeId) returns (r: Result<()>)
      modifies this`nodes, this`leader, this`lease
      ensures View() == Control.Recover(old(View()), id)
      ensures r == if id !in old(nodes) || (leader.Some? && leader.value !in nodes && Connected(Now(), id, leader.value))
                   then Err(WorkerUnavailable) else Ok(())
    {
      r := SetAlive(id, true);
      if r.Err? || leader.None? || !Connected(Now(), id, leader.value) {
        return;
      }
      if leader.value !in nodes {
        return Err(WorkerUnavailable);
      }
      var source, node := nodes[leader.value], nodes[id];
      node := node.(log := source.log, term := source.term, votedFor := leader);
      node := node.(role := if node.kind.Full? then FollowerRole else WitnessRole);
      nodes := nodes[id := node];
    }

    method RenewLease(candidate: NodeId, tick: u64, ticks: u64) returns (r: Result<Lease>)
      modifies this`lease
      ensures View() == Renew(old(View()), candidate, tick, ticks)
      ensures r == if ticks == 0 || !HasLeaderQuorum(old(View()), candidate) then Err(QuorumLost) else Ok(lease.value)
    {
      hide HasLeaderQuorum, CurrentTerm;
      Aside(Now(), history);
      if ticks == 0 || !HasLeaderQuorum(Now(), candidate) {
        return Err(QuorumLost);
      }
      lease := Some(Lease(candidate, CurrentTerm(Now()), tick, SatAdd(tick, ticks)));
      return Ok(lease.value);
    }

    /** Appends an entry to every target and drops it again where the write fails. */
    method Replicate(targets: set<NodeId>, e: Entry, failed: set<NodeId>) returns (persisted: set<NodeId>)
      requires targets <= nodes.Keys
      modifies this`nodes
      ensures persisted == targets - failed && nodes == Appended(old(nodes), persisted, e)
    {
      persisted := {};
      var rest := targets;
      while rest != {}
        invariant rest <= targets && persisted == (targets - rest) - failed
        invariant nodes == Appended(old(nodes), persisted, e)
        decreases rest
      {
        var id :| id in rest;
        nodes := nodes[id := nodes[id].(log := nodes[id].log + [e])];
        if id !in failed {
          persisted := persisted + {id};
        } else {
          nodes := nodes[id := nodes[id].(log := nodes[id].log[..|nodes[id].log| - 1])];
        }
        rest := rest - {id};
      }
    }

    /** Drops the entry that too few nodes persisted. */
    method Withdraw(persisted: set<NodeId>, ghost before: Nodes, e: Entry)
      requires persisted <= before.Keys && nodes == Appended(before, persisted, e)
      modifies this`nodes
      ensures nodes == before
    {
      var rest := persisted;
      while rest != {}
        invariant rest <= persisted && nodes == Appended(before, rest, e)
        decreases rest
      {
        var id :| id in rest;
        nodes := nodes[id := nodes[id].(log := nodes[id].log[..|nodes[id].log| - 1])];
        rest := rest - {id};
      }
    }

    /** `failed` are the nodes whose disk refuses the write. */
    method Propose(proposer: NodeId, record: ControlRecord, failed: set<NodeId>) returns (r: Result<Entry>)
      modifies this`nodes, this`epoch, this`history
      ensures (View(), r) == Control.Propose(env, old(View()), proposer, record, failed)
    {
      hide Reachable, Appended, Quorum, LastIndex, HasLeaderQuorum, CurrentTerm;
      Aside(Now(), history);
      assert HasLeaderQuorum(Now(), proposer) ==> proposer in nodes by { QuorumNode(Now(), proposer); }
      if leader != Some(proposer) {
        return Err(NotLeader);
      }
      if !HasLeaderQuorum(Now(), proposer) {
        return Err(QuorumLost);
      }
      if env.recordSize(record) > MAX_RECORD {
        return Err(CapacityExceeded);
      }
      var quorum, e, targets := Quorum(Now()), NextEntry(Now(), proposer, record), Reachable(Now(), proposer);
      ghost var before := nodes;
      var persisted := Replicate(targets, e, failed);
      if |persisted| < quorum {
        Withdraw(persisted, before, e);
        return Err(QuorumLost);
      }
      epoch, history := e.epoch, history + [e];
      return Ok(e);
    }

    method Issue(proposer: NodeId, task: TaskId, attempt: u32, worker: NodeId, tick: u64, ticks: u64, irreversible: bool, failed: set<NodeId>)
      returns (r: Result<Grant>)
      modifies this`nodes, this`epoch, this`history, this`grants
      ensures (View(), r) == IssueGrant(env, old(View()), proposer, task, attempt, worker, tick, ticks, irreversible, failed)
    {
      hide Authorize, CurrentTerm, Control.Propose, GrantRecord;
      Aside(Now(), history);
      if attempt == 0 || ticks == 0 {
        return Err(InvalidConfig);
      }
      var allowed := Authorize(Now(), proposer, if irreversible then IrreversibleEffect else DurableWrite, None, tick);
      assert allowed == Authorize(View(), proposer, if irreversible then IrreversibleEffect else DurableWrite, None, tick);
      if allowed.Err? {
        return Err(allowed.error);
      }
      var g := NewGrant(Now(), task, attempt, worker, tick, ticks, irreversible);
      assert g == NewGrant(View(), task, attempt, worker, tick, ticks, irreversible);
      var proposed := Propose(proposer, GrantRecord(g), failed);
      if proposed.Err? {
        return Err(proposed.error);
      }
      grants := grants[task := g];
      return Ok(g);
    }

    /** `open` over the files that the nodes have persisted. */
    method Reopen() returns (r: Result<()>, ghost source: NodeId, ghost found: u64)
      modifies this
      ensures !Admissible(Kinds(old(nodes))) ==> r == Err(InvalidConfig) && View() == old(View())
      ensures Admissible(Kinds(old(nodes))) ==>
              && Chosen(old(nodes), source) && IsMaxEpoch(old(nodes), found)
              && View() == Next(env, old(View()), ReopenEvent(source, found))
              && (r.Ok? <==> RebuildGrants(old(nodes)[source].log).Ok?)
    {
      hide RebuildGrants, IsMaxEpoch, Chosen, ReopenedNode;
      source, found := "", 0;
      if !Admissible(Kinds(nodes)) {
        return Err(InvalidConfig), source, found;
      }
      assert nodes != map[];
      var highest := HighestEpoch(nodes);
      var longest := Longest(nodes);
      source, found := longest, highest;
      var rebuilt := Rebuild(nodes[longest].log);
      if rebuilt.Err? {
        return Err(rebuilt.error), source, found;
      }
      nodes := map id <- nodes :: ReopenedNode(nodes[id]);
      links, leader, lease, epoch, grants := map[], None, None, highest, rebuilt.value;
      return Ok(()), source, found;
    }
  }

  function Kinds(nodes: Nodes): map<NodeId, NodeKind> {
    map id <- nodes :: nodes[id].kind
  }

  /** The history is auxiliary: no query reads it. */
  lemma Aside(c: Cluster, h: EntryLog)
    ensures var d := c.(history := h);
            && Quorum(c) == Quorum(d) && CurrentTerm(c) == CurrentTerm(d)
            && (forall a, b :: Connected(c, a, b) == Connected(d, a, b))
            && (forall id :: Reachable(c, id) == Reachable(d, id) && HasLeaderQuorum(c, id) == HasLeaderQuorum(d, id))
            && (forall id :: Reachable(c, id) <= c.nodes.Keys)
            && (forall id <- c.nodes :: Voters(c, id) == Voters(d, id) <= c.nodes.Keys)
            && (forall id, op, grant, tick :: Authorize(c, id, op, grant, tick) == Authorize(d, id, op, grant, tick))
  {
    var d := c.(history := h);
    assert forall a, b :: Connected(c, a, b) == Connected(d, a, b);
    assert forall id :: Reachable(c, id) == Reachable(d, id);
    assert forall id, op, grant, tick :: Authorize(c, id, op, grant, tick) == Authorize(d, id, op, grant, tick);
  }

  lemma QuorumNode(c: Cluster, id: NodeId)
    ensures HasLeaderQuorum(c, id) ==> id in c.nodes
  {
  }

  lemma NoLinks(links: map<set<NodeId>, bool>, id: NodeId, up: bool)
    ensures links + Links(id, {}, up) == links
  {
  }

  lemma OneLink(links: map<set<NodeId>, bool>, done: set<NodeId>, id: NodeId, other: NodeId, up: bool)
    ensures (links + Links(id, done, up))[{id, other} := up] == links + Links(id, done + {other}, up)
  {
    assert Links(id, done, up)[{id, other} := up] == Links(id, done + {other}, up);
  }
}
