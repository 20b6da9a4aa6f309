/** Control leases: who may write, and since when. */
module ControlLeases {
  import opened Wire
  import opened Outcomes
  import opened Tasks
  import opened Control
  import opened ControlSafety

  predicate IsWrite(op: Operation) {
    op.DurableWrite? || op.MembershipChange? || op.GenerationSwitch? || op.IrreversibleEffect?
  }

  /** A lease beside a leader is that leader's own, of its current term. */
  predicate LeaseOk(c: Cluster) {
    c.lease.Some? && c.leader.Some? ==> c.lease.value.leader == c.leader.value && c.lease.value.term == CurrentTerm(c)
  }

  lemma CurrentSame(c: Cluster, c': Cluster)
    requires c'.leader == c.leader && c'.nodes.Keys == c.nodes.Keys
    requires forall id <- c.nodes :: c'.nodes[id].term == c.nodes[id].term
    ensures CurrentTerm(c') == CurrentTerm(c)
  {
  }

  lemma ProposeSame(env: ControlEnv, c: Cluster, leader: NodeId, record: ControlRecord, failed: set<NodeId>)
    ensures var c' := Propose(env, c, leader, record, failed).0;
            && c'.leader == c.leader && c'.lease == c.lease && c'.nodes.Keys == c.nodes.Keys
            && forall id <- c.nodes :: c'.nodes[id].term == c.nodes[id].term
  {
    hide HasLeaderQuorum, Reachable, Quorum, NextEntry;
    assert forall ids, e :: Appended(c.nodes, ids, e).Keys == c.nodes.Keys;
  }

  lemma RecoverLease(c: Cluster, id: NodeId)
    requires LeaseOk(c)
    ensures LeaseOk(Recover(c, id))
  {
    hide Connected;
  }

  lemma NextLease(env: ControlEnv, c: Cluster, e: ControlEvent)
    requires LeaseOk(c)
    ensures LeaseOk(Next(env, c, e))
  {
    hide Propose, Recover, MaxTerm, Voters, Quorum, HasLeaderQuorum, Reachable, CurrentTerm, RebuildGrants, Authorize, GrantRecord, Links;
    var c' := Next(env, c, e);
    match e
    case RecoverEvent(node) => RecoverLease(c, node);
    case AliveEvent(node, alive) =>
      if c'.leader == c.leader {
        CurrentSame(c, c');
      }
    case IsolateEvent(_, _) =>
      if c'.leader == c.leader {
        CurrentSame(c, c');
      }
    case ProposeEvent(leader, record, failed) =>
      ProposeSame(env, c, leader, record, failed);
      CurrentSame(c, c');
    case GrantEvent(leader, task, attempt, worker, tick, ticks, irreversible, failed) =>
      ProposeSame(env, c, leader, GrantRecord(NewGrant(c, task, attempt, worker, tick, ticks, irreversible)), failed);
      CurrentSame(c, c');
    case RenewEvent(leader, _, _) =>
      RenewedLease(c, leader);
      CurrentSame(c, c');
    case _ =>
  }

  lemma RenewedLease(c: Cluster, leader: NodeId)
    ensures HasLeaderQuorum(c, leader) ==> c.leader == Some(leader)
  {
  }

  lemma {:induction false} EveryRunLeased(env: ControlEnv, kinds: map<NodeId, NodeKind>, events: seq<ControlEvent>)
    ensures LeaseOk(RunFrom(env, Start(kinds), events))
    decreases |events|
  {
    hide LeaseOk, Next;
    if events == [] {
      assert LeaseOk(Start(kinds)) by { StartLease(kinds); }
    } else {
      EveryRunLeased(env, kinds, events[..|events| - 1]);
      NextLease(env, RunFrom(env, Start(kinds), events[..|events| - 1]), events[|events| - 1]);
    }
  }

  lemma StartLease(kinds: map<NodeId, NodeKind>)
    ensures LeaseOk(Start(kinds))
  {
  }

  /**
   In every run a node may write exactly while it leads with a reachable quorum and some lease
   covers the tick: that lease is never another leader's nor of an earlier term.
   */
  lemma WritesExactly(env: ControlEnv, kinds: map<NodeId, NodeKind>, events: seq<ControlEvent>, node: NodeId, op: Operation, tick: u64)
    requires IsWrite(op)
    ensures var c := RunFrom(env, Start(kinds), events);
            Authorize(c, node, op, None, tick).Ok? <==>
            HasLeaderQuorum(c, node) && c.lease.Some? && ValidAt(c.lease.value.issued, c.lease.value.until, tick)
  {
    hide RunFrom, Reachable, Quorum, CurrentTerm;
    EveryRunLeased(env, kinds, events);
  }

  /** An election ends every write permission until the winner renews its lease. */
  lemma ElectionRevokes(c: Cluster, candidate: NodeId, node: NodeId, op: Operation, tick: u64)
    requires IsWrite(op)
    ensures Authorize(Elect(c, candidate).0, node, op, None, tick).Ok? ==> Elect(c, candidate).1 == Err(WorkerUnavailable)
  {
    hide MaxTerm, Voters, Quorum, Reachable, CurrentTerm;
  }
}
