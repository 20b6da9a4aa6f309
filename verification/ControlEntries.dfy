/** Where committed entries live: which elections keep them and which lose them. */
module ControlEntries {
  import opened Wire
  import opened Outcomes
  import opened Tasks
  import opened Control
  import opened ControlSafety

  /** The nodes whose log holds an entry. */
  function Keepers(c: Cluster, e: Entry): set<NodeId> {
    set id <- c.nodes | e in c.nodes[id].log
  }

  predicate OnQuorum(c: Cluster, e: Entry) {
    |Keepers(c, e)| >= Quorum(c)
  }

  /** An election and the recovery of every node that its winner reaches. */
  ghost function TakenOver(env: ControlEnv, c: Cluster, winner: NodeId, ids: seq<NodeId>): Cluster {
    RunFrom(env, Next(env, c, ElectEvent(winner)), RecoverEvents(ids))
  }

  lemma Elections(c: Cluster, winner: NodeId)
    requires Elect(c, winner).1.Ok?
    ensures var d := Elect(c, winner).0;
            && d.leader == Some(winner) && winner in d.nodes && d.nodes.Keys == c.nodes.Keys
            && (forall id <- c.nodes :: d.nodes[id].log == c.nodes[id].log)
            && Reachable(d, winner) == Reachable(c, winner) && |Reachable(c, winner)| >= Quorum(c)
  {
    hide MaxTerm, LastIndex;
    var d := Elect(c, winner).0;
    assert d.nodes.Keys == c.nodes.Keys && forall id <- c.nodes :: d.nodes[id].alive == c.nodes[id].alive;
    assert Voters(c, winner) <= Reachable(c, winner);
    SubsetSize(Voters(c, winner), Reachable(c, winner));
  }

  /** A set of nodes that holds an entry everywhere or nowhere decides, when it is a majority. */
  lemma MajorityDecides(c: Cluster, e: Entry, ids: set<NodeId>, held: bool)
    requires ids <= c.nodes.Keys && |ids| >= Quorum(c) && forall id <- ids :: (e in c.nodes[id].log) == held
    ensures OnQuorum(c, e) <==> held
  {
    var keepers := Keepers(c, e);
    if held {
      SubsetSize(ids, keepers);
    } else if |keepers| >= Quorum(c) {
      var both := QuorumsMeet(c.nodes.Keys, ids, keepers);
    }
  }

  /**
   After an election and the recovery of the nodes in reach, an entry is on a quorum exactly when
   the winner's log held it before; being committed does not matter.
   */
  lemma TakeoverExactly(env: ControlEnv, c: Cluster, winner: NodeId, ids: seq<NodeId>, e: Entry)
    requires Elect(c, winner).1.Ok? && forall id :: id in ids <==> id in Reachable(c, winner)
    ensures winner in c.nodes
    ensures OnQuorum(TakenOver(env, c, winner, ids), e) <==> e in c.nodes[winner].log
  {
    hide Elect, Reachable, Keepers, OnQuorum, RunFrom, CaughtUp;
    Elections(c, winner);
    var d, after := Elect(c, winner).0, TakenOver(env, c, winner, ids);
    assert Next(env, c, ElectEvent(winner)) == d;
    RecoverAllInStep(env, d, ids, winner);
    CaughtUpLogs(d, after, winner, ids);
    ReachableNodes(c, winner);
    assert |after.nodes.Keys| == |c.nodes.Keys|;
    MajorityDecides(after, e, Reachable(c, winner), e in c.nodes[winner].log);
  }

  lemma CaughtUpLogs(c: Cluster, c': Cluster, leader: NodeId, ids: seq<NodeId>)
    requires CaughtUp(c, c', leader, ids)
    ensures c'.nodes.Keys == c.nodes.Keys && leader in c.nodes
    ensures forall id <- ids :: id in c'.nodes && c'.nodes[id].log == c.nodes[leader].log
  {
    hide Reachable;
  }

  lemma ReachableNodes(c: Cluster, observer: NodeId)
    ensures Reachable(c, observer) <= c.nodes.Keys
  {
  }

  /** Where logs are prefixes of the history, a quorum holds all of it. */
  lemma HistoryOnQuorum(c: Cluster, n: nat, e: Entry)
    requires Safe(c, n) && Prefixes(c) && e in c.history
    ensures OnQuorum(c, e)
  {
    hide LogOk, TermsOk, LeaderOk, Bounded;
    forall id | id in Holders(c)
      ensures id in Keepers(c, e)
    {
      PrefixNewest(c.history, c.nodes[id].log);
    }
    SubsetSize(Holders(c), Keepers(c, e));
  }

  /** In every disciplined run each committed entry stays committed and on a quorum of logs. */
  lemma CommittedStays(env: ControlEnv, c: Cluster, n: nat, events: seq<ControlEvent>, e: Entry)
    requires Safe(c, n) && Prefixes(c) && n + |events| + 1 < U64_LIMIT && DisciplinedRun(env, c, events) && e in c.history
    ensures e in RunFrom(env, c, events).history && OnQuorum(RunFrom(env, c, events), e)
  {
    hide Safe, Prefixes, RunFrom, OnQuorum, DisciplinedRun;
    DisciplinedRunComplete(env, c, n, events);
    HistoryGrows(env, c, events);
    var c' := RunFrom(env, c, events);
    var i :| 0 <= i < |c.history| && c.history[i] == e;
    assert c'.history[i] == e;
    HistoryOnQuorum(c', n + |events|, e);
  }
}
