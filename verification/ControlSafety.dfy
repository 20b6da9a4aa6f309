/** What every run of the control plane keeps, by quorum intersection. */
module ControlSafety {
  import opened Wire
  import opened Outcomes
  import opened Tasks
  import opened Control

  // ----- Quorums -----

  /** Two majorities of the same nodes share a node. */
  lemma QuorumsMeet(all: set<NodeId>, a: set<NodeId>, b: set<NodeId>) returns (id: NodeId)
    requires a <= all && b <= all && |a| >= |all| / 2 + 1 && |b| >= |all| / 2 + 1
    ensures id in a && id in b
  {
    if a * b == {} {
      assert |a + b| == |a| + |b|;
      SubsetSize(a + b, all);
    }
    id :| id in a * b;
  }

  lemma {:induction false} SubsetSize(a: set<NodeId>, b: set<NodeId>)
    requires a <= b
    ensures |a| <= |b|
  {
    if a != {} {
      var x :| x in a;
      SubsetSize(a - {x}, b - {x});
    }
  }

  // ----- The invariant of every run -----

  /** An entry is the committed one at its own index. */
  predicate Committed(h: EntryLog, e: Entry) {
    1 <= e.index <= |h| && h[e.index - 1] == e
  }

  predicate Rising(log: EntryLog) {
    forall i, j :: 0 <= i < j < |log| ==> log[i].index < log[j].index
  }

  predicate LogOk(h: EntryLog, log: EntryLog) {
    (forall i :: 0 <= i < |log| ==> Committed(h, log[i])) && Rising(log)
  }

  /** Indices and epochs count from one; terms never decrease. */
  predicate HistoryOk(h: EntryLog) {
    && (forall i :: 0 <= i < |h| ==> h[i].index == i + 1 && h[i].epoch == i + 1)
    && (forall i, j :: 0 <= i < j < |h| ==> h[i].term <= h[j].term)
  }

  function Holders(c: Cluster): set<NodeId> {
    set id <- c.nodes | LastIndex(c.nodes[id].log) == |c.history|
  }

  predicate LogsOk(c: Cluster) {
    && c.nodes != map[] && HistoryOk(c.history) && c.epoch == |c.history|
    && (forall id <- c.nodes :: LogOk(c.history, c.nodes[id].log))
    && |Holders(c)| >= Quorum(c)
  }

  /** The leader's term is the highest, and nodes of one term voted alike. */
  predicate TermsOk(c: Cluster) {
    && (forall a <- c.nodes :: c.nodes[a].term > 0 ==> c.nodes[a].votedFor.Some?)
    && (forall a <- c.nodes, b <- c.nodes :: c.nodes[a].term == c.nodes[b].term > 0 ==> c.nodes[a].votedFor == c.nodes[b].votedFor)
    && (c.history != [] ==> exists id <- c.nodes :: c.nodes[id].term >= c.history[|c.history| - 1].term)
  }

  predicate LeaderOk(c: Cluster) {
    c.leader.Some? ==>
      var l := c.leader.value;
      && l in c.nodes && LastIndex(c.nodes[l].log) == |c.history|
      && c.nodes[l].votedFor == Some(l) && c.nodes[l].term > 0
      && (forall id <- c.nodes :: c.nodes[id].term <= c.nodes[l].term)
  }

  /** `n` bounds indices and terms, so that no counter saturates. */
  predicate Bounded(c: Cluster, n: nat) {
    |c.history| <= n && forall id <- c.nodes :: c.nodes[id].term <= n
  }

  predicate Safe(c: Cluster, n: nat) {
    LogsOk(c) && TermsOk(c) && LeaderOk(c) && Bounded(c, n)
  }

  /** The leader's own disk works; any follower's may fail. */
  predicate LeaderPersists(e: ControlEvent) {
    (e.ProposeEvent? || e.GrantEvent?) ==> e.leader !in e.failed
  }

  lemma LogBound(h: EntryLog, log: EntryLog)
    requires LogOk(h, log)
    ensures LastIndex(log) <= |h|
    ensures log != [] ==> LastIndex(log) > 0
  {
    if log != [] {
      assert Committed(h, log[|log| - 1]);
    }
  }

  lemma StartSafe(kinds: map<NodeId, NodeKind>)
    requires Admissible(kinds)
    ensures Safe(Start(kinds), 0)
  {
    var c := Start(kinds);
    assert Holders(c) == c.nodes.Keys == kinds.Keys;
    assert kinds != map[];
  }

  // ----- Elections -----

  /** Whoever wins an election holds the newest committed entry. */
  lemma WinnerIsNewest(c: Cluster, candidate: NodeId)
    requires LogsOk(c) && candidate in c.nodes && |Voters(c, candidate)| >= Quorum(c)
    ensures LastIndex(c.nodes[candidate].log) == |c.history|
  {
    hide HistoryOk;
    var v := QuorumsMeet(c.nodes.Keys, Holders(c), Voters(c, candidate));
    LogBound(c.history, c.nodes[candidate].log);
  }

  /** The same history over the same nodes, with no holder of the newest entry lost. */
  lemma LogsKept(c: Cluster, c': Cluster)
    requires LogsOk(c) && c'.history == c.history && c'.epoch == c.epoch && c'.nodes.Keys == c.nodes.Keys
    requires forall id <- c'.nodes :: LogOk(c.history, c'.nodes[id].log)
    requires Holders(c) <= Holders(c')
    ensures LogsOk(c')
  {
    hide HistoryOk, LogOk, Holders;
    SubsetSize(Holders(c), Holders(c'));
    assert |c'.nodes.Keys| == |c.nodes.Keys|;
  }

  lemma SameLogs(c: Cluster, c': Cluster)
    requires LogsOk(c) && c'.history == c.history && c'.epoch == c.epoch && c'.nodes.Keys == c.nodes.Keys
    requires forall id <- c.nodes :: c'.nodes[id].log == c.nodes[id].log
    ensures LogsOk(c')
  {
    hide HistoryOk, LogOk, Quorum;
    assert Holders(c') == Holders(c);
    LogsKept(c, c');
  }

  /** Some nodes move to a term that is at least everyone's and vote for its one candidate. */
  lemma VotesKept(c: Cluster, c': Cluster, moved: set<NodeId>, term: u64, candidate: NodeId)
    requires TermsOk(c) && c'.history == c.history && c'.nodes.Keys == c.nodes.Keys && moved * c.nodes.Keys != {}
    requires forall a <- c.nodes :: c.nodes[a].term <= term && (c.nodes[a].term == term > 0 ==> c.nodes[a].votedFor == Some(candidate))
    requires forall a <- c.nodes :: a in moved ==> c'.nodes[a].term == term && c'.nodes[a].votedFor == Some(candidate)
    requires forall a <- c.nodes :: a !in moved ==> c'.nodes[a].term == c.nodes[a].term && c'.nodes[a].votedFor == c.nodes[a].votedFor
    ensures TermsOk(c')
  {
    var w :| w in moved * c.nodes.Keys;
    if c.history != [] {
      assert c'.nodes[w].term >= c.history[|c.history| - 1].term;
    }
  }

  lemma ElectTerms(c: Cluster, n: nat, candidate: NodeId)
    requires TermsOk(c) && Bounded(c, n) && n + 1 < U64_LIMIT && Elect(c, candidate).1.Ok?
    ensures var c' := Elect(c, candidate).0;
            && TermsOk(c') && Bounded(c', n + 1) && candidate in c'.nodes
            && c'.nodes[candidate].votedFor == Some(candidate) && c'.nodes[candidate].term > 0
            && (forall id <- c'.nodes :: c'.nodes[id].term <= c'.nodes[candidate].term)
  {
    hide LastIndex, Quorum, TermsOk;
    var c', voters, term := Elect(c, candidate).0, Voters(c, candidate), MaxTerm(c.nodes) + 1;
    assert MaxTerm(c.nodes) <= n;
    assert candidate in voters;
    assert c'.nodes.Keys == c.nodes.Keys;
    assert candidate in voters * c.nodes.Keys;
    VotesKept(c, c', voters, term, candidate);
  }

  lemma ElectKeeps(c: Cluster, n: nat, candidate: NodeId)
    requires Safe(c, n) && n + 1 < U64_LIMIT
    ensures Safe(Elect(c, candidate).0, n + 1)
  {
    hide LogsOk, TermsOk, MaxTerm;
    var (c', r) := Elect(c, candidate);
    assert c'.nodes.Keys == c.nodes.Keys;
    SameLogs(c, c');
    if r.Ok? {
      WinnerIsNewest(c, candidate);
      ElectTerms(c, n, candidate);
    } else {
      SameTerms(c, c');
    }
  }

  // ----- Membership -----

  lemma SameTerms(c: Cluster, c': Cluster)
    requires TermsOk(c) && c'.history == c.history && c'.nodes.Keys == c.nodes.Keys
    requires forall id <- c.nodes :: c'.nodes[id].term == c.nodes[id].term && c'.nodes[id].votedFor == c.nodes[id].votedFor
    ensures TermsOk(c')
  {
    if c.history != [] {
      var id :| id in c.nodes && c.nodes[id].term >= c.history[|c.history| - 1].term;
      assert c'.nodes[id].term >= c.history[|c.history| - 1].term;
    }
  }

  /** Changes that leave every log, term and vote alone. */
  lemma SameRecords(c: Cluster, c': Cluster, n: nat)
    requires Safe(c, n) && c'.history == c.history && c'.epoch == c.epoch && c'.nodes.Keys == c.nodes.Keys
    requires forall id <- c.nodes :: c'.nodes[id].log == c.nodes[id].log && c'.nodes[id].term == c.nodes[id].term
                                     && c'.nodes[id].votedFor == c.nodes[id].votedFor
    requires c'.leader.None? || c'.leader == c.leader
    ensures Safe(c', n)
  {
    hide LogsOk, TermsOk;
    SameLogs(c, c');
    SameTerms(c, c');
  }

  lemma AliveKeeps(c: Cluster, n: nat, id: NodeId, alive: bool)
    requires Safe(c, n)
    ensures Safe(SetAlive(c, id, alive), n)
  {
    hide Safe;
    var c' := SetAlive(c, id, alive);
    assert c'.nodes.Keys == c.nodes.Keys;
    SameRecords(c, c', n);
  }

  lemma RecoverKeeps(c: Cluster, n: nat, id: NodeId)
    requires Safe(c, n)
    ensures Safe(Recover(c, id), n)
  {
    hide Safe;
    if id in c.nodes {
      AliveKeeps(c, n, id, true);
      var c1 := SetAlive(c, id, true);
      if c1.leader.Some? && c1.leader.value in c1.nodes {
        CopyKeeps(c1, n, id, if c1.nodes[id].kind.Full? then FollowerRole else WitnessRole);
      }
    }
  }

  /** A node with the leader's log, term and vote. */
  function Copied(c: Cluster, id: NodeId, role: Role): Cluster
    requires id in c.nodes && c.leader.Some? && c.leader.value in c.nodes
  {
    var source := c.nodes[c.leader.value];
    c.(nodes := c.nodes[id := c.nodes[id].(log := source.log, term := source.term, votedFor := Some(c.leader.value), role := role)])
  }

  lemma CopyKeeps(c: Cluster, n: nat, id: NodeId, role: Role)
    requires Safe(c, n) && id in c.nodes && c.leader.Some? && c.leader.value in c.nodes
    ensures Safe(Copied(c, id, role), n)
  {
    hide HistoryOk, LogOk, Quorum, TermsOk;
    var c' := Copied(c, id, role);
    assert c'.nodes.Keys == c.nodes.Keys;
    assert Holders(c) <= Holders(c');
    LogsKept(c, c');
    CopyTerms(c, id, role);
  }

  lemma CopyTerms(c: Cluster, id: NodeId, role: Role)
    requires TermsOk(c) && LeaderOk(c) && id in c.nodes && c.leader.Some? && c.leader.value in c.nodes
    ensures TermsOk(Copied(c, id, role))
  {
    hide LastIndex;
    var c', l := Copied(c, id, role), c.leader.value;
    assert c'.nodes.Keys == c.nodes.Keys;
    assert id in {id} * c.nodes.Keys;
    VotesKept(c, c', {id}, c.nodes[l].term, l);
  }

  // ----- Writes -----

  lemma AppendedLogs(c: Cluster, ids: set<NodeId>, e: Entry)
    requires LogsOk(c) && ids <= c.nodes.Keys && e.index == |c.history| + 1
    ensures forall id <- c.nodes :: LogOk(c.history + [e], Appended(c.nodes, ids, e)[id].log)
  {
    hide Quorum, Holders, HistoryOk;
    var h, nodes := c.history + [e], Appended(c.nodes, ids, e);
    forall id | id in c.nodes
      ensures LogOk(h, nodes[id].log)
    {
      var log := c.nodes[id].log;
      assert LogOk(c.history, log);
      assert forall i :: 0 <= i < |log| ==> Committed(c.history, log[i]) && Committed(h, log[i]);
      assert Committed(h, e);
    }
  }

  /** What a successful proposal changes. */
  function Extended(c: Cluster, ids: set<NodeId>, e: Entry): Cluster {
    c.(nodes := Appended(c.nodes, ids, e), epoch := e.epoch, history := c.history + [e])
  }

  lemma ExtendLogs(c: Cluster, ids: set<NodeId>, e: Entry)
    requires LogsOk(c) && ids <= c.nodes.Keys && |ids| >= Quorum(c) && |c.history| + 1 < U64_LIMIT
    requires e.index == e.epoch == |c.history| + 1 && (c.history != [] ==> c.history[|c.history| - 1].term <= e.term)
    ensures LogsOk(Extended(c, ids, e)) && ids <= Holders(Extended(c, ids, e))
  {
    hide LogOk;
    var c' := Extended(c, ids, e);
    AppendedLogs(c, ids, e);
    assert c'.nodes.Keys == c.nodes.Keys && |c'.nodes| == |c.nodes|;
    assert ids <= Holders(c');
    SubsetSize(ids, Holders(c'));
  }

  lemma ProposeKeeps(env: ControlEnv, c: Cluster, n: nat, leader: NodeId, record: ControlRecord, failed: set<NodeId>)
    requires Safe(c, n) && n + 1 < U64_LIMIT && leader !in failed
    ensures Safe(Propose(env, c, leader, record, failed).0, n + 1)
  {
    hide LogsOk, TermsOk, HistoryOk, LogOk, HasLeaderQuorum, Connected, Holders;
    var (c', r) := Propose(env, c, leader, record, failed);
    if r.Ok? {
      var e, ids := NextEntry(c, leader, record), Reachable(c, leader) - failed;
      LeaderNewest(c, n, leader);
      assert leader in ids by { LeaderReachable(c, leader); }
      assert ids <= c.nodes.Keys;
      EpochIs(c);
      ExtendLogs(c, ids, e);
      assert c' == Extended(c, ids, e);
      ExtendTerms(c, ids, e, leader);
      assert leader in Holders(c');
      HolderLast(c', leader);
    }
  }

  lemma HolderLast(c: Cluster, id: NodeId)
    requires id in Holders(c)
    ensures id in c.nodes && LastIndex(c.nodes[id].log) == |c.history|
  {
  }

  lemma EpochIs(c: Cluster)
    requires LogsOk(c)
    ensures c.epoch == |c.history|
  {
  }

  lemma LeaderReachable(c: Cluster, leader: NodeId)
    requires HasLeaderQuorum(c, leader)
    ensures leader in Reachable(c, leader)
  {
  }

  /** The leader's term is at least that of every committed entry. */
  lemma LeaderNewest(c: Cluster, n: nat, leader: NodeId)
    requires Safe(c, n) && c.leader == Some(leader)
    ensures leader in c.nodes && LastIndex(c.nodes[leader].log) == |c.history|
    ensures c.history != [] ==> c.history[|c.history| - 1].term <= CurrentTerm(c)
  {
    hide LogsOk, LastIndex;
    if c.history != [] {
      var id :| id in c.nodes && c.nodes[id].term >= c.history[|c.history| - 1].term;
    }
  }

  lemma ExtendTerms(c: Cluster, ids: set<NodeId>, e: Entry, leader: NodeId)
    requires TermsOk(c) && leader in c.nodes && e.term <= c.nodes[leader].term
    ensures TermsOk(Extended(c, ids, e))
  {
    var c' := Extended(c, ids, e);
    assert forall a <- c.nodes :: c'.nodes[a].term == c.nodes[a].term && c'.nodes[a].votedFor == c.nodes[a].votedFor;
    assert c'.nodes[leader].term >= c'.history[|c'.history| - 1].term;
  }

  lemma GrantKeeps(env: ControlEnv, c: Cluster, n: nat, e: ControlEvent)
    requires e.GrantEvent? && Safe(c, n) && n + 1 < U64_LIMIT && LeaderPersists(e)
    ensures Safe(Next(env, c, e), n + 1)
  {
    hide Safe, Propose, Authorize;
    var g := NewGrant(c, e.task, e.attempt, e.worker, e.tick, e.ticks, e.irreversible);
    ProposeKeeps(env, c, n, e.leader, GrantRecord(g), e.failed);
    var c' := Propose(env, c, e.leader, GrantRecord(g), e.failed).0;
    GrantsAside(c', c'.grants[e.task := g], n + 1);
    More(c, n);
  }

  lemma GrantsAside(c: Cluster, grants: Grants, n: nat)
    requires Safe(c, n)
    ensures Safe(c.(grants := grants), n)
  {
    hide Safe;
    var c' := c.(grants := grants);
    SameRecords(c, c', n);
  }

  lemma More(c: Cluster, n: nat)
    requires Safe(c, n)
    ensures Safe(c, n + 1)
  {
    hide LogsOk, TermsOk, LeaderOk;
  }

  // ----- Reopening -----

  /** The highest epoch in any log is the length of the history. */
  lemma MaxEpochIs(c: Cluster, m: u64)
    requires LogsOk(c) && IsMaxEpoch(c.nodes, m)
    ensures m == |c.history|
  {
    hide Quorum;
    forall id | id in c.nodes
      ensures forall e <- c.nodes[id].log :: e.epoch <= |c.history|
    {
      var log := c.nodes[id].log;
      assert LogOk(c.history, log);
      forall e | e in log
        ensures e.epoch <= |c.history|
      {
        var i :| 0 <= i < |log| && log[i] == e;
        assert Committed(c.history, log[i]);
      }
    }
    if c.history != [] {
      var h := AHolder(c);
      var log := c.nodes[h].log;
      assert LogOk(c.history, log) && Committed(c.history, log[|log| - 1]);
      assert log[|log| - 1] in log;
    }
  }

  lemma AHolder(c: Cluster) returns (id: NodeId)
    requires LogsOk(c)
    ensures id in c.nodes && LastIndex(c.nodes[id].log) == |c.history|
  {
    hide HistoryOk, LogOk;
    assert |Holders(c)| > 0;
    id :| id in Holders(c);
  }

  lemma ReopenKeeps(env: ControlEnv, c: Cluster, n: nat, source: NodeId, epoch: u64)
    requires Safe(c, n)
    ensures Safe(Next(env, c, ReopenEvent(source, epoch)), n)
  {
    hide LogsOk, TermsOk, RebuildGrants;
    var c' := Next(env, c, ReopenEvent(source, epoch));
    if c' != c {
      MaxEpochIs(c, epoch);
      EpochIs(c);
      assert c'.nodes.Keys == c.nodes.Keys;
      SameRecords(c, c', n);
    }
  }

  // ----- All runs -----

  lemma NextKeeps(env: ControlEnv, c: Cluster, n: nat, e: ControlEvent)
    requires Safe(c, n) && n + 1 < U64_LIMIT && LeaderPersists(e)
    ensures Safe(Next(env, c, e), n + 1)
  {
    hide Safe, Elect, SetAlive, Recover, Propose, IssueGrant, Reopen, HasLeaderQuorum;
    More(c, n);
    match e
    case ElectEvent(candidate) => ElectKeeps(c, n, candidate);
    case AliveEvent(node, alive) => AliveKeeps(c, n + 1, node, alive);
    case IsolateEvent(node, isolated) => SameRecords(c, Isolate(c, node, isolated), n + 1);
    case RecoverEvent(node) => RecoverKeeps(c, n + 1, node);
    case RenewEvent(leader, tick, ticks) => SameRecords(c, Renew(c, leader, tick, ticks), n + 1);
    case ProposeEvent(leader, record, failed) => ProposeKeeps(env, c, n, leader, record, failed);
    case GrantEvent(_, _, _, _, _, _, _, _) => GrantKeeps(env, c, n, e);
    case ReopenEvent(source, epoch) => ReopenKeeps(env, c, n + 1, source, epoch);
  }

  /**
   In every run, whatever follower disks fail: each index and epoch is committed once, in order
   from one; terms never decrease; a quorum holds the newest entry; the leader does too and its
   term is the highest; nodes of one term voted for one candidate.
   */
  lemma {:induction false} EveryRunSafe(env: ControlEnv, kinds: map<NodeId, NodeKind>, events: seq<ControlEvent>)
    requires Admissible(kinds) && |events| + 1 < U64_LIMIT
    requires forall e <- events :: LeaderPersists(e)
    ensures Safe(RunFrom(env, Start(kinds), events), |events|)
    decreases |events|
  {
    hide Safe, Next;
    if events == [] {
      StartSafe(kinds);
    } else {
      var n := |events| - 1;
      assert forall e :: e in events[..n] ==> e in events;
      assert events[n] in events;
      EveryRunSafe(env, kinds, events[..n]);
      NextKeeps(env, RunFrom(env, Start(kinds), events[..n]), n, events[n]);
    }
  }

  /** Committed entries are never withdrawn. */
  lemma {:induction false} HistoryGrows(env: ControlEnv, c: Cluster, events: seq<ControlEvent>)
    ensures c.history <= RunFrom(env, c, events).history
    decreases |events|
  {
    hide Next;
    if events != [] {
      HistoryGrows(env, c, events[..|events| - 1]);
      NextHistory(env, RunFrom(env, c, events[..|events| - 1]), events[|events| - 1]);
    }
  }

  /** A step commits at most one entry, and only a write commits any. */
  lemma NextHistory(env: ControlEnv, c: Cluster, e: ControlEvent)
    ensures var h := Next(env, c, e).history; h == c.history || (|h| == |c.history| + 1 && c.history < h)
    ensures !e.ProposeEvent? && !e.GrantEvent? ==> Next(env, c, e).history == c.history
  {
    hide RebuildGrants, Authorize, HasLeaderQuorum, MaxTerm, Voters, Appended, Reachable, NextEntry, GrantRecord;
  }

  // ----- Why the leader must persist -----

  /**
   After a successful proposal the leader holds the newest entry exactly when its own write
   succeeded.  Otherwise its next proposal reuses the index.
   */
  lemma LeaderMustPersist(env: ControlEnv, c: Cluster, n: nat, leader: NodeId, record: ControlRecord, failed: set<NodeId>)
    requires Safe(c, n) && n + 1 < U64_LIMIT && Propose(env, c, leader, record, failed).1.Ok?
    ensures var c' := Propose(env, c, leader, record, failed).0;
            && leader in c'.nodes
            && (LastIndex(c'.nodes[leader].log) == |c'.history| <==> leader !in failed)
            && (leader in failed ==> NextEntry(c', leader, record).index == c'.history[|c'.history| - 1].index)
  {
    hide LogsOk, TermsOk, HasLeaderQuorum, Connected;
    LeaderNewest(c, n, leader);
    LeaderReachable(c, leader);
    EpochIs(c);
  }

  /**
   Of two successful proposals in a row, the second commits the index of the first again exactly
   when the leader could not write the first to its own log.
   */
  lemma IndexCommittedTwice(
    env: ControlEnv, c: Cluster, n: nat, leader: NodeId, first: ControlRecord, second: ControlRecord, failed: set<NodeId>, failed': set<NodeId>)
    requires Safe(c, n) && n + 2 < U64_LIMIT && Propose(env, c, leader, first, failed).1.Ok?
    requires Propose(env, Propose(env, c, leader, first, failed).0, leader, second, failed').1.Ok?
    ensures var h := Propose(env, Propose(env, c, leader, first, failed).0, leader, second, failed').0.history;
            && |h| == |c.history| + 2 && c.history < h
            && (h[|c.history| + 1].index == h[|c.history|].index <==> leader in failed)
  {
    hide LogsOk, TermsOk, HasLeaderQuorum, Connected, Quorum;
    LeaderNewest(c, n, leader);
    LeaderReachable(c, leader);
    EpochIs(c);
  }

  // ----- Disciplined runs -----

  /** Every log is a prefix of the history. */
  predicate Prefixes(c: Cluster) {
    forall id <- c.nodes :: c.nodes[id].log <= c.history
  }

  /** Before a write, every node that will persist it has the leader's log. */
  predicate InStep(c: Cluster, leader: NodeId, failed: set<NodeId>) {
    leader in c.nodes && forall id <- Reachable(c, leader) - failed :: c.nodes[id].log == c.nodes[leader].log
  }

  predicate Disciplined(c: Cluster, e: ControlEvent) {
    (e.ProposeEvent? || e.GrantEvent?) && c.leader == Some(e.leader) ==> InStep(c, e.leader, e.failed)
  }

  lemma PrefixNewest(h: EntryLog, log: EntryLog)
    requires HistoryOk(h) && log <= h && LastIndex(log) == |h|
    ensures log == h
  {
    if log != [] {
      assert log[|log| - 1] == h[|log| - 1];
    }
  }

  /** The leader of a disciplined run holds the whole history. */
  lemma LeaderComplete(c: Cluster, n: nat)
    requires Safe(c, n) && Prefixes(c) && c.leader.Some?
    ensures c.leader.value in c.nodes && c.nodes[c.leader.value].log == c.history
  {
    hide LogOk, Quorum, Holders, TermsOk;
    PrefixNewest(c.history, c.nodes[c.leader.value].log);
  }

  /**
   A write keeps every log a prefix of the history exactly when every node that persisted it had
   the whole history before.
   */
  lemma PrefixesExactly(env: ControlEnv, c: Cluster, n: nat, leader: NodeId, record: ControlRecord, failed: set<NodeId>)
    requires Safe(c, n) && n + 1 < U64_LIMIT && Prefixes(c) && Propose(env, c, leader, record, failed).1.Ok?
    ensures Prefixes(Propose(env, c, leader, record, failed).0) <==>
            forall id <- Reachable(c, leader) - failed :: c.nodes[id].log == c.history
  {
    hide HasLeaderQuorum, Connected, LogOk, Holders, TermsOk, Quorum;
    var (c', r) := Propose(env, c, leader, record, failed);
    var e, ids := r.value, Reachable(c, leader) - failed;
    LeaderNewest(c, n, leader);
    if Prefixes(c') {
      forall id | id in ids
        ensures c.nodes[id].log == c.history
      {
        var log := c.nodes[id].log;
        assert c'.nodes[id].log == log + [e] && log + [e] <= c.history + [e];
        AppendAt(c.history, log, e);
        assert |log| == |c.history|;
      }
    }
  }

  lemma AppendAt(h: EntryLog, log: EntryLog, e: Entry)
    requires log <= h && log + [e] <= h + [e]
    ensures (h + [e])[|log|] == e
  {
    assert (log + [e])[|log|] == e;
  }

  lemma NextPrefixes(env: ControlEnv, c: Cluster, n: nat, e: ControlEvent)
    requires Safe(c, n) && n + 1 < U64_LIMIT && Prefixes(c) && Disciplined(c, e)
    ensures Prefixes(Next(env, c, e))
  {
    hide Safe, Elect, Propose, RebuildGrants, Authorize, HasLeaderQuorum, MaxTerm, Reachable, Connected, NewGrant, GrantRecord;
    match e
    case ElectEvent(candidate) => ElectLogs(c, candidate);
    case ProposeEvent(leader, record, failed) => WritePrefixes(env, c, n, leader, record, failed);
    case GrantEvent(leader, task, attempt, worker, tick, ticks, irreversible, failed) =>
      WritePrefixes(env, c, n, leader, GrantRecord(NewGrant(c, task, attempt, worker, tick, ticks, irreversible)), failed);
    case _ =>
  }

  lemma ElectLogs(c: Cluster, candidate: NodeId)
    ensures var c' := Elect(c, candidate).0;
            c'.history == c.history && c'.nodes.Keys == c.nodes.Keys && forall id <- c.nodes :: c'.nodes[id].log == c.nodes[id].log
  {
  }

  lemma WritePrefixes(env: ControlEnv, c: Cluster, n: nat, leader: NodeId, record: ControlRecord, failed: set<NodeId>)
    requires Safe(c, n) && n + 1 < U64_LIMIT && Prefixes(c) && (c.leader == Some(leader) ==> InStep(c, leader, failed))
    ensures Prefixes(Propose(env, c, leader, record, failed).0)
  {
    hide Safe, HasLeaderQuorum, Reachable, Prefixes;
    if Propose(env, c, leader, record, failed).1.Ok? {
      LeaderComplete(c, n);
      PrefixesExactly(env, c, n, leader, record, failed);
    } else {
      assert Propose(env, c, leader, record, failed).0 == c;
    }
  }

  ghost predicate DisciplinedRun(env: ControlEnv, c: Cluster, events: seq<ControlEvent>)
    decreases |events|
  {
    events == [] ||
    (var n := |events| - 1;
     && DisciplinedRun(env, c, events[..n]) && LeaderPersists(events[n]) && Disciplined(RunFrom(env, c, events[..n]), events[n]))
  }

  /** In every disciplined run all logs are prefixes of the history; the leader's is the whole of it. */
  lemma {:induction false} DisciplinedRunComplete(env: ControlEnv, c: Cluster, n: nat, events: seq<ControlEvent>)
    requires Safe(c, n) && Prefixes(c) && n + |events| + 1 < U64_LIMIT && DisciplinedRun(env, c, events)
    ensures var c' := RunFrom(env, c, events);
            && Safe(c', n + |events|) && Prefixes(c')
            && (c'.leader.Some? ==> c'.leader.value in c'.nodes && c'.nodes[c'.leader.value].log == c'.history)
    decreases |events|
  {
    hide Safe, Prefixes, Next, Disciplined, LeaderPersists;
    if events != [] {
      var k := |events| - 1;
      DisciplinedRunComplete(env, c, n, events[..k]);
      var mid := RunFrom(env, c, events[..k]);
      NextKeeps(env, mid, n + k, events[k]);
      NextPrefixes(env, mid, n + k, events[k]);
    }
    var c' := RunFrom(env, c, events);
    if c'.leader.Some? {
      LeaderComplete(c', n + |events|);
    }
  }

  // ----- How to be disciplined -----

  function RecoverEvents(ids: seq<NodeId>): seq<ControlEvent> {
    if ids == [] then [] else RecoverEvents(ids[..|ids| - 1]) + [RecoverEvent(ids[|ids| - 1])]
  }

  /** Only logs changed on the way from `c` to `c'`, and those of `ids` became the leader's. */
  predicate CaughtUp(c: Cluster, c': Cluster, leader: NodeId, ids: seq<NodeId>) {
    && c'.leader == c.leader && c'.nodes.Keys == c.nodes.Keys && Reachable(c', leader) == Reachable(c, leader)
    && leader in c.nodes && c'.nodes[leader].log == c.nodes[leader].log
    && forall id <- ids :: id in c.nodes && c'.nodes[id].log == c.nodes[leader].log
  }

  lemma RecoverOne(c: Cluster, id: NodeId, leader: NodeId)
    requires c.leader == Some(leader) && leader in c.nodes && id in Reachable(c, leader)
    ensures var c' := Recover(c, id);
            && CaughtUp(c, c', leader, [id])
            && (forall other <- c.nodes :: other != id ==> c'.nodes[other] == c.nodes[other])
  {
    var c' := Recover(c, id);
    assert {id, leader} == {leader, id};
    assert c'.nodes.Keys == c.nodes.Keys;
    assert forall other <- c.nodes :: c'.nodes[other].alive == c.nodes[other].alive;
  }

  lemma CatchUp(c: Cluster, c1: Cluster, c2: Cluster, leader: NodeId, start: seq<NodeId>, last: NodeId)
    requires CaughtUp(c, c1, leader, start) && CaughtUp(c1, c2, leader, [last])
    requires forall other <- c1.nodes :: other != last ==> c2.nodes[other] == c1.nodes[other]
    ensures CaughtUp(c, c2, leader, start + [last])
  {
    hide Reachable;
    assert last in [last];
    forall id | id in start + [last]
      ensures id in c.nodes && c2.nodes[id].log == c.nodes[leader].log
    {
    }
  }

  /** Recovering nodes one by one gives each the leader's log and changes nothing else that matters. */
  lemma {:induction false} RecoverAllInStep(env: ControlEnv, c: Cluster, ids: seq<NodeId>, leader: NodeId)
    requires c.leader == Some(leader) && leader in c.nodes && forall id <- ids :: id in Reachable(c, leader)
    ensures CaughtUp(c, RunFrom(env, c, RecoverEvents(ids)), leader, ids)
    decreases |ids|
  {
    hide Recover, Reachable, CaughtUp;
    if ids == [] {
      CaughtUpNone(c, leader);
    } else {
      var start, last := ids[..|ids| - 1], ids[|ids| - 1];
      assert forall id :: id in start ==> id in ids;
      RecoverAllInStep(env, c, start, leader);
      var mid, events := RunFrom(env, c, RecoverEvents(start)), RecoverEvents(ids);
      assert events[..|events| - 1] == RecoverEvents(start);
      assert last in ids;
      CaughtUpReach(c, mid, leader, start);
      RecoverOne(mid, last, leader);
      CatchUp(c, mid, Recover(mid, last), leader, start, last);
      assert start + [last] == ids;
    }
  }

  lemma CaughtUpNone(c: Cluster, leader: NodeId)
    requires leader in c.nodes
    ensures CaughtUp(c, c, leader, [])
  {
  }

  lemma CaughtUpReach(c: Cluster, c': Cluster, leader: NodeId, ids: seq<NodeId>)
    requires CaughtUp(c, c', leader, ids)
    ensures c'.leader == c.leader && leader in c'.nodes && Reachable(c', leader) == Reachable(c, leader)
  {
    hide Reachable;
  }

  /** Once all reachable nodes have caught up, a write is disciplined whichever disks fail. */
  lemma CaughtUpInStep(c: Cluster, c': Cluster, leader: NodeId, ids: seq<NodeId>, failed: set<NodeId>)
    requires CaughtUp(c, c', leader, ids) && forall id <- Reachable(c, leader) :: id in ids
    ensures InStep(c', leader, failed)
  {
    hide Reachable;
  }
}
