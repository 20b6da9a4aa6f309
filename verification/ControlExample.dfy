/** Reachable runs in which an entry is lost, a fenced grant comes back, or an index is committed twice. */
module ControlExample {
  import opened Wire
  import opened Outcomes
  import opened Tasks
  import opened Control
  import opened ControlSafety
  import opened ControlGrants
  import opened ControlEntries

  /** Three node names, a task and a worker. */
  datatype Cast = Cast(a: NodeId, b: NodeId, c: NodeId, task: TaskId, worker: NodeId) {
    predicate Distinct() { a != b && a != c && b != c }

    function All(): set<NodeId> { {a, b, c} }

    function Kinds(): map<NodeId, NodeKind> { map id <- All() :: Full }

    function Granted(epoch: u64): Grant { Grant(task, 1, worker, 1, epoch, 1, 51, false) }

    function Logged(epoch: u64): Entry { Entry(epoch, 1, epoch, GrantRecord(Granted(epoch))) }

    function Issue(failed: set<NodeId>): ControlEvent { GrantEvent(a, task, 1, worker, 1, 50, false, failed) }

    /** Leader `a` and follower `b` with one log, follower `c` with another. */
    function Trio(log: EntryLog, lagging: EntryLog, epoch: u64, grants: Grants): Cluster {
      Cluster(map id <- All() :: Member(if id == a then LeaderRole else FollowerRole, a, if id == c then lagging else log),
              map[], Some(a), Some(Lease(a, 1, 1, 101)), epoch, grants, log)
    }
  }

  function Member(role: Role, leader: NodeId, log: EntryLog): ControlNode {
    ControlNode(Full, role, 1, Some(leader), log, true)
  }

  const NOTE := ControlRecord("note", Membership, map[])
  const FINAL := Entry(3, 1, 3, NOTE)

  lemma Sizes(x: Cast)
    requires x.Distinct()
    ensures |x.All()| == 3 && |{x.a, x.b}| == 2 && x.All() - {x.c} == {x.a, x.b} && x.All() - {} == x.All()
    ensures |{x.b, x.c}| == 2 && x.All() - {x.a} == {x.b, x.c}
  {
    assert x.All() == {x.a, x.b} + {x.c};
  }

  lemma TrioReach(x: Cast, c: Cluster, observer: NodeId)
    requires x.Distinct() && c.nodes.Keys == x.All() && c.links == map[] && forall id <- c.nodes :: c.nodes[id].alive
    ensures Reachable(c, observer) == x.All() && Quorum(c) == 2
  {
    Sizes(x);
    assert |c.nodes.Keys| == 3;
  }

  lemma Election(x: Cast)
    requires x.Distinct()
    ensures Elect(Start(x.Kinds()), x.a).0 == x.Trio([], [], 0, map[]).(lease := None)
  {
    hide Quorum, MaxTerm;
    var c := Start(x.Kinds());
    TrioReach(x, c, x.a);
    Sizes(x);
    assert MaxTerm(c.nodes) == 0;
    assert Voters(c, x.a) == x.All();
    assert Elect(c, x.a).0.nodes == x.Trio([], [], 0, map[]).nodes;
  }

  lemma Elected(env: ControlEnv, x: Cast)
    requires x.Distinct()
    ensures Next(env, Next(env, Start(x.Kinds()), ElectEvent(x.a)), RenewEvent(x.a, 1, 100)) == x.Trio([], [], 0, map[])
  {
    hide Reachable, Quorum, Elect, Start, x.Kinds;
    var c := x.Trio([], [], 0, map[]).(lease := None);
    Election(x);
    TrioReach(x, c, x.a);
    Sizes(x);
  }

  /** In a trio the leader has its quorum, its lease and the next entry. */
  lemma TrioLeads(x: Cast, log: EntryLog, lagging: EntryLog, grants: Grants, record: ControlRecord)
    requires x.Distinct() && |log| < 10 && LastIndex(log) == |log|
    ensures var c := x.Trio(log, lagging, |log|, grants);
            && x.a in c.nodes && HasLeaderQuorum(c, x.a) && CurrentTerm(c) == 1 && Reachable(c, x.a) == x.All() && Quorum(c) == 2
            && NextEntry(c, x.a, record) == Entry(|log| + 1, 1, |log| + 1, record)
            && Authorize(c, x.a, DurableWrite, None, 1) == Ok(())
  {
    hide LastIndex, Reachable, Quorum;
    TrioReach(x, x.Trio(log, lagging, |log|, grants), x.a);
    Sizes(x);
  }

  lemma TrioAppend(x: Cast, log: EntryLog, lagging: EntryLog, epoch: u64, grants: Grants, e: Entry)
    requires x.Distinct()
    ensures Appended(x.Trio(log, lagging, epoch, grants).nodes, x.All(), e) == x.Trio(log + [e], lagging + [e], epoch, grants).nodes
    ensures Appended(x.Trio(log, lagging, epoch, grants).nodes, {x.a, x.b}, e) == x.Trio(log + [e], lagging, epoch, grants).nodes
  {
  }

  lemma Written(env: ControlEnv, x: Cast, log: EntryLog, lagging: EntryLog, grants: Grants, record: ControlRecord, failed: set<NodeId>)
    requires x.Distinct() && |log| < 10 && env.recordSize(record) <= MAX_RECORD && (failed == {} || failed == {x.c})
    requires LastIndex(log) == |log|
    ensures var e, c := Entry(|log| + 1, 1, |log| + 1, record), x.Trio(log, lagging, |log|, grants);
            Propose(env, c, x.a, record, failed) ==
            (x.Trio(log + [e], if failed == {} then lagging + [e] else lagging, |log| + 1, grants), Ok(e))
  {
    hide LastIndex, Reachable, Quorum, HasLeaderQuorum, NextEntry, Appended, Member, x.All;
    var e := Entry(|log| + 1, 1, |log| + 1, record);
    TrioLeads(x, log, lagging, grants, record);
    TrioAppend(x, log, lagging, |log|, grants, e);
    Sizes(x);
  }

  lemma Issued(env: ControlEnv, x: Cast, log: EntryLog, lagging: EntryLog, grants: Grants, failed: set<NodeId>)
    requires x.Distinct() && |log| < 10 && (failed == {} || failed == {x.c}) && LastIndex(log) == |log|
    requires env.recordSize(GrantRecord(x.Granted(|log| + 1))) <= MAX_RECORD
    ensures var e := x.Logged(|log| + 1);
            Next(env, x.Trio(log, lagging, |log|, grants), x.Issue(failed)) ==
            x.Trio(log + [e], if failed == {} then lagging + [e] else lagging, |log| + 1, grants[x.task := x.Granted(|log| + 1)])
  {
    hide LastIndex, Propose, GrantRecord, Authorize, CurrentTerm, NextEntry, HasLeaderQuorum, Reachable, Quorum, Member, x.All;
    var record := GrantRecord(x.Granted(|log| + 1));
    TrioLeads(x, log, lagging, grants, record);
    Written(env, x, log, lagging, grants, record, failed);
  }

  lemma Rebuilt(x: Cast)
    ensures RebuildGrants([x.Logged(1), FINAL]) == Ok(map[x.task := x.Granted(1)])
  {
    hide ParseGrant;
    GrantRoundTrip(x.Granted(1), 1);
    assert [x.Logged(1), FINAL] == [x.Logged(1)] + [FINAL] && [x.Logged(1)] == [] + [x.Logged(1)];
    RebuildAppend([], x.Logged(1));
    RebuildAppend([x.Logged(1)], FINAL);
  }

  // ----- A committed entry that no node keeps -----

  /** Every node has this log. */
  predicate AllHave(x: Cast, c: Cluster, log: EntryLog) {
    c.nodes.Keys == x.All() && forall id <- c.nodes :: c.nodes[id].log == log
  }

  /** The lagging node wins an election against nodes with the same last index. */
  lemma LaggingWins(x: Cast, log: EntryLog, lagging: EntryLog, epoch: u64, grants: Grants)
    requires x.Distinct() && LastIndex(log) == LastIndex(lagging)
    ensures var c := x.Trio(log, lagging, epoch, grants);
            var (d, r) := Elect(c, x.c);
            && r.Ok? && d.leader == Some(x.c) && d.grants == grants && d.history == log && d.nodes.Keys == x.All()
            && d.nodes[x.c].log == lagging && Reachable(d, x.c) == x.All()
  {
    hide LastIndex, MaxTerm, Quorum, Reachable;
    var c := x.Trio(log, lagging, epoch, grants);
    TrioReach(x, c, x.c);
    Sizes(x);
    assert Voters(c, x.c) == x.All();
    TrioReach(x, Elect(c, x.c).0, x.c);
  }

  lemma RecoverRest(c: Cluster, id: NodeId)
    ensures Recover(c, id).history == c.history && Recover(c, id).grants == c.grants
  {
  }

  /** After the other two recover from it, all three have its log. */
  lemma BothRecover(x: Cast, d: Cluster)
    requires x.Distinct() && d.leader == Some(x.c) && d.nodes.Keys == x.All() && Reachable(d, x.c) == x.All()
    ensures var e := Recover(Recover(d, x.a), x.b);
            AllHave(x, e, d.nodes[x.c].log) && e.history == d.history && e.grants == d.grants
  {
    hide Recover, Reachable;
    var d1 := Recover(d, x.a);
    RecoverOne(d, x.a, x.c);
    RecoverRest(d, x.a);
    assert x.a in [x.a];
    RecoverOne(d1, x.b, x.c);
    RecoverRest(d1, x.b);
    assert x.b in [x.b];
  }

  // ----- The run -----

  /** The last of the three names in key order. */
  function LastName(x: Cast): (name: NodeId)
    ensures name in x.All() && forall other <- x.All() :: TextLe(other, name)
  {
    TextTotal(x.a, x.b);
    TextTotal(x.b, x.c);
    TextTotal(x.a, x.c);
    TextTotal(x.a, x.a);
    TextTotal(x.b, x.b);
    TextTotal(x.c, x.c);
    if TextLe(x.a, x.c) && TextLe(x.b, x.c) then x.c
    else if TextLe(x.a, x.b) && TextLe(x.c, x.b) then x.b
    else
      assert TextLe(x.b, x.a) && TextLe(x.c, x.a) by { LastIsFirst(x); }
      x.a
  }

  lemma LastIsFirst(x: Cast)
    requires !(TextLe(x.a, x.c) && TextLe(x.b, x.c)) && !(TextLe(x.a, x.b) && TextLe(x.c, x.b))
    ensures TextLe(x.b, x.a) && TextLe(x.c, x.a)
  {
    hide TextLe;
    TextTotal(x.a, x.b);
    TextTotal(x.b, x.c);
    TextTotal(x.a, x.c);
    if TextLe(x.c, x.b) && TextLe(x.b, x.a) { TextTransitive(x.c, x.b, x.a); }
    if TextLe(x.b, x.c) && TextLe(x.c, x.a) { TextTransitive(x.b, x.c, x.a); }
  }

  /**
   Elect `a`, renew, grant, grant while `c` cannot write, write again; then elect `c`, recover the
   others and reopen.
   */
  function Events(x: Cast): seq<ControlEvent> {
    [ElectEvent(x.a), RenewEvent(x.a, 1, 100), x.Issue({}), x.Issue({x.c}), ProposeEvent(x.a, NOTE, {}),
     ElectEvent(x.c), RecoverEvent(x.a), RecoverEvent(x.b), ReopenEvent(LastName(x), 3)]
  }

  /** The three records of the run are small enough to be proposed. */
  predicate Small(env: ControlEnv, x: Cast) {
    && env.recordSize(GrantRecord(x.Granted(1))) <= MAX_RECORD && env.recordSize(GrantRecord(x.Granted(2))) <= MAX_RECORD
    && env.recordSize(NOTE) <= MAX_RECORD
  }

  lemma RunOne(env: ControlEnv, c: Cluster, events: seq<ControlEvent>, k: nat)
    requires k < |events|
    ensures RunFrom(env, c, events[..k + 1]) == Next(env, RunFrom(env, c, events[..k]), events[k])
  {
    hide Next;
    assert events[..k + 1][..k] == events[..k];
  }

  lemma FirstFour(env: ControlEnv, x: Cast)
    requires x.Distinct() && Small(env, x)
    ensures RunFrom(env, Start(x.Kinds()), Events(x)[..4]) == x.Trio([x.Logged(1), x.Logged(2)], [x.Logged(1)], 2, map[x.task := x.Granted(2)])
  {
    hide Next, GrantRecord, x.Trio, x.Kinds, Start, LastName;
    var start, events, e1, e2 := Start(x.Kinds()), Events(x), x.Logged(1), x.Logged(2);
    assert events[..0] == [];
    RunOne(env, start, events, 0);
    RunOne(env, start, events, 1);
    Elected(env, x);
    RunOne(env, start, events, 2);
    Issued(env, x, [], [], map[], {});
    assert [] + [e1] == [e1];
    RunOne(env, start, events, 3);
    Issued(env, x, [e1], [e1], map[x.task := x.Granted(1)], {x.c});
    assert [e1] + [e2] == [e1, e2];
    assert map[x.task := x.Granted(1)][x.task := x.Granted(2)] == map[x.task := x.Granted(2)];
  }

  lemma LastWrite(env: ControlEnv, x: Cast, live: Grants)
    requires x.Distinct() && env.recordSize(NOTE) <= MAX_RECORD
    ensures Next(env, x.Trio([x.Logged(1), x.Logged(2)], [x.Logged(1)], 2, live), ProposeEvent(x.a, NOTE, {})) ==
            x.Trio([x.Logged(1), x.Logged(2), FINAL], [x.Logged(1), FINAL], 3, live)
  {
    hide GrantRecord, Propose, x.Trio;
    var e1, e2 := x.Logged(1), x.Logged(2);
    Written(env, x, [e1, e2], [e1], live, NOTE, {});
    assert [e1, e2] + [FINAL] == [e1, e2, FINAL] && [e1] + [FINAL] == [e1, FINAL];
  }

  /** The state before the reopening. */
  lemma FirstEight(env: ControlEnv, x: Cast)
    requires x.Distinct() && Small(env, x)
    ensures var c := RunFrom(env, Start(x.Kinds()), Events(x)[..8]);
            && AllHave(x, c, [x.Logged(1), FINAL]) && c.history == [x.Logged(1), x.Logged(2), FINAL]
            && c.grants == map[x.task := x.Granted(2)]
  {
    hide GrantRecord, x.Trio, x.Kinds, Start, LastName, RunFrom, Elect, Recover, Propose, AllHave, Reachable;
    var start, events, live := Start(x.Kinds()), Events(x), map[x.task := x.Granted(2)];
    FirstFour(env, x);
    RunOne(env, start, events, 4);
    LastWrite(env, x, live);
    RunOne(env, start, events, 5);
    LaggingWins(x, [x.Logged(1), x.Logged(2), FINAL], [x.Logged(1), FINAL], 3, live);
    RunOne(env, start, events, 6);
    RunOne(env, start, events, 7);
    BothRecover(x, RunFrom(env, start, events[..6]));
  }

  lemma Disciplines(x: Cast)
    requires x.Distinct()
    ensures forall e <- Events(x) :: LeaderPersists(e) && OnlyIssued(e)
  {
    hide LastName, GrantRecord;
  }

  /** A committed entry that no node keeps: the code withdraws it by electing and recovering. */
  lemma CommittedEntryLost(env: ControlEnv, x: Cast)
    requires x.Distinct() && Small(env, x)
    ensures Admissible(x.Kinds()) && forall e <- Events(x) :: LeaderPersists(e)
    ensures var c := RunFrom(env, Start(x.Kinds()), Events(x)[..8]);
            && x.Logged(2) in RunFrom(env, Start(x.Kinds()), Events(x)[..4]).history && x.Logged(2) in c.history
            && Keepers(c, x.Logged(2)) == {}
  {
    hide GrantRecord, x.Kinds, Start, LastName, RunFrom, Admissible, Events;
    Disciplines(x);
    FirstFour(env, x);
    FirstEight(env, x);
    KindsFit(x);
    assert x.Logged(2) != x.Logged(1) && x.Logged(2) != FINAL;
  }

  // ----- The grant that returns -----

  lemma Reopening(env: ControlEnv, x: Cast, c: Cluster)
    requires x.Distinct() && AllHave(x, c, [x.Logged(1), FINAL])
    ensures Next(env, c, ReopenEvent(LastName(x), 3)).grants == map[x.task := x.Granted(1)]
  {
    hide GrantRecord, RebuildGrants, LastName, TextLe;
    var source := LastName(x);
    var log := c.nodes[source].log;
    assert log == [x.Logged(1), FINAL];
    Rebuilt(x);
    assert FINAL in log;
    assert IsMaxEpoch(c.nodes, 3);
    assert Chosen(c.nodes, source);
  }

  /**
   The grant of epoch 1 was superseded by that of epoch 2; after the reopening it is honoured
   again and the later one is fenced, whichever log is read.
   */
  lemma FencedGrantReturns(env: ControlEnv, x: Cast)
    requires x.Distinct() && Small(env, x)
    ensures Admissible(x.Kinds()) && forall e <- Events(x) :: LeaderPersists(e) && OnlyIssued(e)
    ensures Superseded(RunFrom(env, Start(x.Kinds()), Events(x)[..8]), x.Granted(1))
    ensures var c := RunFrom(env, Start(x.Kinds()), Events(x));
            ValidateResult(c, x.Granted(1), 10) == Ok(()) && ValidateResult(c, x.Granted(2), 10) == Err(Fenced)
  {
    hide Next, GrantRecord, RunFrom, AllHave, x.Kinds, Start, Admissible, LastName;
    var start, events := Start(x.Kinds()), Events(x);
    FirstEight(env, x);
    RunOne(env, start, events, 8);
    assert events[..9] == events;
    Reopening(env, x, RunFrom(env, start, events[..8]));
    Disciplines(x);
    KindsFit(x);
  }

  lemma KindsFit(x: Cast)
    requires x.Distinct()
    ensures Admissible(x.Kinds())
  {
    Sizes(x);
    assert (set id <- x.Kinds() | x.Kinds()[id].Full?) == x.All();
  }

  // ----- An index that is committed twice -----

  /** Elect `a`, then propose twice while its own disk fails. */
  function TwiceEvents(x: Cast): seq<ControlEvent> {
    [ElectEvent(x.a), ProposeEvent(x.a, NOTE, {x.a}), ProposeEvent(x.a, NOTE, {x.a})]
  }

  /** The leader's log stays empty while the others take what it proposes. */
  function Hollow(x: Cast, log: EntryLog): Cluster {
    Cluster(map id <- x.All() :: Member(if id == x.a then LeaderRole else FollowerRole, x.a, if id == x.a then [] else log),
            map[], Some(x.a), None, |log| % U64_LIMIT, map[], log)
  }

  lemma HollowLeads(x: Cast, log: EntryLog)
    requires x.Distinct() && |log| < 10
    ensures var c := Hollow(x, log);
            && x.a in c.nodes && HasLeaderQuorum(c, x.a) && Reachable(c, x.a) == x.All() && Quorum(c) == 2
            && NextEntry(c, x.a, NOTE) == Entry(1, 1, |log| + 1, NOTE)
  {
    hide Reachable, Quorum;
    TrioReach(x, Hollow(x, log), x.a);
    Sizes(x);
  }

  lemma HollowAppend(x: Cast, log: EntryLog, e: Entry)
    requires x.Distinct()
    ensures Appended(Hollow(x, log).nodes, {x.b, x.c}, e) == Hollow(x, log + [e]).nodes
  {
  }

  lemma HollowWrites(env: ControlEnv, x: Cast, log: EntryLog)
    requires x.Distinct() && env.recordSize(NOTE) <= MAX_RECORD && |log| < 10
    ensures Propose(env, Hollow(x, log), x.a, NOTE, {x.a}).0 == Hollow(x, log + [Entry(1, 1, |log| + 1, NOTE)])
  {
    hide Reachable, Quorum, HasLeaderQuorum, NextEntry, Appended, Member, x.All;
    HollowLeads(x, log);
    HollowAppend(x, log, Entry(1, 1, |log| + 1, NOTE));
    Sizes(x);
  }

  /** Two different entries are committed at index 1. */
  lemma IndexTwiceReached(env: ControlEnv, x: Cast)
    requires x.Distinct() && env.recordSize(NOTE) <= MAX_RECORD
    ensures Admissible(x.Kinds())
    ensures RunFrom(env, Start(x.Kinds()), TwiceEvents(x)).history == [Entry(1, 1, 1, NOTE), Entry(1, 1, 2, NOTE)]
  {
    hide x.Kinds, Start, Propose, Elect, RunFrom, Admissible, x.Trio, Hollow;
    var start, events := Start(x.Kinds()), TwiceEvents(x);
    assert events[..0] == [] && events[..3] == events;
    RunOne(env, start, events, 0);
    RunOne(env, start, events, 1);
    RunOne(env, start, events, 2);
    RunNone(env, start);
    Election(x);
    HollowStart(x);
    HollowWrites(env, x, []);
    assert [] + [Entry(1, 1, 1, NOTE)] == [Entry(1, 1, 1, NOTE)];
    HollowWrites(env, x, [Entry(1, 1, 1, NOTE)]);
    assert [Entry(1, 1, 1, NOTE)] + [Entry(1, 1, 2, NOTE)] == [Entry(1, 1, 1, NOTE), Entry(1, 1, 2, NOTE)];
    HollowHistory(x, [Entry(1, 1, 1, NOTE), Entry(1, 1, 2, NOTE)]);
    KindsFit(x);
  }

  lemma RunNone(env: ControlEnv, c: Cluster)
    ensures RunFrom(env, c, []) == c
  {
  }

  lemma HollowStart(x: Cast)
    ensures x.Trio([], [], 0, map[]).(lease := None) == Hollow(x, [])
  {
  }

  lemma HollowHistory(x: Cast, log: EntryLog)
    ensures Hollow(x, log).history == log
  {
  }
}
