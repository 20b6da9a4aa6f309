/** Execution grants: the log and the live map agree, so a superseded grant stays rejected. */
module ControlGrants {
  import opened Wire
  import opened Outcomes
  import opened Tasks
  import opened Control
  import opened ControlSafety

  // ----- A grant survives its textual form -----

  lemma {:induction false} DigitsRoundTrip(n: nat)
    ensures DigitsValue(ToText(n)) == Some(n) && IsDigit(ToText(n)[0])
  {
    var s := ToText(n);
    if n < 10 {
      assert s[..0] == [];
    } else {
      DigitsRoundTrip(n / 10);
      assert s[..|s| - 1] == ToText(n / 10);
      assert s[0] == ToText(n / 10)[0];
    }
  }

  lemma NumberRoundTrip(n: nat, limit: nat)
    requires n < limit
    ensures ParseText(ToText(n), limit) == Some(n)
  {
    DigitsRoundTrip(n);
  }

  lemma GrantRoundTrip(g: Grant, index: u64)
    ensures ParseGrant(Entry(index, g.term, g.epoch, GrantRecord(g))) == Some(g)
  {
    hide ParseText, ToText;
    NumberRoundTrip(g.attempt, U32_LIMIT);
    NumberRoundTrip(g.issued, U64_LIMIT);
    NumberRoundTrip(g.until, U64_LIMIT);
    var m := GrantRecord(g).metadata;
    assert m["attempt"] == ToText(g.attempt) && m["issued_tick"] == ToText(g.issued) && m["valid_until_tick"] == ToText(g.until);
    assert m["global_task_id"] == g.task && m["worker_node"] == g.worker && m["irreversible_effects"] == BoolText(g.irreversible);
  }

  // ----- The meaning of a log -----

  /** The grant that the last readable grant record of a task stands for. */
  function LatestGrant(log: EntryLog, task: TaskId): Option<Grant> {
    if log == [] then None
    else
      var e := log[|log| - 1];
      if e.record.kind.ExecutionGrant? && ParseGrant(e).Some? && ParseGrant(e).value.task == task then ParseGrant(e)
      else LatestGrant(log[..|log| - 1], task)
  }

  predicate Readable(log: EntryLog) {
    forall e <- log :: e.record.kind.ExecutionGrant? ==> ParseGrant(e).Some?
  }

  /** Rebuilding succeeds exactly on readable logs, and yields each task's latest grant. */
  lemma {:induction false} RebuildMeans(log: EntryLog)
    ensures RebuildGrants(log).Ok? <==> Readable(log)
    ensures RebuildGrants(log).Ok? ==>
            forall task :: LatestGrant(log, task) == if task in RebuildGrants(log).value then Some(RebuildGrants(log).value[task]) else None
  {
    hide ParseGrant;
    if log != [] {
      var n := |log| - 1;
      RebuildMeans(log[..n]);
      assert log == log[..n] + [log[n]];
    }
  }

  lemma {:induction false} GrantEpochs(log: EntryLog, bound: nat)
    requires RebuildGrants(log).Ok? && forall e <- log :: e.epoch <= bound
    ensures forall task <- RebuildGrants(log).value :: RebuildGrants(log).value[task].epoch <= bound
  {
    if log != [] {
      GrantEpochs(log[..|log| - 1], bound);
      assert log[|log| - 1] in log;
    }
  }

  // ----- The invariant -----

  predicate GrantsOk(c: Cluster) {
    RebuildGrants(c.history) == Ok(c.grants)
  }

  /** Only `issue_grant` writes grant records. */
  predicate OnlyIssued(e: ControlEvent) {
    e.ProposeEvent? ==> !e.record.kind.ExecutionGrant?
  }

  /** Reopening from any of the longest logs rebuilds the live grants. */
  lemma AnyLongestLog(c: Cluster, n: nat, source: NodeId)
    requires Safe(c, n) && Prefixes(c) && LongestLog(c.nodes, source)
    ensures c.nodes[source].log == c.history
  {
    hide TermsOk, LeaderOk, Bounded, Holders, HistoryOk, Quorum;
    var h := AHolder(c);
    LogBound(c.history, c.nodes[source].log);
    assert HistoryOk(c.history);
    PrefixNewest(c.history, c.nodes[source].log);
  }

  lemma RebuildAppend(h: EntryLog, e: Entry)
    ensures RebuildGrants(h + [e]) ==
            match RebuildGrants(h)
            case Err(x) => Err(x)
            case Ok(grants) =>
              if !e.record.kind.ExecutionGrant? then Ok(grants)
              else if ParseGrant(e).None? then Err(Corrupt) else Ok(grants[ParseGrant(e).value.task := ParseGrant(e).value])
  {
    hide ParseGrant;
    assert (h + [e])[..|h|] == h;
  }

  lemma WriteGrants(env: ControlEnv, c: Cluster, leader: NodeId, record: ControlRecord, failed: set<NodeId>)
    requires GrantsOk(c) && !record.kind.ExecutionGrant?
    ensures GrantsOk(Propose(env, c, leader, record, failed).0)
  {
    hide Reachable, Appended, Quorum;
    if Propose(env, c, leader, record, failed).1.Ok? {
      RebuildAppend(c.history, NextEntry(c, leader, record));
    }
  }

  lemma IssueGrants(env: ControlEnv, c: Cluster, e: ControlEvent)
    requires GrantsOk(c) && e.GrantEvent?
    ensures GrantsOk(Next(env, c, e))
  {
    hide HasLeaderQuorum, Reachable, Appended, Quorum, Authorize, ParseGrant, GrantRecord, CurrentTerm;
    var g := NewGrant(c, e.task, e.attempt, e.worker, e.tick, e.ticks, e.irreversible);
    if e.leader in c.nodes {
      var entry := NextEntry(c, e.leader, GrantRecord(g));
      GrantRoundTrip(g, entry.index);
      RebuildAppend(c.history, entry);
      assert GrantRecord(g).kind.ExecutionGrant? by { GrantKind(g); }
    } else {
      NotANode(c, e.leader);
    }
  }

  lemma GrantKind(g: Grant)
    ensures GrantRecord(g).kind == ExecutionGrant
  {
  }

  lemma NotANode(c: Cluster, leader: NodeId)
    requires leader !in c.nodes
    ensures !HasLeaderQuorum(c, leader)
  {
  }

  lemma NextGrants(env: ControlEnv, c: Cluster, n: nat, e: ControlEvent)
    requires Safe(c, n) && Prefixes(c) && GrantsOk(c) && OnlyIssued(e)
    ensures GrantsOk(Next(env, c, e))
    ensures e.ReopenEvent? ==> Next(env, c, e).grants == c.grants
  {
    hide Safe, Prefixes, RebuildGrants, Propose, IssueGrant, MaxTerm, HasLeaderQuorum, Voters, IsMaxEpoch, LongestLog;
    match e
    case ProposeEvent(leader, record, failed) => WriteGrants(env, c, leader, record, failed);
    case GrantEvent(_, _, _, _, _, _, _, _) => IssueGrants(env, c, e);
    case ReopenEvent(source, _) =>
      if Chosen(c.nodes, source) {
        AnyLongestLog(c, n, source);
      }
    case _ =>
  }

  // ----- Runs -----

  ghost predicate OnlyIssuedRun(events: seq<ControlEvent>) {
    forall e <- events :: OnlyIssued(e)
  }

  /**
   In every disciplined run the live grants are what the history says, and what a reopen from any
   of the longest logs rebuilds.
   */
  lemma {:induction false} GrantsAlwaysAgree(env: ControlEnv, c: Cluster, n: nat, events: seq<ControlEvent>)
    requires Safe(c, n) && Prefixes(c) && GrantsOk(c) && n + |events| + 1 < U64_LIMIT
    requires DisciplinedRun(env, c, events) && OnlyIssuedRun(events)
    ensures var c' := RunFrom(env, c, events);
            GrantsOk(c') && forall source :: LongestLog(c'.nodes, source) ==> RebuildGrants(c'.nodes[source].log) == Ok(c'.grants)
    decreases |events|
  {
    hide Safe, Prefixes, Next, Disciplined, LeaderPersists, LongestLog, OnlyIssued, GrantsOk;
    var c' := RunFrom(env, c, events);
    if events != [] {
      var k := |events| - 1;
      assert OnlyIssued(events[k]);
      assert OnlyIssuedRun(events[..k]);
      GrantsAlwaysAgree(env, c, n, events[..k]);
      DisciplinedRunComplete(env, c, n, events[..k]);
      NextGrants(env, RunFrom(env, c, events[..k]), n + k, events[k]);
    }
    DisciplinedRunComplete(env, c, n, events);
    LongestAgree(c', n + |events|);
  }

  lemma LongestAgree(c: Cluster, n: nat)
    requires Safe(c, n) && Prefixes(c) && GrantsOk(c)
    ensures forall source :: LongestLog(c.nodes, source) ==> RebuildGrants(c.nodes[source].log) == Ok(c.grants)
  {
    hide Safe, Prefixes;
    forall source | LongestLog(c.nodes, source)
      ensures RebuildGrants(c.nodes[source].log) == Ok(c.grants)
    {
      AnyLongestLog(c, n, source);
    }
  }

  /** A result is honoured exactly while its grant is in time and the latest that the history holds. */
  lemma HonouredExactly(c: Cluster, g: Grant, tick: u64)
    requires GrantsOk(c)
    ensures ValidateResult(c, g, tick).Ok? <==> ValidAt(g.issued, g.until, tick) && LatestGrant(c.history, g.task) == Some(g)
  {
    hide RebuildGrants, LatestGrant;
    RebuildMeans(c.history);
  }

  // ----- Fencing -----

  /** The task of `g` has a live grant of a later epoch. */
  predicate Superseded(c: Cluster, g: Grant) {
    g.task in c.grants && g.epoch < c.grants[g.task].epoch
  }

  lemma LiveEpochs(c: Cluster, n: nat)
    requires Safe(c, n) && GrantsOk(c)
    ensures forall task <- c.grants :: c.grants[task].epoch <= c.epoch
  {
    hide TermsOk, LeaderOk, Bounded, LogOk, Holders, Quorum, RebuildGrants;
    assert HistoryOk(c.history) && c.epoch == |c.history|;
    GrantEpochs(c.history, |c.history|);
  }

  /** A fresh grant supersedes every grant of its task issued until then. */
  lemma IssueSupersedes(env: ControlEnv, c: Cluster, n: nat, e: ControlEvent, earlier: Grant)
    requires Safe(c, n) && n + 1 < U64_LIMIT && GrantsOk(c) && e.GrantEvent? && earlier.task == e.task && earlier.epoch <= c.epoch
    requires IssueGrant(env, c, e.leader, e.task, e.attempt, e.worker, e.tick, e.ticks, e.irreversible, e.failed).1.Ok?
    ensures Superseded(Next(env, c, e), earlier)
  {
    hide LogsOk, TermsOk, LeaderOk, HasLeaderQuorum, Reachable, Appended, Quorum, Authorize, GrantRecord, CurrentTerm, RebuildGrants;
    EpochIs(c);
  }

  lemma NextSuperseded(env: ControlEnv, c: Cluster, n: nat, e: ControlEvent, g: Grant)
    requires Safe(c, n) && n + 1 < U64_LIMIT && Prefixes(c) && GrantsOk(c) && OnlyIssued(e) && Superseded(c, g)
    ensures Superseded(Next(env, c, e), g)
  {
    hide Safe, Prefixes, RebuildGrants, Propose, MaxTerm, HasLeaderQuorum, Voters, Reopen, Authorize, GrantRecord, CurrentTerm;
    LiveEpochs(c, n);
    assert c.epoch + 1 < U64_LIMIT by { EpochBound(c, n); }
    match e
    case ProposeEvent(leader, record, failed) => ProposeGrants(env, c, leader, record, failed);
    case GrantEvent(leader, task, attempt, worker, tick, ticks, irreversible, failed) =>
      ProposeGrants(env, c, leader, GrantRecord(NewGrant(c, task, attempt, worker, tick, ticks, irreversible)), failed);
    case ReopenEvent(_, _) => NextGrants(env, c, n, e);
    case _ =>
  }

  lemma EpochBound(c: Cluster, n: nat)
    requires Safe(c, n)
    ensures c.epoch <= n
  {
    hide TermsOk, LeaderOk, HistoryOk, LogOk, Holders, Quorum;
  }

  lemma ProposeGrants(env: ControlEnv, c: Cluster, leader: NodeId, record: ControlRecord, failed: set<NodeId>)
    ensures Propose(env, c, leader, record, failed).0.grants == c.grants
  {
  }

  /** Once superseded, a grant is rejected in every later state, reopened ones included. */
  lemma {:induction false} FencedForever(env: ControlEnv, c: Cluster, n: nat, events: seq<ControlEvent>, g: Grant)
    requires Safe(c, n) && Prefixes(c) && GrantsOk(c) && n + |events| + 1 < U64_LIMIT && Superseded(c, g)
    requires DisciplinedRun(env, c, events) && OnlyIssuedRun(events)
    ensures var c' := RunFrom(env, c, events);
            && Superseded(c', g)
            && forall tick :: ValidateResult(c', g, tick) == Err(if ValidAt(g.issued, g.until, tick) then Fenced else GrantExpired)
    decreases |events|
  {
    hide Safe, Prefixes, Next, Disciplined, LeaderPersists, OnlyIssued, GrantsOk;
    if events != [] {
      var k := |events| - 1;
      assert OnlyIssued(events[k]);
      assert OnlyIssuedRun(events[..k]);
      FencedForever(env, c, n, events[..k], g);
      GrantsAlwaysAgree(env, c, n, events[..k]);
      DisciplinedRunComplete(env, c, n, events[..k]);
      NextSuperseded(env, RunFrom(env, c, events[..k]), n + k, events[k], g);
    }
  }

  // ----- What a reopening needs of the log it reads -----

  predicate GrantsTask(e: Entry, task: TaskId) {
    e.record.kind.ExecutionGrant? && ParseGrant(e).Some? && ParseGrant(e).value.task == task
  }

  /** The newest grant entry of a task in a log. */
  predicate Newest(log: EntryLog, task: TaskId, e: Entry) {
    e in log && GrantsTask(e, task) && forall f <- log :: GrantsTask(f, task) ==> f.index <= e.index
  }

  lemma {:induction false} NewestEntry(log: EntryLog, task: TaskId) returns (e: Entry)
    requires Rising(log) && LatestGrant(log, task).Some?
    ensures Newest(log, task, e) && ParseGrant(e) == LatestGrant(log, task)
  {
    hide ParseGrant;
    var n := |log| - 1;
    if GrantsTask(log[n], task) {
      e := log[n];
    } else {
      e := NewestEntry(log[..n], task);
      assert log == log[..n] + [log[n]];
    }
  }

  lemma {:induction false} NoGrantEntry(log: EntryLog, task: TaskId)
    requires LatestGrant(log, task).None?
    ensures forall e <- log :: !GrantsTask(e, task)
  {
    hide ParseGrant;
    if log != [] {
      var n := |log| - 1;
      NoGrantEntry(log[..n], task);
      assert log == log[..n] + [log[n]];
    }
  }

  /** Entries of a log that is part of a history are entries of that history, told apart by their index. */
  lemma PartOf(h: EntryLog, log: EntryLog, e: Entry)
    requires HistoryOk(h) && LogOk(h, log) && e in log
    ensures e in h && 1 <= e.index <= |h| && h[e.index - 1] == e && e.epoch == e.index
  {
    var i :| 0 <= i < |log| && log[i] == e;
    assert ControlSafety.Committed(h, log[i]);
  }

  lemma WholePart(h: EntryLog)
    requires HistoryOk(h)
    ensures LogOk(h, h)
  {
  }

  /** A part of a history that holds a task's newest grant entry gives the same latest grant, and no other does. */
  lemma LatestInPart(h: EntryLog, log: EntryLog, task: TaskId)
    requires HistoryOk(h) && LogOk(h, log)
    ensures LatestGrant(log, task) == LatestGrant(h, task) <==> forall e :: Newest(h, task, e) ==> e in log
  {
    hide LatestGrant, ParseGrant, LogOk, HistoryOk;
    WholePart(h);
    RisingPart(h, log);
    RisingPart(h, h);
    if LatestGrant(h, task).None? {
      NoGrantEntry(h, task);
      if LatestGrant(log, task).Some? {
        var e := NewestEntry(log, task);
        PartOf(h, log, e);
      }
    } else {
      var e := NewestEntry(h, task);
      OnlyNewest(h, task, e);
      if e in log {
        if LatestGrant(log, task).None? {
          NoGrantEntry(log, task);
        } else {
          var f := NewestEntry(log, task);
          PartOf(h, log, f);
          PartOf(h, h, e);
        }
      } else if LatestGrant(log, task) == LatestGrant(h, task) {
        var f := NewestEntry(log, task);
        PartOf(h, log, f);
        PartOf(h, h, e);
        SameEpoch(e, f);
      }
    }
  }

  lemma SameEpoch(e: Entry, f: Entry)
    requires ParseGrant(e) == ParseGrant(f) && ParseGrant(e).Some?
    ensures e.epoch == f.epoch
  {
  }

  lemma RisingPart(h: EntryLog, log: EntryLog)
    requires LogOk(h, log)
    ensures Rising(log)
  {
  }

  lemma OnlyNewest(h: EntryLog, task: TaskId, e: Entry)
    requires HistoryOk(h) && Newest(h, task, e)
    ensures forall f :: Newest(h, task, f) ==> f == e
  {
    hide ParseGrant;
    WholePart(h);
    forall f | Newest(h, task, f)
      ensures f == e
    {
      PartOf(h, h, e);
      PartOf(h, h, f);
    }
  }

  /** The node's log holds the newest grant entry of every task. */
  ghost predicate HoldsNewest(c: Cluster, source: NodeId)
    requires source in c.nodes
  {
    forall task, e :: Newest(c.history, task, e) ==> e in c.nodes[source].log
  }

  lemma PartReadable(h: EntryLog, log: EntryLog)
    requires HistoryOk(h) && LogOk(h, log) && RebuildGrants(h).Ok?
    ensures RebuildGrants(log).Ok?
  {
    hide RebuildGrants, LatestGrant, ParseGrant, LogOk, HistoryOk;
    RebuildMeans(h);
    RebuildMeans(log);
    forall e | e in log && e.record.kind.ExecutionGrant?
      ensures ParseGrant(e).Some?
    {
      PartOf(h, log, e);
    }
  }

  /** Reading a log rebuilds the live grants exactly when it holds every task's newest grant entry. */
  lemma RebuildsExactly(c: Cluster, n: nat, source: NodeId)
    requires Safe(c, n) && GrantsOk(c) && source in c.nodes
    ensures RebuildGrants(c.nodes[source].log).Ok?
    ensures RebuildGrants(c.nodes[source].log).value == c.grants <==> HoldsNewest(c, source)
  {
    hide TermsOk, LeaderOk, Bounded, LogOk, HistoryOk, Holders, Quorum, RebuildGrants, LatestGrant, Newest;
    var h, log := c.history, c.nodes[source].log;
    assert HistoryOk(h) && LogOk(h, log);
    PartReadable(h, log);
    RebuildMeans(h);
    RebuildMeans(log);
    var m := RebuildGrants(log).value;
    forall task
      ensures LatestGrant(log, task) == LatestGrant(h, task) <==> forall e :: Newest(h, task, e) ==> e in log
    {
      LatestInPart(h, log, task);
    }
    if m == c.grants {
      forall task, e | Newest(h, task, e)
        ensures e in log
      {
        assert LatestGrant(log, task) == LatestGrant(h, task);
        LatestInPart(h, log, task);
      }
    }
    if HoldsNewest(c, source) {
      assert forall task :: LatestGrant(log, task) == LatestGrant(h, task);
      assert forall task :: task in m <==> task in c.grants;
      assert m == c.grants;
    }
  }

  /** In every safe state a reopening keeps the live grants exactly under that condition on the log it reads. */
  lemma ReopenKeepsGrantsExactly(env: ControlEnv, c: Cluster, n: nat, source: NodeId, epoch: u64)
    requires Safe(c, n) && GrantsOk(c) && Chosen(c.nodes, source) && IsMaxEpoch(c.nodes, epoch)
    ensures Next(env, c, ReopenEvent(source, epoch)).grants == c.grants <==> HoldsNewest(c, source)
  {
    hide Safe, GrantsOk, IsMaxEpoch, HoldsNewest, RebuildGrants;
    RebuildsExactly(c, n, source);
  }
}
