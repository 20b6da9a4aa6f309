/** The control plane's answers: who may do what, exactly when, and what a success leaves behind. */
module ControlAnswers {
  import opened Wire
  import opened Outcomes
  import opened Tasks
  import opened Frames
  import J = Journal
  import Lineage
  import opened Control
  import opened ControlSafety
  import opened ControlLeases
  import opened ControlGrants
  import opened ControlLinks
  import opened ControlBridge

  // ----- Leases, writes and grants -----

  /** A renewed lease lets its leader write exactly from its tick to its end. */
  lemma RenewedWrites(c: Cluster, leader: NodeId, tick: u64, ticks: u64, op: Operation, at: u64)
    requires IsWrite(op) && HasLeaderQuorum(c, leader) && ticks > 0
    ensures Authorize(Renew(c, leader, tick, ticks), leader, op, None, at).Ok? <==> tick <= at && (at <= tick + ticks || tick + ticks >= U64_LIMIT)
  {
    hide Quorum, CurrentTerm;
    var c' := Renew(c, leader, tick, ticks);
    assert Reachable(c', leader) == Reachable(c, leader);
    SameQuorum(c, c');
    CurrentSame(c, c');
  }

  /** A proposal is refused as a non-leader's, for want of a quorum, or for its size; and otherwise for want of disks. */
  lemma ProposesExactly(env: ControlEnv, c: Cluster, leader: NodeId, record: ControlRecord, failed: set<NodeId>)
    ensures var (c', r) := Propose(env, c, leader, record, failed);
            var leads, wrote := HasLeaderQuorum(c, leader), |Reachable(c, leader) - failed| >= Quorum(c);
            && (r.Ok? <==> leads && env.recordSize(record) <= 65536 && wrote)
            && (r == Err(NotLeader) <==> c.leader != Some(leader))
            && (r == Err(CapacityExceeded) <==> leads && env.recordSize(record) > 65536)
            && (r.Err? ==> c' == c)
            && (r.Ok? ==> r.value.record == record && c'.history == c.history + [r.value] && r.value.term == CurrentTerm(c))
            && (r.Ok? ==> c'.nodes.Keys == c.nodes.Keys)
            && (r.Ok? ==> forall id <- c.nodes ::
                  c'.nodes[id].log == c.nodes[id].log + (if id in Reachable(c, leader) - failed then [r.value] else []))
  {
    hide Reachable, Quorum, CurrentTerm, LastIndex;
  }

  /** A grant as issued is honoured exactly for its own duration, and lets exactly its worker go on. */
  lemma IssuedHonoured(
    env: ControlEnv, c: Cluster, leader: NodeId, task: TaskId, attempt: u32, worker: NodeId, tick: u64, ticks: u64,
    irreversible: bool, failed: set<NodeId>, node: NodeId, at: u64)
    requires IssueGrant(env, c, leader, task, attempt, worker, tick, ticks, irreversible, failed).1.Ok?
    ensures var (c', r) := IssueGrant(env, c, leader, task, attempt, worker, tick, ticks, irreversible, failed);
            var g, lasts := r.value, tick <= at && (at <= tick + ticks || tick + ticks >= U64_LIMIT);
            && g.task == task && g.attempt == attempt > 0 && g.worker == worker && g.irreversible == irreversible && g.term == CurrentTerm(c)
            && (ValidateResult(c', g, at).Ok? <==> lasts)
            && (Authorize(c', node, ContinueGranted, Some(g), at).Ok? <==> node == worker && lasts)
            && (c.epoch + 1 < U64_LIMIT ==> g.epoch == c.epoch + 1)
  {
    hide Propose, GrantRecord, CurrentTerm, HasLeaderQuorum;
  }

  /** A worker may go on exactly with a grant of its own that is in time and the latest for its task. */
  lemma ContinuesExactly(c: Cluster, node: NodeId, grant: Option<Grant>, tick: u64)
    requires GrantsOk(c)
    ensures Authorize(c, node, ContinueGranted, grant, tick).Ok? <==>
            && grant.Some? && grant.value.worker == node && grant.value.issued <= tick <= grant.value.until
            && LatestGrant(c.history, grant.value.task) == Some(grant.value)
  {
    hide RebuildGrants, LatestGrant, GrantsOk;
    if grant.Some? {
      HonouredExactly(c, grant.value, tick);
    }
  }

  /** A lease of this leader and its current term covers the tick. */
  predicate Leased(c: Cluster, leader: NodeId, tick: u64) {
    && c.lease.Some? && c.lease.value.leader == leader && c.lease.value.term == CurrentTerm(c)
    && c.lease.value.issued <= tick <= c.lease.value.until
  }

  /** Reading and local work need no quorum; every write needs the leader, its quorum and its lease. */
  lemma AuthorizesExactly(c: Cluster, node: NodeId, op: Operation, grant: Option<Grant>, tick: u64)
    requires !op.ContinueGranted?
    ensures Authorize(c, node, op, grant, tick) ==
            if op.Query? || op.LocalWork? then Ok(())
            else if !HasLeaderQuorum(c, node) then Err(QuorumLost) else if !Leased(c, node, tick) then Err(ControlLeaseExpired) else Ok(())
  {
    hide HasLeaderQuorum, CurrentTerm;
  }

  /** A grant is issued exactly by a leased leader with its quorum, for an attempt and a duration above zero, when the entry is written. */
  lemma IssuesExactly(
    env: ControlEnv, c: Cluster, leader: NodeId, task: TaskId, attempt: u32, worker: NodeId, tick: u64, ticks: u64,
    irreversible: bool, failed: set<NodeId>)
    ensures var (c', r) := IssueGrant(env, c, leader, task, attempt, worker, tick, ticks, irreversible, failed);
            var record := GrantRecord(NewGrant(c, task, attempt, worker, tick, ticks, irreversible));
            && (r.Ok? <==> attempt > 0 && ticks > 0 && HasLeaderQuorum(c, leader) && Leased(c, leader, tick)
                           && env.recordSize(record) <= 65536 && |Reachable(c, leader) - failed| >= Quorum(c))
            && (r.Err? ==> c' == c) && (attempt == 0 || ticks == 0 ==> r == Err(InvalidConfig))
            && (r.Ok? ==> c'.grants == c.grants[task := r.value] && |c'.history| == |c.history| + 1
                          && c'.history[|c.history|].record == record && record.kind.ExecutionGrant?)
  {
    hide Reachable, Quorum, CurrentTerm, LastIndex, NewGrant, HasLeaderQuorum, Leased, Appended;
    var op := if irreversible then IrreversibleEffect else DurableWrite;
    AuthorizesExactly(c, leader, op, None, tick);
    GrantKind(NewGrant(c, task, attempt, worker, tick, ticks, irreversible));
    ProposesExactly(env, c, leader, GrantRecord(NewGrant(c, task, attempt, worker, tick, ticks, irreversible)), failed);
  }

  /** The death of a leader ends its leadership and its lease; no other change of liveness touches them. */
  lemma DeathEnds(c: Cluster, id: NodeId, alive: bool)
    requires id in c.nodes
    ensures var c' := SetAlive(c, id, alive); var fell := !alive && c.leader == Some(id);
            && c'.leader == (if fell then None else c.leader) && c'.lease == (if fell then None else c.lease)
            && c'.nodes.Keys == c.nodes.Keys && c'.nodes[id] == c.nodes[id].(alive := alive)
            && forall other <- c.nodes :: other != id ==> c'.nodes[other] == c.nodes[other]
  {
  }

  // ----- Names -----

  lemma {:induction false} DigitsOnly(n: nat)
    ensures forall x <- ToText(n) :: x != ':'
  {
    if n >= 10 {
      DigitsOnly(n / 10);
    }
  }

  lemma AfterColon(a: string, x: string)
    requires forall k <- x :: k != ':'
    ensures forall i :: |a| < i < |a + ":" + x| ==> (a + ":" + x)[i] != ':'
  {
    forall i | |a| < i < |a + ":" + x|
      ensures (a + ":" + x)[i] != ':'
    {
      assert (a + ":" + x)[i] == x[i - |a| - 1];
      assert x[i - |a| - 1] in x;
    }
  }

  lemma LastColon(a: string, x: string, b: string, y: string)
    requires a + ":" + x == b + ":" + y && (forall k <- x :: k != ':') && (forall k <- y :: k != ':')
    ensures a == b && x == y
  {
    var s := a + ":" + x;
    assert s[|a|] == ':' && (b + ":" + y)[|b|] == ':';
    AfterColon(a, x);
    AfterColon(b, y);
    assert |a| == |b|;
    assert a == s[..|a|] == b;
    assert x == s[|a| + 1..] == y;
  }

  /** No two grants of different tasks or epochs share a record id, whatever colons a task's name holds. */
  lemma GrantIdsDistinct(g: Grant, h: Grant)
    requires GrantRecord(g).id == GrantRecord(h).id
    ensures g.task == h.task && g.epoch == h.epoch
  {
    hide ToText;
    DigitsOnly(g.epoch);
    DigitsOnly(h.epoch);
    LastColon("grant:" + g.task, ToText(g.epoch), "grant:" + h.task, ToText(h.epoch));
    assert ("grant:" + g.task)[6..] == g.task && ("grant:" + h.task)[6..] == h.task;
    DigitsRoundTrip(g.epoch);
    DigitsRoundTrip(h.epoch);
  }

  /** No two registry transactions with different ids share a record id, and a registry record is never taken for a grant. */
  lemma RegistryIdsDistinct(codec: J.Codec, s: Transaction, t: Transaction)
    requires RegistryRecord(codec, s).id == RegistryRecord(codec, t).id
    ensures s.id == t.id && RegistryRecord(codec, s).kind == GlobalTask
  {
    var a, b := RegistryRecord(codec, s).id, RegistryRecord(codec, t).id;
    assert a[9..] == AsText(s.id) && b[9..] == AsText(t.id);
    TextRoundTrip(s.id);
    TextRoundTrip(t.id);
  }

  /** A number reads back from its decimal text, with or without a plus sign. */
  lemma PlusParses(n: nat, limit: nat)
    requires n < limit
    ensures ParseText(ToText(n), limit) == Some(n) && ParseText("+" + ToText(n), limit) == Some(n)
  {
    hide ToText, DigitsValue;
    NumberRoundTrip(n, limit);
    DigitsRoundTrip(n);
    assert ("+" + ToText(n))[1..] == ToText(n);
  }

  lemma {:induction false} DigitsExactly(s: string)
    ensures DigitsValue(s).Some? <==> forall c <- s :: '0' <= c <= '9'
  {
    if s != [] {
      var n := |s| - 1;
      DigitsExactly(s[..n]);
      assert s[n] in s && (forall c :: c in s[..n] ==> c in s) && forall c :: c in s ==> c in s[..n] || c == s[n];
    }
  }

  /** Text without a digit, or with any other character after an optional plus sign, is no number. */
  lemma OnlyDigitsParse(s: string, limit: nat)
    requires s == "" || s == "+" || exists i :: (if s[0] == '+' then 1 else 0) <= i < |s| && !('0' <= s[i] <= '9')
    ensures ParseText(s, limit) == None
  {
    var digits := if s != [] && s[0] == '+' then s[1..] else s;
    DigitsExactly(digits);
    if digits != [] {
      var i :| (if s[0] == '+' then 1 else 0) <= i < |s| && !('0' <= s[i] <= '9');
      var at := if s[0] == '+' then i - 1 else i;
      assert digits[at] == s[i] && digits[at] in digits;
    }
  }

  // ----- Forwarding -----

  /** A node forwards a record exactly when it lives and is linked with a leased leader that has its quorum and writes the entry. */
  lemma ForwardsExactly(env: ControlEnv, c: Cluster, ingress: NodeId, record: ControlRecord, tick: u64, failed: set<NodeId>)
    ensures var (c', r) := ProposeFrom(env, c, ingress, record, tick, failed);
            var heard := ingress in c.nodes && c.nodes[ingress].alive && c.leader.Some? && Connected(c, ingress, c.leader.value);
            && (r.Ok? <==> heard && HasLeaderQuorum(c, c.leader.value) && Leased(c, c.leader.value, tick)
                           && env.recordSize(record) <= 65536 && |Reachable(c, c.leader.value) - failed| >= Quorum(c))
            && (!heard ==> r == Err(NotLeader)) && (r.Err? ==> c' == c) && (r.Ok? ==> r.value.record == record && c'.history == c.history + [r.value])
  {
    hide Reachable, Quorum, CurrentTerm, LastIndex, HasLeaderQuorum, Leased, Appended, Connected;
    if c.leader.Some? {
      AuthorizesExactly(c, c.leader.value, DurableWrite, None, tick);
      ProposesExactly(env, c, c.leader.value, record, failed);
    }
  }

  /** Carrying a registry transaction leaves every grant alone, live and rebuilt. */
  lemma CommitKeepsGrants(codec: J.Codec, env: ControlEnv, c: Cluster, ingress: NodeId, t: Transaction, tick: u64, failed: set<NodeId>)
    ensures var c' := CftCommit(codec, env, c, ingress, t, tick, failed).0;
            c'.grants == c.grants && RebuildGrants(c'.history) == RebuildGrants(c.history)
  {
    hide Located, Connected, HasLeaderQuorum, Reachable, Quorum, Authorize, RebuildGrants, NextEntry, Appended, SameId;
    RegistryIdsDistinct(codec, t, t);
    if ingress in c.nodes && Located(c.nodes[ingress].log, t.index).None? {
      var (c', r) := ProposeFrom(env, c, ingress, RegistryRecord(codec, t), tick, failed);
      ForwardsExactly(env, c, ingress, RegistryRecord(codec, t), tick, failed);
      if r.Ok? {
        RebuildAppend(c.history, r.value);
      }
    }
  }

  // ----- Restoring -----

  /** The payload is a transaction whose id is the hash of its own text, and it fits a frame. */
  predicate Trusted(codec: J.Codec, payload: Bytes) {
    var t := codec.parseTransaction(payload);
    t.Some? && t.value.id == Hex(codec.sha(Lineage.Hashed(codec, t.value))) && Fits(Frame(Prepare, t.value.index, payload))
  }

  predicate EntryTrusted(codec: J.Codec, e: Entry) {
    "registry_prepare" in e.record.metadata ==> Trusted(codec, AsBytes(e.record.metadata["registry_prepare"]))
  }

  /** A log restores exactly when every transaction that it carries has the id of its own text. */
  lemma {:induction false} RestoresExactly(codec: J.Codec, log: EntryLog)
    ensures Restore(codec, log).Ok? <==> forall e <- log :: EntryTrusted(codec, e)
    decreases |log|
  {
    hide EntryTrusted, RestoreEntry;
    if log != [] {
      var n := |log| - 1;
      RestoresExactly(codec, log[..n]);
      EntryRestores(codec, log[n]);
      assert log == log[..n] + [log[n]];
    }
  }

  lemma EntryRestores(codec: J.Codec, e: Entry)
    ensures RestoreEntry(codec, e).Ok? <==> EntryTrusted(codec, e)
  {
    hide Hex, Le, EncodeAll, AsBytes, Fits;
  }
}
