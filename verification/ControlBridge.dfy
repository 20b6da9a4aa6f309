/** The registry's transactions carried in the control log, and the registry log rebuilt from it. */
module ControlBridge {
  import opened Wire
  import opened Outcomes
  import opened Tasks
  import opened Frames
  import J = Journal
  import Replicas
  import RegistryTheorems
  import RunsSafety
  import opened Control
  import opened ControlSafety
  import opened ControlGrants
  import opened ControlPlane

  type Transaction = J.Transaction
  type History = J.History

  // ----- Text -----

  /** Bytes as the characters of the same codes; a printed transaction is plain text. */
  function AsText(b: Bytes): string {
    seq(|b|, i requires 0 <= i < |b| => b[i] as char)
  }

  function AsBytes(s: string): Bytes {
    seq(|s|, i requires 0 <= i < |s| => s[i] as int % 256)
  }

  lemma TextRoundTrip(b: Bytes)
    ensures AsBytes(AsText(b)) == b
  {
  }

  // ----- Carrying -----

  function RegistryRecord(codec: J.Codec, t: Transaction): ControlRecord {
    ControlRecord("registry:" + AsText(t.id), GlobalTask, map[
      "registry_prepare" := AsText(codec.transactionJson(t)),
      "registry_transaction_id" := AsText(t.id),
      "registry_log_index" := ToText(t.index)])
  }

  predicate IsRegistry(r: ControlRecord) {
    "registry_prepare" in r.metadata || "registry_log_index" in r.metadata
  }

  /** The registry records of a log, in order. */
  function RegistryRecords(log: EntryLog): seq<ControlRecord> {
    if log == [] then []
    else
      var r := log[|log| - 1].record;
      RegistryRecords(log[..|log| - 1]) + if IsRegistry(r) then [r] else []
  }

  function RecordsOf(codec: J.Codec, h: History): seq<ControlRecord> {
    seq(|h|, i requires 0 <= i < |h| => RegistryRecord(codec, h[i]))
  }

  predicate Carries(codec: J.Codec, log: EntryLog, h: History) {
    RegistryRecords(log) == RecordsOf(codec, h)
  }

  // ----- `commit` -----

  predicate Names(r: ControlRecord, index: u64) {
    "registry_log_index" in r.metadata && r.metadata["registry_log_index"] == ToText(index)
  }

  /** The first record that names a registry index. */
  function Located(log: EntryLog, index: u64): Option<ControlRecord> {
    if log == [] then None else if Names(log[0].record, index) then Some(log[0].record) else Located(log[1..], index)
  }

  predicate SameId(r: ControlRecord, id: Bytes) {
    "registry_transaction_id" in r.metadata && r.metadata["registry_transaction_id"] == AsText(id)
  }

  /** `propose_from`: a live node hands a record to the leader it can reach. */
  function ProposeFrom(env: ControlEnv, c: Cluster, ingress: NodeId, record: ControlRecord, tick: u64, failed: set<NodeId>): (Cluster, Result<Entry>) {
    if c.leader.None? || !Connected(c, ingress, c.leader.value) || ingress !in c.nodes || !c.nodes[ingress].alive then (c, Err(NotLeader))
    else
      var allowed := Authorize(c, c.leader.value, DurableWrite, None, tick);
      if allowed.Err? then (c, Err(allowed.error)) else Propose(env, c, c.leader.value, record, failed)
  }

  function CftCommit(
    codec: J.Codec, env: ControlEnv, c: Cluster, ingress: NodeId, t: Transaction, tick: u64, failed: set<NodeId>): (Cluster, Result<()>)
  {
    if ingress !in c.nodes then (c, Err(WorkerUnavailable))
    else
      match Located(c.nodes[ingress].log, t.index)
      case Some(r) => (c, if SameId(r, t.id) then Ok(()) else Err(Conflict))
      case None =>
        var (c', r) := ProposeFrom(env, c, ingress, RegistryRecord(codec, t), tick, failed);
        (c', if r.Ok? then Ok(()) else Err(r.error))
  }

  class CftRegistryReplica {
    const codec: J.Codec
    const control: ReferenceCftModel
    const ingress: NodeId
    var nextTick: u64

    constructor (codec: J.Codec, control: ReferenceCftModel, ingress: NodeId, firstTick: u64)
      ensures this.codec == codec && this.control == control && this.ingress == ingress && nextTick == firstTick
    {
      this.codec, this.control, this.ingress, nextTick := codec, control, ingress, firstTick;
    }

    method Forward(record: ControlRecord, tick: u64, failed: set<NodeId>) returns (r: Result<Entry>)
      modifies control
      ensures (control.View(), r) == ProposeFrom(control.env, old(control.View()), ingress, record, tick, failed)
    {
      hide Authorize, Propose, Connected;
      Aside(control.Now(), control.history);
      if control.leader.None? || !Connected(control.Now(), ingress, control.leader.value)
         || ingress !in control.nodes || !control.nodes[ingress].alive {
        return Err(NotLeader);
      }
      var allowed := Authorize(control.Now(), control.leader.value, DurableWrite, None, tick);
      if allowed.Err? {
        return Err(allowed.error);
      }
      r := control.Propose(control.leader.value, record, failed);
    }

    /** The acknowledgement of a transaction is its presence in the control log. */
    method Commit(t: Transaction, failed: set<NodeId>) returns (ack: Result<()>)
      modifies this, control
      ensures (control.View(), ack) == CftCommit(codec, control.env, old(control.View()), ingress, t, old(nextTick), failed)
      ensures nextTick == if old(nextTick) == U64_LIMIT - 1 then 0 else old(nextTick) + 1
    {
      hide ProposeFrom, RegistryRecord, Names, SameId;
      var tick := nextTick;
      nextTick := if tick == U64_LIMIT - 1 then 0 else tick + 1;
      if ingress !in control.nodes {
        return Err(WorkerUnavailable);
      }
      var log := control.nodes[ingress].log;
      for i := 0 to |log|
        invariant Located(log, t.index) == Located(log[i..], t.index)
        invariant control.View() == old(control.View()) && nextTick == if tick == U64_LIMIT - 1 then 0 else tick + 1
      {
        if Names(log[i].record, t.index) {
          return if SameId(log[i].record, t.id) then Ok(()) else Err(Conflict);
        }
        assert log[i..][1..] == log[i + 1..];
      }
      var r := Forward(RegistryRecord(codec, t), tick, failed);
      return if r.Ok? then Ok(()) else Err(r.error);
    }
  }

  // ----- `restore_registry_wal` -----

  /** `committed_frames_from_prepare_payload`. */
  function FramesOf(codec: J.Codec, payload: Bytes): Result<seq<Frame>> {
    match codec.parseTransaction(payload)
    case None => Err(Corrupt)
    case Some(t) =>
      if J.ChainId(codec, t.previousId, t.index, t.previousVersion, codec.mutationJson(t.mutation)) != t.id then Err(Corrupt)
      else if !Fits(Frame(Prepare, t.index, payload)) then Err(CapacityExceeded)
      else Ok([Frame(Prepare, t.index, payload), J.CommitFrame(t)])
  }

  function RestoreEntry(codec: J.Codec, e: Entry): Result<Bytes> {
    if "registry_prepare" !in e.record.metadata then Ok([])
    else
      match FramesOf(codec, AsBytes(e.record.metadata["registry_prepare"]))
      case Err(x) => Err(x)
      case Ok(fs) => Ok(EncodeAll(codec.sha, fs))
  }

  function Restore(codec: J.Codec, log: EntryLog): Result<Bytes> {
    if log == [] then Ok([])
    else
      match Restore(codec, log[..|log| - 1])
      case Err(x) => Err(x)
      case Ok(bytes) =>
        match RestoreEntry(codec, log[|log| - 1])
        case Err(x) => Err(x)
        case Ok(more) => Ok(bytes + more)
  }

  /** The loop that writes the restored file. */
  method RestoreFile(codec: J.Codec, log: EntryLog) returns (r: Result<Bytes>)
    ensures r == Restore(codec, log)
  {
    hide RestoreEntry;
    var file: Bytes := [];
    for i := 0 to |log|
      invariant Restore(codec, log[..i]) == Ok(file)
    {
      assert log[..i + 1][..i] == log[..i];
      match RestoreEntry(codec, log[i])
      case Err(x) =>
        RestoreStops(codec, log, i + 1, x);
        return Err(x);
      case Ok(more) =>
        file := file + more;
    }
    assert log[..|log|] == log;
    return Ok(file);
  }

  lemma {:induction false} RestoreStops(codec: J.Codec, log: EntryLog, k: nat, x: Error)
    requires k <= |log| && Restore(codec, log[..k]) == Err(x)
    ensures Restore(codec, log) == Err(x)
    decreases |log|
  {
    hide RestoreEntry;
    if k == |log| {
      assert log[..k] == log;
    } else {
      var n := |log| - 1;
      assert log[..n][..k] == log[..k];
      RestoreStops(codec, log[..n], k, x);
    }
  }

  // ----- What a log carries -----

  lemma RecordFields(codec: J.Codec, t: Transaction)
    ensures var r := RegistryRecord(codec, t);
            && IsRegistry(r) && "registry_prepare" in r.metadata && r.metadata["registry_prepare"] == AsText(codec.transactionJson(t))
            && (forall index: u64 :: Names(r, index) <==> index == t.index)
            && (forall id :: SameId(r, id) <==> id == t.id)
  {
    var r := RegistryRecord(codec, t);
    assert r.metadata["registry_log_index"] == ToText(t.index) && r.metadata["registry_transaction_id"] == AsText(t.id);
    forall index: u64
      ensures Names(r, index) <==> index == t.index
    {
      DigitsRoundTrip(index);
      DigitsRoundTrip(t.index);
    }
    forall id
      ensures SameId(r, id) <==> id == t.id
    {
      TextRoundTrip(id);
      TextRoundTrip(t.id);
    }
  }

  lemma CarriesSnoc(log: EntryLog, e: Entry)
    ensures RegistryRecords(log + [e]) == RegistryRecords(log) + if IsRegistry(e.record) then [e.record] else []
  {
    assert (log + [e])[..|log|] == log;
  }

  /** The last entry of a log, when it is a registry record, is that of the last transaction. */
  lemma CarriesLast(codec: J.Codec, log: EntryLog, h: History)
    requires Carries(codec, log, h) && log != [] && IsRegistry(log[|log| - 1].record)
    ensures h != [] && log[|log| - 1].record == RegistryRecord(codec, h[|h| - 1])
    ensures Carries(codec, log[..|log| - 1], h[..|h| - 1])
  {
    hide RegistryRecord, IsRegistry;
    var n, r, rest := |h| - 1, log[|log| - 1].record, RegistryRecords(log[..|log| - 1]);
    assert (rest + [r])[|rest|] == r && (rest + [r])[..|rest|] == rest;
    assert |RecordsOf(codec, h)| == |h|;
    assert RecordsOf(codec, h)[..n] == RecordsOf(codec, h[..n]);
  }

  lemma RecordsSnoc(codec: J.Codec, h: History, t: Transaction)
    ensures RecordsOf(codec, h + [t]) == RecordsOf(codec, h) + [RegistryRecord(codec, t)]
  {
  }

  lemma {:induction false} LocatedSnoc(log: EntryLog, e: Entry, index: u64)
    ensures Located(log + [e], index) ==
            if Located(log, index).Some? then Located(log, index) else if Names(e.record, index) then Some(e.record) else None
  {
    hide Names;
    if log == [] {
      assert log + [e] == [e] && [e][1..] == [];
    } else {
      assert (log + [e])[1..] == log[1..] + [e];
      LocatedSnoc(log[1..], e, index);
    }
  }

  predicate Numbered(h: History) {
    forall i :: 0 <= i < |h| ==> h[i].index == i + 1
  }

  lemma {:induction false} LocatedExactly(codec: J.Codec, log: EntryLog, h: History, index: u64)
    requires Carries(codec, log, h) && Numbered(h)
    ensures Located(log, index) == if 1 <= index <= |h| then Some(RegistryRecord(codec, h[index - 1])) else None
    decreases |log|
  {
    hide RegistryRecord, Names, SameId;
    if log != [] {
      var start, e := log[..|log| - 1], log[|log| - 1];
      assert log == start + [e];
      LocatedSnoc(start, e, index);
      if IsRegistry(e.record) {
        var n := |h| - 1;
        CarriesLast(codec, log, h);
        LocatedExactly(codec, start, h[..n], index);
        RecordFields(codec, h[n]);
      } else {
        LocatedExactly(codec, start, h, index);
        assert !Names(e.record, index) by { NamesRegistry(e.record, index); }
      }
    }
  }

  lemma NamesRegistry(r: ControlRecord, index: u64)
    ensures Names(r, index) ==> IsRegistry(r)
  {
  }

  /**
   What a commit through a node does, when that node's log carries the first `k` transactions: up
   to `k` it only compares ids; past `k` it adds the transaction to what the history carries.
   */
  lemma CommitExactly(
    codec: J.Codec, env: ControlEnv, c: Cluster, ingress: NodeId, t: Transaction, tick: u64, failed: set<NodeId>, h: History, k: nat)
    requires ingress in c.nodes && Numbered(h) && k <= |h|
    requires Carries(codec, c.history, h) && Carries(codec, c.nodes[ingress].log, h[..k])
    ensures var (c', r) := CftCommit(codec, env, c, ingress, t, tick, failed);
            && (1 <= t.index <= k ==> c' == c && (r.Ok? <==> h[t.index - 1].id == t.id))
            && (t.index == 0 || t.index > k ==> Carries(codec, c'.history, if r.Ok? then h + [t] else h))
            && (t.index == 0 || t.index > k ==> (r.Ok? ==> (Numbered(h + [t]) <==> t.index == |h| + 1)))
  {
    hide RegistryRecord, Names, SameId, Located, RecordsOf, RegistryRecords, ProposeFrom;
    LocatedExactly(codec, c.nodes[ingress].log, h[..k], t.index);
    if 1 <= t.index <= k {
      RecordFields(codec, h[t.index - 1]);
    } else {
      ProposeFromHistory(env, c, ingress, RegistryRecord(codec, t), tick, failed);
      RecordFields(codec, t);
      RecordsSnoc(codec, h, t);
      assert (h + [t])[|h|] == t;
    }
  }

  lemma ProposeFromHistory(env: ControlEnv, c: Cluster, ingress: NodeId, record: ControlRecord, tick: u64, failed: set<NodeId>)
    ensures var (c', r) := ProposeFrom(env, c, ingress, record, tick, failed);
            RegistryRecords(c'.history) == RegistryRecords(c.history) + if r.Ok? && IsRegistry(record) then [record] else []
  {
    hide Authorize, HasLeaderQuorum, Reachable, Quorum, Appended, RegistryRecords;
    var r := ProposeFrom(env, c, ingress, record, tick, failed).1;
    if r.Ok? {
      CarriesSnoc(c.history, r.value);
    }
  }

  /** Every other step leaves what the history carries alone. */
  lemma OthersCarry(env: ControlEnv, c: Cluster, e: ControlEvent)
    requires e.ProposeEvent? ==> !IsRegistry(e.record)
    ensures RegistryRecords(Next(env, c, e).history) == RegistryRecords(c.history)
  {
    hide RegistryRecords, Authorize, HasLeaderQuorum, Reachable, Quorum, Appended, NewGrant;
    NextHistory(env, c, e);
    match e
    case ProposeEvent(_, _, _) =>
      ProposeRecord(env, c, e.leader, e.record, e.failed);
    case GrantEvent(_, task, attempt, worker, tick, ticks, irreversible, _) =>
      ProposeRecord(env, c, e.leader, GrantRecord(NewGrant(c, task, attempt, worker, tick, ticks, irreversible)), e.failed);
    case _ =>
  }

  lemma ProposeRecord(env: ControlEnv, c: Cluster, leader: NodeId, record: ControlRecord, failed: set<NodeId>)
    requires !IsRegistry(record)
    ensures RegistryRecords(Propose(env, c, leader, record, failed).0.history) == RegistryRecords(c.history)
  {
    hide HasLeaderQuorum, Reachable, Quorum, Appended, RegistryRecords, IsRegistry;
    var r := Propose(env, c, leader, record, failed).1;
    if r.Ok? {
      CarriesSnoc(c.history, r.value);
    }
  }

  // ----- Restoring -----

  /** What restoring checks of a carried transaction. */
  predicate Restorable(codec: J.Codec, t: Transaction) {
    && t.id == J.ChainId(codec, t.previousId, t.index, t.previousVersion, codec.mutationJson(t.mutation))
    && Fits(J.PrepareFrame(codec, t))
  }

  lemma ChainRestorable(env: J.Env, h: History)
    requires J.Chain(env, h)
    ensures forall t <- h :: Restorable(env.codec, t)
  {
    hide J.Chain, J.ImageOf, J.ChainId, Apply, Fits;
    forall t | t in h
      ensures Restorable(env.codec, t)
    {
      var i :| 0 <= i < |h| && h[i] == t;
      J.ChainPrefix(env, h, i);
    }
  }

  lemma RestoreCarried(codec: J.Codec, t: Transaction, e: Entry)
    requires codec.Faithful() && Restorable(codec, t) && e.record == RegistryRecord(codec, t)
    ensures RestoreEntry(codec, e) == Ok(EncodeAll(codec.sha, Replicas.Pair(codec, t)))
  {
    hide EncodeAll, RegistryRecord, J.ChainId;
    RecordFields(codec, t);
    TextRoundTrip(codec.transactionJson(t));
  }

  /** A log that carries transactions restores to exactly their frames, in the order it carries them. */
  lemma {:induction false} RestoreExactly(codec: J.Codec, log: EntryLog, h: History)
    requires codec.Faithful() && Carries(codec, log, h) && forall t <- h :: Restorable(codec, t)
    ensures Restore(codec, log) == Ok(EncodeAll(codec.sha, J.Pairs(codec, h)))
    decreases |log|
  {
    hide RegistryRecord, RestoreEntry, EncodeAll, J.Pairs, IsRegistry, Restorable;
    if log == [] {
      assert h == [];
      NoFrames(codec);
    } else {
      var start, e := log[..|log| - 1], log[|log| - 1];
      if IsRegistry(e.record) {
        var n := |h| - 1;
        CarriesLast(codec, log, h);
        assert h[n] in h;
        RestoreExactly(codec, start, h[..n]);
        RestoreCarried(codec, h[n], e);
        PairsSnoc(codec, h[..n], h[n]);
        assert h[..n] + [h[n]] == h;
      } else {
        RestoreExactly(codec, start, h);
        RestoreOther(codec, e);
        var bytes := Restore(codec, start).value;
        assert bytes + [] == bytes;
      }
    }
  }

  lemma NoFrames(codec: J.Codec)
    ensures EncodeAll(codec.sha, J.Pairs(codec, [])) == []
  {
  }

  lemma RestoreOther(codec: J.Codec, e: Entry)
    requires !IsRegistry(e.record)
    ensures RestoreEntry(codec, e) == Ok([])
  {
  }

  lemma PairsSnoc(codec: J.Codec, h: History, t: Transaction)
    ensures EncodeAll(codec.sha, J.Pairs(codec, h + [t])) == EncodeAll(codec.sha, J.Pairs(codec, h)) + EncodeAll(codec.sha, Replicas.Pair(codec, t))
  {
    hide EncodeAll;
    Replicas.PairsAppend(codec, h, [t]);
    assert J.Pairs(codec, [t]) == Replicas.Pair(codec, t) by { assert [t][1..] == []; }
    EncodeAllAppend(codec.sha, J.Pairs(codec, h), Replicas.Pair(codec, t));
  }

  lemma {:induction false} CarriesPrefix(codec: J.Codec, log: EntryLog, h: History, part: EntryLog) returns (k: nat)
    requires Carries(codec, log, h) && part <= log
    ensures k <= |h| && Carries(codec, part, h[..k]) && (part == log ==> k == |h|)
    decreases |log|
  {
    hide RegistryRecord, IsRegistry;
    if part == log {
      k := |h|;
      assert h[..k] == h;
    } else {
      var start, e := log[..|log| - 1], log[|log| - 1];
      if IsRegistry(e.record) {
        var n := |h| - 1;
        CarriesLast(codec, log, h);
        k := CarriesPrefix(codec, start, h[..n], part);
        assert h[..n][..k] == h[..k];
      } else {
        k := CarriesPrefix(codec, start, h, part);
      }
    }
  }

  /**
   In a disciplined run whose history carries a registry's transactions, every node's log restores
   to a registry of the first of them, and one of the longest logs to the whole registry.
   */
  lemma RestoredRegistry(env: J.Env, c: Cluster, n: nat, h: History, id: NodeId) returns (k: nat)
    requires env.codec.Faithful() && J.Chain(env, h) && |h| < U64_LIMIT && Carries(env.codec, c.history, h)
    requires Safe(c, n) && Prefixes(c) && id in c.nodes
    ensures k <= |h| && (LongestLog(c.nodes, id) || c.leader == Some(id) ==> k == |h|)
    ensures Restore(env.codec, c.nodes[id].log).Ok?
    ensures var bytes := Restore(env.codec, c.nodes[id].log).value;
            J.Replay(env, None, bytes) ==
            if J.LooksLegacy(bytes) then Err(Corrupt) else Ok(J.Recovered(J.ImageOf(env, h[..k]), None, k, |bytes|))
  {
    hide Safe, Carries, Restore, LongestLog, J.Replay, J.Chain, J.ImageOf, J.LooksLegacy, EncodeAll;
    var log := c.nodes[id].log;
    if LongestLog(c.nodes, id) {
      AnyLongestLog(c, n, id);
    } else if c.leader == Some(id) {
      LeaderComplete(c, n);
    }
    k := CarriesPrefix(env.codec, c.history, h, log);
    J.ChainPrefix(env, h, k);
    ChainRestorable(env, h[..k]);
    RestoreExactly(env.codec, log, h[..k]);
    RegistryTheorems.WholeLog(env, h[..k]);
  }

  /** A log that carries a transaction a second time restores to bytes that recovery refuses. */
  lemma RepeatRefused(env: J.Env, log: EntryLog, h: History, i: nat)
    requires env.codec.Faithful() && J.Chain(env, h) && |h| + 1 < U64_LIMIT && i < |h| && Carries(env.codec, log, h + [h[i]])
    ensures Restore(env.codec, log).Ok? && J.Replay(env, None, Restore(env.codec, log).value) == Err(Corrupt)
  {
    hide J.Chain, J.ReplayFrom, J.ReplayFrames, J.Finish, J.LooksLegacy, J.Pairs, Carries, Restore, EncodeAll, Encode, Restorable, J.Readable;
    var list, codec := h + [h[i]], env.codec;
    ChainRestorable(env, h);
    RestoreExactly(codec, log, list);
    RepeatReadable(env, h, i);
    RepeatFrames(env, h, i);
    var next, bytes := Frame(Prepare, 0, []), EncodeAll(codec.sha, J.Pairs(codec, list));
    J.ReplayEncoded(env, 0, J.Cursor(J.EMPTY, map[], 0), [], J.Pairs(codec, list), next, 0);
    assert [] + bytes + Encode(codec.sha, next)[..0] == bytes;
  }

  lemma RepeatReadable(env: J.Env, h: History, i: nat)
    requires env.codec.Faithful() && J.Chain(env, h) && i < |h|
    ensures J.Readable(env, J.Pairs(env.codec, h + [h[i]]))
  {
    hide J.Chain, J.Readable, J.Pairs, J.Storable;
    forall t | t in h + [h[i]]
      ensures J.Storable(env, t)
    {
      var j :| 0 <= j < |h| && h[j] == t;
      J.ChainStorable(env, h, j);
    }
    J.PairsReadable(env, h + [h[i]]);
  }

  lemma RepeatFrames(env: J.Env, h: History, i: nat)
    requires env.codec.Faithful() && J.Chain(env, h) && |h| + 1 < U64_LIMIT && i < |h|
    ensures J.ReplayFrames(env, 0, J.Cursor(J.EMPTY, map[], 0), J.Pairs(env.codec, h + [h[i]])) == Err(Corrupt)
  {
    hide J.Chain, J.ImageOf, J.ReplayFrames, J.Pairs, Replicas.Pair, EncodeAll, Encode, Size;
    var codec, fs := env.codec, J.Pairs(env.codec, h);
    RegistryTheorems.WholePairs(env, h);
    J.ChainIndex(env, h, i);
    Replicas.PairsAppend(codec, h, [h[i]]);
    Replicas.PairOf(codec, h[i]);
    assert Replicas.Pair(codec, h[i]) + [] == Replicas.Pair(codec, h[i]);
    J.ReplayFramesAppend(env, 0, J.Cursor(J.EMPTY, map[], 0), fs, Replicas.Pair(codec, h[i]));
    RegistryTheorems.GapRejected(env, J.Cursor(J.ImageOf(env, h), map[], |h|), h[i], []);
  }
}
