/** A reachable run that carries a registry transaction twice, through a node that lags behind. */
module ControlLagging {
  import opened Wire
  import opened Outcomes
  import opened Tasks
  import J = Journal
  import opened Control
  import opened ControlExample
  import B = ControlBridge

  lemma TrioForwards(env: ControlEnv, x: Cast, log: EntryLog, lagging: EntryLog, ingress: NodeId, record: ControlRecord, failed: set<NodeId>)
    requires x.Distinct() && |log| < 10 && LastIndex(log) == |log| && ingress in x.All() && (failed == {} || failed == {x.c})
    requires env.recordSize(record) <= MAX_RECORD
    ensures var e, c := Entry(|log| + 1, 1, |log| + 1, record), x.Trio(log, lagging, |log|, map[]);
            B.ProposeFrom(env, c, ingress, record, 1, failed) ==
            (x.Trio(log + [e], if failed == {} then lagging + [e] else lagging, |log| + 1, map[]), Ok(e))
  {
    hide LastIndex, Propose, Authorize;
    TrioLeads(x, log, lagging, map[], record);
    Written(env, x, log, lagging, map[], record, failed);
  }

  lemma CarriesTwo(codec: J.Codec, t: J.Transaction, a: Entry, b: Entry)
    requires a.record == b.record == B.RegistryRecord(codec, t)
    ensures B.Carries(codec, [a, b], [t, t]) && LastIndex([a]) == a.index
  {
    hide B.RegistryRecord;
    B.RecordFields(codec, t);
    B.CarriesSnoc([], a);
    B.CarriesSnoc([a], b);
    assert [] + [a] == [a] && [a] + [b] == [a, b];
  }

  lemma NothingLocated(index: u64)
    ensures B.Located([], index) == None
  {
  }

  /**
   Elect `a` and renew; commit a transaction through `a` while the disk of `c` fails; commit it
   again through `c`.  Both commits succeed, the history carries the transaction twice, and the
   registry log restored from the leader is refused.
   */
  lemma CommittedThroughLagging(env: J.Env, control: ControlEnv, x: Cast, t: J.Transaction)
    requires env.codec.Faithful() && x.Distinct() && J.Genuine(env, J.EMPTY, t)
    requires control.recordSize(B.RegistryRecord(env.codec, t)) <= MAX_RECORD
    ensures var c0 := Next(control, Next(control, Start(x.Kinds()), ElectEvent(x.a)), RenewEvent(x.a, 1, 100));
            var (c1, r1) := B.CftCommit(env.codec, control, c0, x.a, t, 1, {x.c});
            var (c2, r2) := B.CftCommit(env.codec, control, c1, x.c, t, 1, {});
            && r1.Ok? && r2.Ok? && B.Carries(env.codec, c2.history, [t, t])
            && c2.leader == Some(x.a) && x.a in c2.nodes
            && var restored := B.Restore(env.codec, c2.nodes[x.a].log);
            && restored.Ok? && J.Replay(env, None, restored.value) == Err(Corrupt)
  {
    hide B.RegistryRecord, B.ProposeFrom, J.Genuine, J.Replay, B.Restore, Next, Start, x.Kinds, B.Carries, B.Located, J.ImageOf, J.Publish;
    var record := B.RegistryRecord(env.codec, t);
    var e1, e2 := Entry(1, 1, 1, record), Entry(2, 1, 2, record);
    Elected(control, x);
    NothingLocated(t.index);
    TrioForwards(control, x, [], [], x.a, record, {x.c});
    assert [] + [e1] == [e1];
    CarriesTwo(env.codec, t, e1, e2);
    TrioForwards(control, x, [e1], [], x.c, record, {});
    assert [e1] + [e2] == [e1, e2];
    OneChain(env, t);
    assert [t] + [[t][0]] == [t, t];
    B.RepeatRefused(env, [e1, e2], [t], 0);
  }

  lemma OneChain(env: J.Env, t: J.Transaction)
    requires J.Genuine(env, J.EMPTY, t)
    ensures J.Chain(env, [t])
  {
    hide J.Genuine;
    J.ChainExtend(env, [], t);
    assert [] + [t] == [t];
  }
}
