/** Capability bit masks and the inverted index over them. */
module Capabilities {
  import opened Wire
  import opened Outcomes
  import opened Tasks

  // ----- Masks as numbers -----

  /** Bit `i` of a mask. */
  predicate Has(v: nat, i: nat)
    decreases i
  {
    if i == 0 then v % 2 == 1 else Has(v / 2, i - 1)
  }

  /** Bitwise and. */
  function And(a: nat, b: nat): (r: nat)
    ensures r <= a && r <= b
  {
    if a == 0 || b == 0 then 0 else 2 * And(a / 2, b / 2) + if a % 2 == 1 && b % 2 == 1 then 1 else 0
  }

  /** `CapabilityBits::contains`. */
  predicate Contains(held: nat, required: nat) {
    And(held, required) == required
  }

  function TrailingZeros(v: nat): nat
    requires v > 0
  {
    if v % 2 == 1 then 0 else 1 + TrailingZeros(v / 2)
  }

  lemma {:induction false} ZeroHas(i: nat)
    ensures !Has(0, i)
    decreases i
  {
    if i > 0 {
      ZeroHas(i - 1);
    }
  }

  lemma {:induction false} AndHas(a: nat, b: nat, i: nat)
    ensures Has(And(a, b), i) <==> Has(a, i) && Has(b, i)
    decreases i
  {
    if a == 0 || b == 0 {
      ZeroHas(i);
    } else if i > 0 {
      AndHas(a / 2, b / 2, i - 1);
    }
  }

  /** Masks with the same bits are the same number. */
  lemma {:induction false} SameBits(a: nat, b: nat)
    requires forall i: nat :: Has(a, i) <==> Has(b, i)
    ensures a == b
    decreases a + b
  {
    if a != 0 || b != 0 {
      assert Has(a, 0) <==> Has(b, 0);
      forall i: nat
        ensures Has(a / 2, i) <==> Has(b / 2, i)
      {
        assert Has(a, i + 1) <==> Has(b, i + 1);
      }
      SameBits(a / 2, b / 2);
    }
  }

  /** Every bit of `required` is a bit of `held`. */
  ghost predicate Covers(held: nat, required: nat) {
    forall i: nat :: Has(required, i) ==> Has(held, i)
  }

  lemma ContainedBit(held: nat, required: nat, i: nat)
    requires Contains(held, required) && Has(required, i)
    ensures Has(held, i)
  {
    AndHas(held, required, i);
  }

  /** A mask contains another exactly when it has all of its bits. */
  lemma ContainsExactly(held: nat, required: nat)
    ensures Contains(held, required) <==> Covers(held, required)
  {
    if Contains(held, required) {
      forall i: nat | Has(required, i)
        ensures Has(held, i)
      {
        ContainedBit(held, required, i);
      }
    }
    if Covers(held, required) {
      forall i: nat
        ensures Has(And(held, required), i) <==> Has(required, i)
      {
        AndHas(held, required, i);
      }
      SameBits(And(held, required), required);
    }
  }

  /** `v & (v - 1)` drops exactly the lowest bit that is set. */
  lemma {:induction false} DropLowest(v: nat, i: nat)
    requires v > 0
    ensures Has(v, TrailingZeros(v)) && (i < TrailingZeros(v) ==> !Has(v, i))
    ensures Has(And(v, v - 1), i) <==> Has(v, i) && i != TrailingZeros(v)
    decreases v, i
  {
    AndHas(v, v - 1, i);
    if v % 2 == 1 {
      assert (v - 1) / 2 == v / 2;
    } else {
      assert (v - 1) / 2 == v / 2 - 1;
      if i > 0 {
        DropLowest(v / 2, i - 1);
        AndHas(v / 2, v / 2 - 1, i - 1);
      } else {
        DropLowest(v / 2, 0);
      }
    }
  }

  predicate Ascending(s: seq<nat>) {
    forall i, j :: 0 <= i < j < |s| ==> s[i] < s[j]
  }

  lemma AscendingSnoc(s: seq<nat>, x: nat)
    requires Ascending(s) && forall y <- s :: y < x
    ensures Ascending(s + [x])
  {
    forall i, j | 0 <= i < j < |s| + 1
      ensures (s + [x])[i] < (s + [x])[j]
    {
      assert s[i] in s;
    }
  }

  /** Lists each set bit once, in ascending order; terminates because each turn clears a bit. */
  method SetBits(bits: nat) returns (result: seq<nat>)
    ensures Ascending(result) && forall i: nat :: i in result <==> Has(bits, i)
  {
    hide And, TrailingZeros;
    var value := bits;
    result := [];
    while value != 0
      invariant Ascending(result)
      invariant forall i: nat :: Has(bits, i) <==> i in result || Has(value, i)
      invariant forall i <- result, j: nat :: Has(value, j) ==> i < j
      decreases value
    {
      var bit, rest := TrailingZeros(value), And(value, value - 1);
      forall i: nat
        ensures Has(rest, i) <==> Has(value, i) && i != bit
        ensures Has(value, bit) && (i < bit ==> !Has(value, i))
      {
        DropLowest(value, i);
      }
      assert forall i <- result :: i < bit by { assert Has(value, bit); }
      AscendingSnoc(result, bit);
      result, value := result + [bit], rest;
    }
    forall i: nat
      ensures !Has(0, i)
    {
      ZeroHas(i);
    }
  }

  // ----- The index -----

  type Plugin = (string, u64)

  datatype Variant = Variant(plugin: Plugin, runnerGeneration: u64, failureProbability: real)

  datatype Snapshot = Snapshot(
    node: NodeId, capabilityVersion: u64, resourceVersion: u64, pressure: nat, capabilities: nat, variants: seq<Variant>)

  predicate Offers(s: Snapshot, p: Plugin) {
    exists v <- s.variants :: v.plugin == p
  }

  predicate Acceptable(s: Snapshot) {
    && s.capabilityVersion > 0 && s.resourceVersion > 0 && s.pressure <= 100
    && forall v <- s.variants :: v.runnerGeneration > 0 && v.plugin.1 > 0 && 0.0 <= v.failureProbability <= 1.0
  }

  /** Nothing about the snapshot is impossible: no version or generation zero, no pressure above a hundred, no failure rate beyond one. */
  predicate Sane(s: Snapshot) {
    && !(s.capabilityVersion == 0 || s.resourceVersion == 0 || s.pressure > 100)
    && !(exists v <- s.variants :: v.runnerGeneration == 0 || v.plugin.1 == 0 || v.failureProbability < 0.0 || v.failureProbability > 1.0)
  }

  lemma AcceptsSane(s: Snapshot)
    ensures Acceptable(s) <==> Sane(s)
  {
  }

  /** The simple form of `candidate_ids_for`: filter all nodes. */
  function Filtered(nodes: map<NodeId, Snapshot>, required: nat, plugin: Option<Plugin>): set<NodeId> {
    set id <- nodes | Contains(nodes[id].capabilities, required) && (plugin.Some? ==> Offers(nodes[id], plugin.value))
  }

  /** A candidate has every required bit and, where a plugin generation is asked for, offers it. */
  lemma CandidatesExactly(nodes: map<NodeId, Snapshot>, required: nat, plugin: Option<Plugin>, id: NodeId)
    ensures id in Filtered(nodes, required, plugin) <==>
            && id in nodes && Covers(nodes[id].capabilities, required)
            && (plugin.None? || exists v <- nodes[id].variants :: v.plugin == plugin.value)
  {
    hide Contains, Covers;
    if id in nodes {
      ContainsExactly(nodes[id].capabilities, required);
      assert plugin.Some? ==> (Offers(nodes[id], plugin.value) <==> exists v <- nodes[id].variants :: v.plugin == plugin.value);
    }
  }

  type Postings<!K> = map<K, set<NodeId>>

  predicate Listed<K>(index: Postings<K>, k: K, id: NodeId) {
    k in index && id in index[k]
  }

  function Added<K>(index: Postings<K>, k: K, id: NodeId): Postings<K> {
    index[k := (if k in index then index[k] else {}) + {id}]
  }

  function Dropped<K>(index: Postings<K>, k: K, id: NodeId): Postings<K> {
    if k in index then index[k := index[k] - {id}] else index
  }

  /** `retain` of the nonempty posting sets. */
  function Pruned<K>(index: Postings<K>): Postings<K> {
    map k <- index | index[k] != {} :: index[k]
  }

  /** Adds a node under every key of a list. */
  method AddAll<K(==)>(index: Postings<K>, keys: seq<K>, id: NodeId) returns (r: Postings<K>)
    ensures forall k, n :: Listed(r, k, n) <==> Listed(index, k, n) || (n == id && k in keys)
  {
    r := index;
    for i := 0 to |keys|
      invariant forall k, n :: Listed(r, k, n) <==> Listed(index, k, n) || (n == id && k in keys[..i])
    {
      r := Added(r, keys[i], id);
      assert keys[..i + 1] == keys[..i] + [keys[i]];
    }
    assert keys[..|keys|] == keys;
  }

  method DropAll<K(==)>(index: Postings<K>, keys: seq<K>, id: NodeId) returns (r: Postings<K>)
    ensures forall k, n :: Listed(r, k, n) <==> Listed(index, k, n) && !(n == id && k in keys)
  {
    r := index;
    for i := 0 to |keys|
      invariant forall k, n :: Listed(r, k, n) <==> Listed(index, k, n) && !(n == id && k in keys[..i])
    {
      r := Dropped(r, keys[i], id);
      assert keys[..i + 1] == keys[..i] + [keys[i]];
    }
    assert keys[..|keys|] == keys;
    r := Pruned(r);
  }

  function Plugins(variants: seq<Variant>): (ps: seq<Plugin>)
    ensures forall p :: p in ps <==> exists v <- variants :: v.plugin == p
  {
    var ps := seq(|variants|, i requires 0 <= i < |variants| => variants[i].plugin);
    assert forall p :: p in ps ==> exists v <- variants :: v.plugin == p by {
      forall p | p in ps
        ensures exists v <- variants :: v.plugin == p
      {
        var i :| 0 <= i < |ps| && ps[i] == p;
        assert variants[i].plugin == p;
      }
    }
    assert forall v <- variants :: v.plugin in ps by {
      forall v | v in variants
        ensures v.plugin in ps
      {
        var i :| 0 <= i < |variants| && variants[i] == v;
        assert ps[i] == v.plugin;
      }
    }
    ps
  }

  /** The postings list exactly the nodes that have a bit or offer a plugin generation. */
  ghost predicate Indexed(nodes: map<NodeId, Snapshot>, byBit: Postings<nat>, byPlugin: Postings<Plugin>) {
    && (forall bit: nat, id :: Listed(byBit, bit, id) <==> id in nodes && Has(nodes[id].capabilities, bit))
    && (forall p: Plugin, id :: Listed<Plugin>(byPlugin, p, id) <==> id in nodes && Offers(nodes[id], p))
  }

  lemma IndexedAdd(nodes: map<NodeId, Snapshot>, bits: Postings<nat>, plugins: Postings<Plugin>, bits': Postings<nat>, plugins': Postings<Plugin>, s: Snapshot)
    requires Indexed(nodes, bits, plugins) && s.node !in nodes
    requires forall k: nat, n :: Listed(bits', k, n) <==> Listed(bits, k, n) || (n == s.node && Has(s.capabilities, k))
    requires forall k: Plugin, n :: Listed<Plugin>(plugins', k, n) <==> Listed<Plugin>(plugins, k, n) || (n == s.node && Offers(s, k))
    ensures Indexed(nodes[s.node := s], bits', plugins')
  {
    hide Listed, Offers;
  }

  lemma IndexedDrop(nodes: map<NodeId, Snapshot>, bits: Postings<nat>, plugins: Postings<Plugin>, bits': Postings<nat>, plugins': Postings<Plugin>, id: NodeId)
    requires Indexed(nodes, bits, plugins) && id in nodes
    requires forall k: nat, n :: Listed(bits', k, n) <==> Listed(bits, k, n) && !(n == id && Has(nodes[id].capabilities, k))
    requires forall k: Plugin, n :: Listed<Plugin>(plugins', k, n) <==> Listed<Plugin>(plugins, k, n) && !(n == id && Offers(nodes[id], k))
    ensures Indexed(nodes - {id}, bits', plugins')
  {
    hide Listed, Offers;
  }

  class CapabilityIndex {
    var nodes: map<NodeId, Snapshot>
    var byBit: Postings<nat>
    var byPlugin: Postings<Plugin>

    ghost predicate Valid()
      reads this
    {
      (forall id <- nodes :: nodes[id].node == id && Sane(nodes[id])) && Indexed(nodes, byBit, byPlugin)
    }

    constructor ()
      ensures Valid() && nodes == map[]
    {
      nodes, byBit, byPlugin := map[], map[], map[];
    }

    method Upsert(s: Snapshot) returns (r: Result<()>)
      requires Valid()
      modifies this
      ensures Valid()
      ensures r == if !Acceptable(s) then Err(Incompatible)
                   else if s.node in old(nodes) && (old(nodes)[s.node].capabilityVersion > s.capabilityVersion
                                                    || old(nodes)[s.node].resourceVersion > s.resourceVersion)
                   then Err(AttemptStale) else Ok(())
      ensures nodes == if r.Ok? then old(nodes)[s.node := s] else old(nodes)
      ensures r == Err(Incompatible) <==> !Sane(s)
    {
      hide Offers, Acceptable, Indexed, Sane;
      AcceptsSane(s);
      if !Acceptable(s) {
        return Err(Incompatible);
      }
      if s.node in nodes && (nodes[s.node].capabilityVersion > s.capabilityVersion || nodes[s.node].resourceVersion > s.resourceVersion) {
        return Err(AttemptStale);
      }
      Remove(s.node);
      ghost var wasBit, wasPlugin := byBit, byPlugin;
      var bits := SetBits(s.capabilities);
      byBit := AddAll(byBit, bits, s.node);
      byPlugin := AddAll<Plugin>(byPlugin, Plugins(s.variants), s.node);
      OffersPlugins(s);
      IndexedAdd(nodes, wasBit, wasPlugin, byBit, byPlugin, s);
      nodes := nodes[s.node := s];
      return Ok(());
    }

    method Remove(id: NodeId)
      requires Valid()
      modifies this
      ensures Valid() && nodes == old(nodes) - {id}
    {
      hide Offers, Indexed, Sane;
      if id in nodes {
        var previous := nodes[id];
        var bits := SetBits(previous.capabilities);
        byBit := DropAll(byBit, bits, id);
        byPlugin := DropAll<Plugin>(byPlugin, Plugins(previous.variants), id);
        OffersPlugins(previous);
        IndexedDrop(nodes, old(byBit), old(byPlugin), byBit, byPlugin, id);
        nodes := nodes - {id};
      }
    }

    /** Intersects the postings of the required bits. */
    method CandidateIds(required: nat) returns (result: set<NodeId>)
      requires Valid()
      ensures result == Filtered(nodes, required, None)
    {
      hide Offers, Contains;
      var bits := SetBits(required);
      forall id | id in nodes
        ensures (forall j :: 0 <= j < |bits| ==> Has(nodes[id].capabilities, bits[j])) <==> Contains(nodes[id].capabilities, required)
      {
        AllBits(nodes[id].capabilities, required, bits);
      }
      if bits == [] {
        return nodes.Keys;
      }
      result := if bits[0] in byBit then byBit[bits[0]] else {};
      assert forall id :: id in result <==> Listed(byBit, bits[0], id);
      for i := 1 to |bits|
        invariant forall id :: id in result <==> id in nodes && forall j :: 0 <= j < i ==> Has(nodes[id].capabilities, bits[j])
      {
        ghost var before := result;
        assert forall id <- nodes :: Listed(byBit, bits[i], id) <==> Has(nodes[id].capabilities, bits[i]);
        if bits[i] !in byBit {
          return {};
        }
        result := set id <- result | id in byBit[bits[i]];
        assert forall id :: id in result <==> id in before && Listed(byBit, bits[i], id);
      }
    }

    /** The indexed lookup is the plain filter. */
    method CandidateIdsFor(required: nat, plugin: Option<Plugin>) returns (result: set<NodeId>)
      requires Valid()
      ensures result == Filtered(nodes, required, plugin)
    {
      hide Offers, Contains;
      result := CandidateIds(required);
      if plugin.Some? {
        if plugin.value !in byPlugin {
          assert forall id :: !Listed(byPlugin, plugin.value, id);
          return {};
        }
        result := set id <- result | id in byPlugin[plugin.value];
        assert forall id :: id in byPlugin[plugin.value] <==> Listed(byPlugin, plugin.value, id);
      }
    }
  }

  lemma OffersPlugins(s: Snapshot)
    ensures forall p: Plugin :: Offers(s, p) <==> p in Plugins(s.variants)
  {
  }

  lemma AllBits(held: nat, required: nat, bits: seq<nat>)
    requires forall i: nat :: i in bits <==> Has(required, i)
    ensures (forall j :: 0 <= j < |bits| ==> Has(held, bits[j])) <==> Contains(held, required)
  {
    hide Contains;
    ContainsExactly(held, required);
    if forall j :: 0 <= j < |bits| ==> Has(held, bits[j]) {
      forall i: nat | Has(required, i)
        ensures Has(held, i)
      {
        assert i in bits;
      }
    }
    if Covers(held, required) {
      forall j | 0 <= j < |bits|
        ensures Has(held, bits[j])
      {
        assert bits[j] in bits;
      }
    }
  }
}
