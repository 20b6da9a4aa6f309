/** The hash chain of transaction ids: a last id stands for the whole history behind it. */
module Lineage {
  import opened Wire
  import opened Outcomes
  import opened Tasks
  import opened Frames
  import opened Journal
  import opened Runs
  import opened RunsSafety

  /** The text behind an id: the predecessor's id, the index and the version in eight bytes each, the mutation. */
  function Hashed(codec: Codec, t: Transaction): Bytes {
    t.previousId + Le(t.index, 8) + Le(t.previousVersion, 8) + codec.mutationJson(t.mutation)
  }

  function Texts(codec: Codec, h: History): set<Bytes> {
    set t <- h :: Hashed(codec, t)
  }

  /** No two mutations share their JSON. */
  ghost predicate Distinguishes(codec: Codec) {
    forall m, n :: codec.mutationJson(m) == codec.mutationJson(n) ==> m == n
  }

  /** The hash tells these texts apart. */
  predicate Separates(sha: Bytes -> Digest, all: set<Bytes>) {
    forall a <- all, b <- all :: sha(a) == sha(b) ==> a == b
  }

  lemma SeparatesFewer(sha: Bytes -> Digest, all: set<Bytes>, some: set<Bytes>)
    requires Separates(sha, all) && some <= all
    ensures Separates(sha, some)
  {
  }

  // ----- Hexadecimal and widths -----

  lemma {:induction false} HexInjective(a: Bytes, b: Bytes)
    requires Hex(a) == Hex(b)
    ensures a == b
    decreases |a|
  {
    assert |a| == |b|;
    if a != [] {
      assert Hex(a)[2..] == Hex(a[1..]) && Hex(b)[2..] == Hex(b[1..]);
      HexInjective(a[1..], b[1..]);
      assert HEX[a[0] / 16] == Hex(a)[0] == Hex(b)[0] == HEX[b[0] / 16];
      assert HEX[a[0] % 16] == Hex(a)[1] == Hex(b)[1] == HEX[b[0] % 16];
      DigitsApart(a[0] / 16, b[0] / 16);
      DigitsApart(a[0] % 16, b[0] % 16);
      assert a == [a[0]] + a[1..] && b == [b[0]] + b[1..];
    }
  }

  /** Each byte becomes two lower-case digits, the high one first. */
  lemma {:induction false} HexIs(b: Bytes, i: nat)
    requires i < |b|
    ensures var digits := "0123456789abcdef"; Hex(b)[2 * i] == digits[b[i] / 16] as int && Hex(b)[2 * i + 1] == digits[b[i] % 16] as int
    decreases |b|
  {
    if i > 0 {
      HexIs(b[1..], i - 1);
      assert Hex(b)[2 * i] == Hex(b[1..])[2 * (i - 1)] && Hex(b)[2 * i + 1] == Hex(b[1..])[2 * (i - 1) + 1];
    }
  }

  lemma DigitsApart(i: nat, j: nat)
    requires i < 16 && j < 16 && HEX[i] == HEX[j]
    ensures i == j
  {
  }

  /** A hexadecimal text starts with a digit, an index below 48 with a smaller byte. */
  lemma HexFirst(b: Bytes)
    requires b != []
    ensures Hex(b)[0] >= 48
  {
  }

  lemma LeInjective(m: u64, n: u64)
    requires Le(m, 8) == Le(n, 8)
    ensures m == n
  {
    Widths();
    LeRoundTrip(m, 8);
    LeRoundTrip(n, 8);
  }

  // ----- One transaction -----

  /** In a chain an id is the hexadecimal hash of its text, and the previous id is that of the transaction before. */
  lemma ChainLast(env: Env, h: History)
    requires Chain(env, h) && h != []
    ensures var start, t := h[..|h| - 1], h[|h| - 1];
            && t.id == Hex(env.codec.sha(Hashed(env.codec, t))) && ImageOf(env, h).lastId == t.id
            && t.previousId == ImageOf(env, start).lastId && t.index == |h|
            && t.task == t.mutation.Target() && t.newVersion == t.previousVersion + 1
  {
    hide Apply, Fits, Hex, Le;
    var start, t := h[..|h| - 1], h[|h| - 1];
    LastIndex(env, start);
    PublishedIndex(env, ImageOf(env, start), t);
  }

  /** The last id of a chain is empty, or 64 hexadecimal bytes. */
  lemma LastIdShape(env: Env, h: History)
    requires Chain(env, h)
    ensures var id := ImageOf(env, h).lastId; if h == [] then id == [] else |id| == 64 && id[0] >= 48
  {
    hide Chain, ImageOf, Hashed, Hex;
    if h != [] {
      ChainLast(env, h);
      HexFirst(env.codec.sha(Hashed(env.codec, h[|h| - 1])));
    } else {
      StartsEmpty(env, h);
      assert h[..0] == h;
    }
  }

  /** Equal texts have equal parts, because the previous id is recognised by its first byte. */
  lemma SameParts(p: Bytes, i: u64, v: u64, x: Bytes, q: Bytes, j: u64, w: u64, y: Bytes)
    requires p + Le(i, 8) + Le(v, 8) + x == q + Le(j, 8) + Le(w, 8) + y
    requires p == [] || (|p| == 64 && p[0] >= 48)
    requires q == [] || (|q| == 64 && q[0] >= 48)
    requires (p == [] ==> i == 1) && (q == [] ==> j == 1)
    ensures p == q && i == j && v == w && x == y
  {
    hide Le;
    OneFirst();
    SameFields(p, Le(i, 8), Le(v, 8), x, q, Le(j, 8), Le(w, 8), y);
    LeInjective(i, j);
    LeInjective(v, w);
  }

  lemma SameFields(p: Bytes, i: Bytes, v: Bytes, x: Bytes, q: Bytes, j: Bytes, w: Bytes, y: Bytes)
    requires p + i + v + x == q + j + w + y && |i| == |j| == |v| == |w| == 8
    requires p == [] || (|p| == 64 && p[0] >= 48)
    requires q == [] || (|q| == 64 && q[0] >= 48)
    requires (p == [] ==> i[0] == 1) && (q == [] ==> j[0] == 1)
    ensures p == q && i == j && v == w && x == y
  {
    assert p + i + (v + x) == p + i + v + x && q + j + (w + y) == q + j + w + y;
    SameFirst(p, i, v + x, q, j, w + y);
    SameSplit(p + i + v, x, q + j + w, y);
    SameSplit(p + i, v, q + j, w);
    SameSplit(p, i, q, j);
  }

  lemma OneFirst()
    ensures Le(1, 8)[0] == 1
  {
  }

  lemma SameSplit(a: Bytes, b: Bytes, c: Bytes, d: Bytes)
    requires |a| == |c| && a + b == c + d
    ensures a == c && b == d
  {
    assert a == (a + b)[..|a|] && c == (c + d)[..|c|];
    assert b == (a + b)[|a|..] && d == (c + d)[|c|..];
  }

  lemma SameFirst(p: Bytes, i: Bytes, a: Bytes, q: Bytes, j: Bytes, b: Bytes)
    requires p + i + a == q + j + b && i != [] && j != []
    requires p == [] || (|p| == 64 && p[0] >= 48)
    requires q == [] || (|q| == 64 && q[0] >= 48)
    requires (p == [] ==> i[0] == 1) && (q == [] ==> j[0] == 1)
    ensures |p| == |q|
  {
    assert (p + i + a)[0] == (q + j + b)[0];
  }

  /** The previous id of a chain's last transaction: empty for the first one only. */
  lemma Earlier(env: Env, h: History)
    requires Chain(env, h) && h != []
    ensures var id := ImageOf(env, h[..|h| - 1]).lastId; (id == [] && |h| == 1) || (|id| == 64 && id[0] >= 48)
  {
    hide ImageOf, Chain, Genuine, Publish;
    ChainPrefix(env, h, |h| - 1);
    LastIdShape(env, h[..|h| - 1]);
  }

  lemma SameTransaction(env: Env, a: History, b: History)
    requires Distinguishes(env.codec) && Chain(env, a) && Chain(env, b) && a != [] && b != []
    requires Hashed(env.codec, a[|a| - 1]) == Hashed(env.codec, b[|b| - 1])
    ensures a[|a| - 1] == b[|b| - 1] && ImageOf(env, a[..|a| - 1]).lastId == ImageOf(env, b[..|b| - 1]).lastId
  {
    hide ImageOf, Chain, Le, Hex, Genuine, Publish;
    var s, t := a[|a| - 1], b[|b| - 1];
    ChainLast(env, a);
    ChainLast(env, b);
    Earlier(env, a);
    Earlier(env, b);
    SameParts(s.previousId, s.index, s.previousVersion, env.codec.mutationJson(s.mutation),
              t.previousId, t.index, t.previousVersion, env.codec.mutationJson(t.mutation));
  }

  // ----- Whole histories -----

  lemma TextsTake(codec: Codec, h: History, n: nat)
    requires n <= |h|
    ensures Texts(codec, h[..n]) <= Texts(codec, h)
  {
    forall t | t in h[..n]
      ensures t in h
    {
    }
  }

  /** Two chains with the same last id are the same history, unless the hash collides on one of their texts. */
  lemma {:induction false} SameLastId(env: Env, a: History, b: History)
    requires Distinguishes(env.codec) && Chain(env, a) && Chain(env, b)
    requires Separates(env.codec.sha, Texts(env.codec, a) + Texts(env.codec, b))
    requires ImageOf(env, a).lastId == ImageOf(env, b).lastId
    ensures a == b
    decreases |a|
  {
    hide ImageOf, Chain, Hashed, Separates, Texts, Distinguishes, Hex, Genuine, Publish;
    LastIdShape(env, a);
    LastIdShape(env, b);
    if a != [] {
      var x, y := a[..|a| - 1], b[..|b| - 1];
      ChainLast(env, a);
      ChainLast(env, b);
      HexInjective(env.codec.sha(Hashed(env.codec, a[|a| - 1])), env.codec.sha(Hashed(env.codec, b[|b| - 1])));
      LastTextsAgree(env.codec, a, b);
      SameTransaction(env, a, b);
      ChainPrefix(env, a, |x|);
      ChainPrefix(env, b, |y|);
      TextsTake(env.codec, a, |x|);
      TextsTake(env.codec, b, |y|);
      SeparatesFewer(env.codec.sha, Texts(env.codec, a) + Texts(env.codec, b), Texts(env.codec, x) + Texts(env.codec, y));
      SameLastId(env, x, y);
      assert a == x + [a[|a| - 1]] && b == y + [b[|b| - 1]];
    }
  }

  lemma LastTextsAgree(codec: Codec, a: History, b: History)
    requires a != [] && b != [] && Separates(codec.sha, Texts(codec, a) + Texts(codec, b))
    requires codec.sha(Hashed(codec, a[|a| - 1])) == codec.sha(Hashed(codec, b[|b| - 1]))
    ensures Hashed(codec, a[|a| - 1]) == Hashed(codec, b[|b| - 1])
  {
    hide Hashed;
    assert a[|a| - 1] in a && b[|b| - 1] in b;
  }

  /** The ids along one chain are pairwise distinct, under the same proviso. */
  lemma IdsDistinct(env: Env, h: History, i: nat, j: nat)
    requires Distinguishes(env.codec) && Chain(env, h) && i < j < |h| && Separates(env.codec.sha, Texts(env.codec, h))
    ensures h[i].id != h[j].id
  {
    hide ImageOf, Chain, Hashed, Separates, Texts, Distinguishes, Hex, Genuine, Publish;
    var a, b := h[..i + 1], h[..j + 1];
    ChainPrefix(env, h, i + 1);
    ChainPrefix(env, h, j + 1);
    ChainLast(env, a);
    ChainLast(env, b);
    TextsTake(env.codec, h, i + 1);
    TextsTake(env.codec, h, j + 1);
    SeparatesFewer(env.codec.sha, Texts(env.codec, h), Texts(env.codec, a) + Texts(env.codec, b));
    if h[i].id == h[j].id {
      SameLastId(env, a, b);
    }
  }

  /** Two registries, whatever their runs and crashes, that agree on the last id agree on history, records and versions. */
  lemma SameLastIdSameRegistry(env: Env, runA: seq<Event>, runB: seq<Event>)
    requires env.codec.Faithful() && Distinguishes(env.codec)
    requires var a, b := Run(env, Init(env), runA), Run(env, Init(env), runB);
             && Separates(env.codec.sha, Texts(env.codec, a.history) + Texts(env.codec, b.history))
             && a.image.lastId == b.image.lastId
    ensures var a, b := Run(env, Init(env), runA), Run(env, Init(env), runB);
            a.history == b.history && a.image == b.image
  {
    hide Run, Init, Inv, Chain, ImageOf, Separates, Texts, Distinguishes;
    EveryRunKeeps(env, runA);
    EveryRunKeeps(env, runB);
    var a, b := Run(env, Init(env), runA), Run(env, Init(env), runB);
    InvHistory(env, a);
    InvHistory(env, b);
    SameLastId(env, a.history, b.history);
  }

  lemma InvHistory(env: Env, s: State)
    requires Inv(env, s)
    ensures Chain(env, s.history) && s.image == ImageOf(env, s.history)
  {
    hide DiskOk, SyncOk, ReplicasOk, Chain, ImageOf, Genuine;
  }
}
