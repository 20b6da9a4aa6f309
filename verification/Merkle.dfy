/**
 The Merkle tree of an audit segment.  An odd last node is paired with itself, so this is not the
 tree of section 2.1 of RFC 6962.  `pair` is the hash of two nodes, as an arbitrary function.
 */
module Merkle {
  import opened Wire
  import opened Outcomes

  type Pair = (string, string) -> string

  datatype Sibling = Sibling(hash: string, left: bool)

  datatype InclusionProof = InclusionProof(segmentId: u64, leafIndex: u32, leaf: string, siblings: seq<Sibling>, root: string)

  // ----- Trees -----

  /** How many parents a level has. */
  function Half(n: nat): nat {
    (n + 1) / 2
  }

  /** The right child of a node, which is the left one again at an odd end. */
  function Right(n: nat, k: nat): nat {
    if 2 * k + 1 < n then 2 * k + 1 else 2 * k
  }

  function NextLevel(pair: Pair, level: seq<string>): (next: seq<string>)
    ensures |next| == Half(|level|)
  {
    seq(Half(|level|), k requires 0 <= k < Half(|level|) => pair(level[2 * k], level[Right(|level|, k)]))
  }

  function Root(pair: Pair, level: seq<string>): string
    requires level != []
    decreases |level|
  {
    if |level| == 1 then level[0] else Root(pair, NextLevel(pair, level))
  }

  function Height(n: nat): nat {
    if n <= 1 then 0 else 1 + Height(Half(n))
  }

  lemma Shrinks(n: nat)
    requires n > 1
    ensures 0 < Half(n) < n
  {
  }

  method ComputeRoot(pair: Pair, empty: string, leaves: seq<string>) returns (root: string)
    ensures root == if leaves == [] then empty else Root(pair, leaves)
  {
    if leaves == [] {
      return empty;
    }
    var level := leaves;
    while |level| > 1
      invariant level != [] && Root(pair, level) == Root(pair, leaves)
      decreases |level|
    {
      level := NextLevel(pair, level);
    }
    return level[0];
  }

  // ----- Proofs -----

  function SiblingOf(n: nat, i: nat): (j: nat)
    requires i < n
    ensures j < n
  {
    if i % 2 == 0 then (if i + 1 < n then i + 1 else n - 1) else i - 1
  }

  /** A node and its sibling are the two children of its parent. */
  lemma Family(n: nat, i: nat)
    requires i < n
    ensures i / 2 < Half(n)
    ensures i % 2 == 0 ==> i == 2 * (i / 2) && SiblingOf(n, i) == Right(n, i / 2) >= i
    ensures i % 2 != 0 ==> i == Right(n, i / 2) && SiblingOf(n, i) == 2 * (i / 2) < i
  {
  }

  /** The siblings of a leaf's ancestors, from the leaf up. */
  function Siblings(pair: Pair, level: seq<string>, i: nat): (s: seq<Sibling>)
    requires i < |level|
    decreases |level|
  {
    if |level| == 1 then []
    else
      var j := SiblingOf(|level|, i);
      [Sibling(level[j], j < i)] + Siblings(pair, NextLevel(pair, level), i / 2)
  }

  method Prove(pair: Pair, leaves: seq<string>, i: nat) returns (siblings: seq<Sibling>)
    requires i < |leaves|
    ensures siblings == Siblings(pair, leaves, i)
  {
    hide NextLevel, SiblingOf, Half;
    var level, current: nat := leaves, i;
    siblings := [];
    while |level| > 1
      invariant current < |level|
      invariant siblings + Siblings(pair, level, current) == Siblings(pair, leaves, i)
      decreases |level|
    {
      Family(|level|, current);
      Shrinks(|level|);
      var j := SiblingOf(|level|, current);
      ghost var rest := Siblings(pair, NextLevel(pair, level), current / 2);
      assert siblings + ([Sibling(level[j], j < current)] + rest) == (siblings + [Sibling(level[j], j < current)]) + rest;
      siblings := siblings + [Sibling(level[j], j < current)];
      level, current := NextLevel(pair, level), current / 2;
    }
  }

  function Combine(pair: Pair, current: string, s: Sibling): string {
    if s.left then pair(s.hash, current) else pair(current, s.hash)
  }

  function Fold(pair: Pair, leaf: string, siblings: seq<Sibling>): string
    decreases |siblings|
  {
    if siblings == [] then leaf else Fold(pair, Combine(pair, leaf, siblings[0]), siblings[1..])
  }

  predicate Verify(pair: Pair, proof: InclusionProof) {
    Fold(pair, proof.leaf, proof.siblings) == proof.root
  }

  /** The position that the sides of a proof spell, in a tree of `n` leaves. */
  function Position(n: nat, siblings: seq<Sibling>): (i: nat)
    requires n > 0 && |siblings| == Height(n)
    ensures i < n
    decreases |siblings|
  {
    if siblings == [] then 0
    else
      var k := Position(Half(n), siblings[1..]);
      if siblings[0].left then Right(n, k) else 2 * k
  }

  /** Every generated proof has the height of the tree, spells its own position, and verifies. */
  lemma {:induction false} GeneratedVerifies(pair: Pair, level: seq<string>, i: nat)
    requires i < |level|
    ensures |Siblings(pair, level, i)| == Height(|level|)
    ensures Position(|level|, Siblings(pair, level, i)) == i
    ensures Fold(pair, level[i], Siblings(pair, level, i)) == Root(pair, level)
    decreases |level|
  {
    hide NextLevel, SiblingOf, Half, Right;
    if |level| > 1 {
      var next, s := NextLevel(pair, level), Siblings(pair, level, i);
      Family(|level|, i);
      Shrinks(|level|);
      GeneratedVerifies(pair, next, i / 2);
      assert s[1..] == Siblings(pair, next, i / 2);
      NextAt(pair, level, i / 2);
      assert Combine(pair, level[i], s[0]) == next[i / 2];
    }
  }

  // ----- Soundness -----

  /** The pairs that a tree hashes. */
  function TreePairs(pair: Pair, level: seq<string>): set<(string, string)>
    decreases |level|
  {
    if |level| <= 1 then {}
    else (set k | 0 <= k < Half(|level|) :: (level[2 * k], level[Right(|level|, k)])) + TreePairs(pair, NextLevel(pair, level))
  }

  function PairOf(current: string, s: Sibling): (string, string) {
    if s.left then (s.hash, current) else (current, s.hash)
  }

  /** The pairs that the check of a proof hashes. */
  function PathPairs(pair: Pair, leaf: string, siblings: seq<Sibling>): set<(string, string)>
    decreases |siblings|
  {
    if siblings == [] then {}
    else {PairOf(leaf, siblings[0])} + PathPairs(pair, Combine(pair, leaf, siblings[0]), siblings[1..])
  }

  /** No pair that a proof hashes collides with another pair of the tree. */
  predicate Apart(pair: Pair, tree: set<(string, string)>, path: set<(string, string)>) {
    forall p <- tree, q <- path :: pair(p.0, p.1) == pair(q.0, q.1) ==> p == q
  }

  /**
   Any proof of the tree's height that folds to its root proves the leaf at the position it spells,
   unless the hash collides between a pair of the tree and one of the proof.
   */
  lemma {:induction false} VerifiedIsLeaf(pair: Pair, level: seq<string>, leaf: string, siblings: seq<Sibling>)
    requires level != [] && |siblings| == Height(|level|) && Fold(pair, leaf, siblings) == Root(pair, level)
    requires Apart(pair, TreePairs(pair, level), PathPairs(pair, leaf, siblings))
    ensures leaf == level[Position(|level|, siblings)]
    decreases |level|
  {
    hide NextLevel;
    if |level| > 1 {
      var next, up, rest := NextLevel(pair, level), Combine(pair, leaf, siblings[0]), siblings[1..];
      var mine := PairOf(leaf, siblings[0]);
      assert TreePairs(pair, next) <= TreePairs(pair, level) && PathPairs(pair, up, rest) <= PathPairs(pair, leaf, siblings);
      VerifiedIsLeaf(pair, next, up, rest);
      var k := Position(|next|, rest);
      var theirs := (level[2 * k], level[Right(|level|, k)]);
      NextAt(pair, level, k);
      assert theirs in TreePairs(pair, level) && mine in PathPairs(pair, leaf, siblings);
    }
  }

  lemma NextAt(pair: Pair, level: seq<string>, k: nat)
    requires k < Half(|level|)
    ensures NextLevel(pair, level)[k] == pair(level[2 * k], level[Right(|level|, k)])
  {
  }

  // ----- The pair hash of the code -----

  /** `hash_pair`: the digest of the two texts with a colon between them. */
  function HashPair(sha: string -> string): Pair {
    (left, right) => sha(left + ":" + right)
  }

  function PairText(p: (string, string)): string {
    p.0 + ":" + p.1
  }

  predicate NoColon(s: string) {
    ':' !in s
  }

  /** A text with one colon comes from one pair only, whatever the other pair contains. */
  lemma OneColon(p: (string, string), q: (string, string))
    requires NoColon(p.0) && NoColon(p.1) && PairText(p) == PairText(q)
    ensures p == q
  {
    var s, n, m := PairText(p), |p.0|, |q.0|;
    assert s[n] == ':' && s[m] == ':';
    assert forall i :: 0 <= i < |s| && i != n ==> s[i] == (if i < n then p.0[i] else p.1[i - n - 1]) != ':';
    assert p.0 == s[..n] == q.0 && p.1 == s[n + 1..] == q.1;
  }

  lemma {:induction false} TreePairsPlain(sha: string -> string, level: seq<string>)
    requires (forall node <- level :: NoColon(node)) && forall text :: NoColon(sha(text))
    ensures forall p <- TreePairs(HashPair(sha), level) :: NoColon(p.0) && NoColon(p.1)
    decreases |level|
  {
    hide NoColon;
    if |level| > 1 {
      var next := NextLevel(HashPair(sha), level);
      forall k | 0 <= k < |next|
        ensures NoColon(next[k])
      {
        assert next[k] == sha(level[2 * k] + ":" + level[Right(|level|, k)]);
      }
      TreePairsPlain(sha, next);
    }
  }

  /** The texts that are hashed for these pairs. */
  function PairTexts(pairs: set<(string, string)>): set<string> {
    set p <- pairs :: PairText(p)
  }

  /**
   With the code's own pair hash, over leaves and digests without a colon as hexadecimal ones are:
   a proof of the tree's height that folds to the root proves its leaf, unless the digest itself
   collides on two of the texts hashed.  The proof's own texts may be anything.
   */
  lemma VerifiedIsLeafHashed(sha: string -> string, leaves: seq<string>, leaf: string, siblings: seq<Sibling>)
    requires leaves != [] && (forall node <- leaves :: NoColon(node)) && forall text :: NoColon(sha(text))
    requires |siblings| == Height(|leaves|) && Fold(HashPair(sha), leaf, siblings) == Root(HashPair(sha), leaves)
    requires var texts := PairTexts(TreePairs(HashPair(sha), leaves)) + PairTexts(PathPairs(HashPair(sha), leaf, siblings));
             forall x <- texts, y <- texts :: sha(x) == sha(y) ==> x == y
    ensures leaf == leaves[Position(|leaves|, siblings)]
  {
    hide NoColon, TreePairs, PathPairs, Root, Fold;
    var pair := HashPair(sha);
    var tree, path := TreePairs(pair, leaves), PathPairs(pair, leaf, siblings);
    TreePairsPlain(sha, leaves);
    forall p, q | p in tree && q in path && pair(p.0, p.1) == pair(q.0, q.1)
      ensures p == q
    {
      assert PairText(p) in PairTexts(tree) && PairText(q) in PairTexts(path);
      OneColon(p, q);
    }
    VerifiedIsLeaf(pair, leaves, leaf, siblings);
  }

  // ----- What verification does not check -----

  /** The stated leaf index is never read: a proof for one leaf verifies under every other index. */
  lemma IndexUnchecked(pair: Pair, leaves: seq<string>, i: nat, claimed: u32, segment: u64)
    requires i < |leaves|
    ensures Verify(pair, InclusionProof(segment, claimed, leaves[i], Siblings(pair, leaves, i), Root(pair, leaves)))
  {
    GeneratedVerifies(pair, leaves, i);
  }

  /** Without the tree's height, inner nodes pass as leaves: here each node of the next level. */
  lemma HeightUnchecked(pair: Pair, leaves: seq<string>, i: nat)
    requires i < |leaves| && |leaves| > 1
    ensures var s := Siblings(pair, leaves, i);
            Verify(pair, InclusionProof(0, 0, Combine(pair, leaves[i], s[0]), s[1..], Root(pair, leaves)))
  {
    GeneratedVerifies(pair, leaves, i);
  }
}
