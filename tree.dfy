/**
 * The Huffman trees that buildTree combines and printCodes walks: a leaf
 * carries a symbol and its frequency, an inner node two subtrees. The queue
 * orders trees by weight: a leaf's frequency, a node's total of its leaves.
 */
module HuffmanTree {
  import opened Frequencies

  /** HuffmanLeaf(frequency, value) and HuffmanNode(left, right). */
  datatype Tree = Leaf(frequency: nat, value: CodeUnit) | Node(left: Tree, right: Tree)

  /** The frequency a tree stands for, by which the priority queue orders it. */
  function Weight(t: Tree): nat
  {
    match t
    case Leaf(f, _) => f
    case Node(l, r) => Weight(l) + Weight(r)
  }

  /** The leaves of `t` from left to right. */
  function Leaves(t: Tree): seq<Tree>
  {
    match t
    case Leaf(_, _) => [t]
    case Node(l, r) => Leaves(l) + Leaves(r)
  }

  /** Total weight of a list of trees. */
  function SumWeights(ts: seq<Tree>): nat
  {
    if ts == [] then 0 else SumWeights(ts[..|ts| - 1]) + Weight(ts[|ts| - 1])
  }

  /** All leaves of all trees of a forest, with multiplicity. */
  function LeafBag(ts: seq<Tree>): multiset<Tree>
  {
    if ts == [] then multiset{} else LeafBag(ts[..|ts| - 1]) + multiset(Leaves(ts[|ts| - 1]))
  }

  /** At every node the left subtree weighs no more than the right one. */
  predicate Ordered(t: Tree)
  {
    match t
    case Leaf(_, _) => true
    case Node(l, r) => Weight(l) <= Weight(r) && Ordered(l) && Ordered(r)
  }

  /** Every tree has at least one leaf, and Leaves yields leaves only. */
  lemma {:induction false} LeavesAreLeaves(t: Tree)
    ensures |Leaves(t)| >= 1
    ensures forall x :: x in Leaves(t) ==> x.Leaf?
  {
    if t.Node? {
      LeavesAreLeaves(t.left);
      LeavesAreLeaves(t.right);
    }
  }

  /** A tree weighs as much as its leaves together. */
  lemma {:induction false} WeightIsLeafSum(t: Tree)
    ensures Weight(t) == SumWeights(Leaves(t))
  {
    match t
    case Leaf(_, _) =>
      assert Leaves(t)[..0] == [];
    case Node(l, r) =>
      WeightIsLeafSum(l);
      WeightIsLeafSum(r);
      SumWeightsAppend(Leaves(l), Leaves(r));
  }

  /** SumWeights adds up over a concatenation. */
  lemma {:induction false} SumWeightsAppend(a: seq<Tree>, b: seq<Tree>)
    ensures SumWeights(a + b) == SumWeights(a) + SumWeights(b)
    decreases |b|
  {
    if b == [] {
      assert a + b == a;
    } else {
      var b' := b[..|b| - 1];
      assert (a + b)[..|a + b| - 1] == a + b';
      SumWeightsAppend(a, b');
    }
  }

  /** LeafBag adds up over a concatenation. */
  lemma {:induction false} LeafBagAppend(a: seq<Tree>, b: seq<Tree>)
    ensures LeafBag(a + b) == LeafBag(a) + LeafBag(b)
    decreases |b|
  {
    if b == [] {
      assert a + b == a;
    } else {
      var b' := b[..|b| - 1];
      assert (a + b)[..|a + b| - 1] == a + b';
      LeafBagAppend(a, b');
    }
  }

  /** Removing the tree at index `j` takes one copy of it out of the list's multiset. */
  lemma RemoveAtMultiset(b: seq<Tree>, j: nat)
    requires j < |b|
    ensures multiset(b) == multiset(b[..j] + b[j + 1..]) + multiset{b[j]}
  {
    assert b == b[..j] + [b[j]] + b[j + 1..];
  }

  /** Removing the tree at index `j` takes its weight out of the total. */
  lemma RemoveAtWeight(b: seq<Tree>, j: nat)
    requires j < |b|
    ensures SumWeights(b) == SumWeights(b[..j] + b[j + 1..]) + Weight(b[j])
  {
    var tail := [b[j]] + b[j + 1..];
    assert b == b[..j] + tail;
    assert tail[..0] == [];
    SumWeightsAppend(b[..j], tail);
    SumWeightsAppend([b[j]], b[j + 1..]);
    SumWeightsAppend(b[..j], b[j + 1..]);
  }

  /** Removing the tree at index `j` takes its leaves out of the forest's leaves. */
  lemma RemoveAtLeaves(b: seq<Tree>, j: nat)
    requires j < |b|
    ensures LeafBag(b) == LeafBag(b[..j] + b[j + 1..]) + multiset(Leaves(b[j]))
  {
    var head, tail := b[..j], b[j + 1..];
    var single := [b[j]];
    assert b == head + (single + tail);
    var p, q, r := LeafBag(head), LeafBag(single), LeafBag(tail);
    LeafBagSingle(b[j]);
    LeafBagAppend(head, single + tail);
    LeafBagAppend(single, tail);
    LeafBagAppend(head, tail);
    assert LeafBag(b) == p + (q + r);
    assert LeafBag(head + tail) == p + r;
    MultisetShuffle(p, q, r);
  }

  /** The leaves of a one-tree forest are the leaves of that tree. */
  lemma LeafBagSingle(t: Tree)
    ensures LeafBag([t]) == multiset(Leaves(t))
  {
    assert [t][..0] == [];
    assert multiset{} + multiset(Leaves(t)) == multiset(Leaves(t));
  }

  /** Multiset union may be regrouped: p + (q + r) == (p + r) + q. */
  lemma MultisetShuffle(p: multiset<Tree>, q: multiset<Tree>, r: multiset<Tree>)
    ensures p + (q + r) == (p + r) + q
  {
    forall y ensures (p + (q + r))[y] == ((p + r) + q)[y] {
    }
  }

  /**
   * Weight and leaves of a forest do not depend on the order of its trees:
   * two lists holding the same trees have the same totals.
   */
  lemma {:induction false} ForestPermutation(a: seq<Tree>, b: seq<Tree>)
    requires multiset(a) == multiset(b)
    ensures SumWeights(a) == SumWeights(b)
    ensures LeafBag(a) == LeafBag(b)
    decreases |a|
  {
    if a == [] {
      assert |b| == |multiset(b)| == 0;
    } else {
      var a', x := a[..|a| - 1], a[|a| - 1];
      assert a == a' + [x];
      assert multiset(a) == multiset(a') + multiset{x};
      assert x in multiset(b);
      var j :| 0 <= j < |b| && b[j] == x;
      var b' := b[..j] + b[j + 1..];
      RemoveAtMultiset(b, j);
      assert multiset(a') + multiset{x} == multiset(b') + multiset{x};
      MultisetCancel(multiset(a'), multiset(b'), x);
      ForestPermutation(a', b');
      RemoveAtWeight(b, j);
      RemoveAtLeaves(b, j);
    }
  }

  /** Taking the same tree out of two equal bags leaves equal bags. */
  lemma MultisetCancel(m: multiset<Tree>, m': multiset<Tree>, x: Tree)
    requires m + multiset{x} == m' + multiset{x}
    ensures m == m'
  {
    forall y ensures m[y] == m'[y] {
      assert (m + multiset{x})[y] == (m' + multiset{x})[y];
    }
  }

  /** A forest of leaves only is its own bag of leaves. */
  lemma {:induction false} LeafBagOfLeaves(s: seq<Tree>)
    requires forall x :: x in s ==> x.Leaf?
    ensures LeafBag(s) == multiset(s)
    decreases |s|
  {
    if s != [] {
      var s' := s[..|s| - 1];
      assert s == s' + [s[|s| - 1]];
      LeafBagOfLeaves(s');
    }
  }

  /**
   * One merge step of buildTree keeps the forest's leaves and weight: poll
   * `a` from `e0` leaving `e1`, poll `b` from `e1` leaving `e2`, offer
   * Node(a, b).
   */
  lemma MergeKeepsForest(e0: seq<Tree>, e1: seq<Tree>, e2: seq<Tree>, a: Tree, b: Tree)
    requires multiset(e0) == multiset(e1) + multiset{a}
    requires multiset(e1) == multiset(e2) + multiset{b}
    ensures LeafBag(e2 + [Node(a, b)]) == LeafBag(e0)
    ensures SumWeights(e2 + [Node(a, b)]) == SumWeights(e0)
  {
    var e3, e4 := e2 + [Node(a, b)], e2 + [b] + [a];
    assert multiset(e4) == multiset(e2) + multiset{b} + multiset{a};
    ForestPermutation(e0, e4);
    assert e3[..|e3| - 1] == e2;
    assert e4[..|e4| - 1] == e2 + [b];
    assert (e2 + [b])[..|e2|] == e2;
    var l2, la, lb := LeafBag(e2), multiset(Leaves(a)), multiset(Leaves(b));
    assert LeafBag(e3) == l2 + (la + lb);
    assert LeafBag(e4) == (l2 + lb) + la;
    MultisetShuffle(l2, la, lb);
  }
}
