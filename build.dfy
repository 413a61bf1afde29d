/**
 * Huffman.buildTree: seed a priority queue with one leaf per symbol that
 * occurs, then merge the two lightest trees until one tree is left.
 */
module HuffmanBuild {
  import opened Frequencies
  import opened HuffmanTree
  import opened PriorityQueues

  /** The cast `(char)i`: the low 16 bits of the index. */
  function Sym(i: nat): (c: CodeUnit)
    ensures i < 0x1_0000 ==> c as int == i
  {
    (i % 0x1_0000) as CodeUnit
  }

  /** The leaves the first loop of buildTree offers for the table `f`, in index order. */
  function Seed(f: seq<int>): seq<Tree>
  {
    if f == [] then []
    else Seed(f[..|f| - 1]) + (if f[|f| - 1] > 0 then [Leaf(f[|f| - 1], Sym(|f| - 1))] else [])
  }

  /** The indices of `f` with a positive count. */
  function Positives(f: seq<int>): set<nat>
  {
    set i: nat | i < |f| && f[i] > 0
  }

  /** Every seeded tree is the leaf of an index with a positive count. */
  lemma {:induction false} SeedSound(f: seq<int>)
    ensures forall t :: t in Seed(f) ==> exists i :: 0 <= i < |f| && f[i] > 0 && t == Leaf(f[i], Sym(i))
  {
    if f != [] {
      var f' := f[..|f| - 1];
      SeedSound(f');
      forall t | t in Seed(f)
        ensures exists i :: 0 <= i < |f| && f[i] > 0 && t == Leaf(f[i], Sym(i))
      {
        if t in Seed(f') {
          var i :| 0 <= i < |f'| && f'[i] > 0 && t == Leaf(f'[i], Sym(i));
          assert f[i] == f'[i];
        } else {
          assert t == Leaf(f[|f| - 1], Sym(|f| - 1));
        }
      }
    }
  }

  /** Every index with a positive count gets its leaf, with that count and symbol. */
  lemma {:induction false} SeedComplete(f: seq<int>)
    ensures forall i :: 0 <= i < |f| && f[i] > 0 ==> Leaf(f[i], Sym(i)) in Seed(f)
  {
    if f != [] {
      var f' := f[..|f| - 1];
      SeedComplete(f');
      forall i | 0 <= i < |f| && f[i] > 0 ensures Leaf(f[i], Sym(i)) in Seed(f) {
        if i < |f| - 1 {
          assert f[i] == f'[i];
          assert Leaf(f'[i], Sym(i)) in Seed(f');
        }
      }
    }
  }

  /** Index `i` contributes its leaf to the seed exactly when its count is positive. */
  lemma SeedStep(f: seq<int>, i: nat)
    requires i < |f|
    ensures Seed(f[..i + 1]) == Seed(f[..i]) + (if f[i] > 0 then [Leaf(f[i], Sym(i))] else [])
  {
    assert f[..i + 1][..i] == f[..i];
  }

  /** Indices without a positive count add nothing to the seed. */
  lemma {:induction false} SeedSkip(f: seq<int>, lo: nat, hi: nat)
    requires lo <= hi <= |f|
    requires forall i :: lo <= i < hi ==> f[i] <= 0
    ensures Seed(f[..hi]) == Seed(f[..lo])
    decreases hi - lo
  {
    if lo < hi {
      SeedSkip(f, lo, hi - 1);
      SeedStep(f, hi - 1);
      assert Seed(f[..hi]) == Seed(f[..hi - 1]) + [];
    }
  }

  /** Exactly one leaf is seeded per index with a positive count. */
  lemma {:induction false} SeedCount(f: seq<int>)
    ensures |Seed(f)| == |Positives(f)|
  {
    if f == [] {
      assert Positives(f) == {};
    } else {
      var n := |f| - 1;
      var f' := f[..n];
      SeedCount(f');
      assert n !in Positives(f');
      if f[n] > 0 {
        assert Positives(f) == Positives(f') + {n};
      } else {
        assert Positives(f) == Positives(f');
      }
    }
  }

  /** No leaf is seeded exactly when no count is positive. */
  lemma SeedEmpty(f: seq<int>)
    ensures Seed(f) == [] <==> forall i :: 0 <= i < |f| ==> f[i] <= 0
  {
    SeedComplete(f);
    if Seed(f) != [] {
      SeedSound(f);
      assert Seed(f)[0] in Seed(f);
    }
  }

  /**
   * The seeded leaves weigh as much as the whole table when no count is
   * negative: with counts from a text, the length of the counted text.
   */
  lemma {:induction false} SeedWeight(f: seq<int>)
    requires forall i :: 0 <= i < |f| ==> f[i] >= 0
    ensures SumWeights(Seed(f)) == Total(f)
  {
    if f != [] {
      var n := |f| - 1;
      SeedWeight(f[..n]);
      var extra: seq<Tree> := if f[n] > 0 then [Leaf(f[n], Sym(n))] else [];
      SumWeightsAppend(Seed(f[..n]), extra);
      assert extra != [] ==> extra[..0] == [];
    }
  }

  /** The seeded trees are leaves, so they are their own bag of leaves. */
  lemma SeedLeafBag(f: seq<int>)
    ensures LeafBag(Seed(f)) == multiset(Seed(f))
  {
    SeedAreLeaves(f);
    LeafBagOfLeaves(Seed(f));
  }

  /** Only leaves are seeded. */
  lemma {:induction false} SeedAreLeaves(f: seq<int>)
    ensures forall t :: t in Seed(f) ==> t.Leaf? && Ordered(t)
  {
    if f != [] {
      SeedAreLeaves(f[..|f| - 1]);
    }
  }

  /** A forest of one tree has that tree's leaves and weight. */
  lemma SingleForest(e: seq<Tree>, t: Tree)
    requires |e| == 1 && t in multiset(e)
    ensures LeafBag(e) == multiset(Leaves(t))
    ensures SumWeights(e) == Weight(t)
  {
    assert e == [t];
    LeafBagSingle(t);
    WeightIsLeafSum(t);
    assert e[..0] == [];
  }

  /** One merge of the loop: the first and second tree polled, and the trees left behind. */
  datatype Merge = Merge(first: Tree, second: Tree, rest: multiset<Tree>)

  /** A merge polled two lightest trees: the first no heavier than the second, both no heavier than the rest. */
  ghost predicate Greedy(m: Merge)
  {
    Weight(m.first) <= Weight(m.second) && forall u :: u in m.rest ==> Weight(m.second) <= Weight(u)
  }

  /**
   * The queue's contents went from `start` to `end` by the merges `ms`, in
   * order: before each merge the queue held its two polled trees and the
   * rest, and after it the rest and the node joining the two.
   */
  ghost predicate Replays(start: multiset<Tree>, ms: seq<Merge>, end: multiset<Tree>)
    decreases |ms|
  {
    if ms == [] then start == end
    else
      var m := ms[|ms| - 1];
      Replays(start, ms[..|ms| - 1], m.rest + multiset{m.first, m.second})
      && end == m.rest + multiset{Node(m.first, m.second)}
  }

  /** One more poll-poll-offer extends a replay by its merge. */
  lemma ReplaysStep(start: multiset<Tree>, ms: seq<Merge>, m: Merge)
    requires Replays(start, ms, m.rest + multiset{m.first, m.second})
    ensures Replays(start, ms + [m], m.rest + multiset{Node(m.first, m.second)})
  {
    assert (ms + [m])[..|ms|] == ms;
  }

  /** Each replayed merge takes two trees off the queue and puts one back. */
  lemma {:induction false} ReplaysShrink(start: multiset<Tree>, ms: seq<Merge>, end: multiset<Tree>)
    requires Replays(start, ms, end)
    ensures |end| + |ms| == |start|
    decreases |ms|
  {
    if ms != [] {
      var m := ms[|ms| - 1];
      ReplaysShrink(start, ms[..|ms| - 1], m.rest + multiset{m.first, m.second});
    }
  }

  /**
   * buildTree. The result is None (Java's null) exactly when no count is
   * positive: the `assert trees.size() > 0` is disabled by default and
   * `poll` on the empty queue yields null. Otherwise the tree holds exactly
   * the seeded leaves, weighs the total of the seeded counts and has every
   * left subtree no heavier than its sibling; `merges` records the loop's
   * merges, one fewer than there are leaves, each of two lightest trees,
   * and replaying them turns the seeded leaves into the one tree returned.
   */
  method BuildTree(freqs: array<int>) returns (tree: Option<Tree>, ghost merges: seq<Merge>)
    ensures tree == None <==> Seed(freqs[..]) == []
    ensures tree.Some? ==> multiset(Leaves(tree.value)) == multiset(Seed(freqs[..]))
    ensures tree.Some? ==> Weight(tree.value) == SumWeights(Seed(freqs[..]))
    ensures tree.Some? ==> Ordered(tree.value)
    ensures tree.Some? ==> |merges| == |Seed(freqs[..])| - 1
    ensures tree.Some? ==> Replays(multiset(Seed(freqs[..])), merges, multiset{tree.value})
    ensures tree == None ==> merges == []
    ensures forall m :: m in merges ==> Greedy(m)
  {
    var trees := SeedQueue(freqs);
    ghost var seed := trees.elems;
    SeedLeafBag(freqs[..]);
    SeedAreLeaves(freqs[..]);
    merges := MergeAll(trees);
    ghost var last := trees.elems;
    tree := trees.Poll();
    if tree.Some? {
      SingleForest(last, tree.value);
      assert multiset(last) == multiset{tree.value} by {
        assert |trees.elems| == 0;
      }
    }
  }

  /** The first loop of buildTree: a fresh queue holding the seeded leaves. */
  method SeedQueue(freqs: array<int>) returns (trees: TreeQueue)
    ensures fresh(trees)
    ensures trees.elems == Seed(freqs[..])
  {
    trees := new TreeQueue();
    for i := 0 to freqs.Length
      invariant trees.elems == Seed(freqs[..i])
    {
      assert freqs[..i + 1][..i] == freqs[..i];
      if freqs[i] > 0 {
        trees.Offer(Leaf(freqs[i], Sym(i)));
      }
    }
    assert freqs[..freqs.Length] == freqs[..];
  }

  /**
   * The merge loop of buildTree: while more than one tree is queued, poll
   * two and offer the node joining them. Afterwards at most one tree is
   * left (exactly one if any was queued), each merge shrank the queue by
   * one, and the leaves, the total weight and the ordering of the trees are
   * those of the queue before the loop. The log `merges` replays the loop:
   * it leads from the queue's contents before the loop to those after it,
   * one poll-poll-offer at a time.
   */
  method MergeAll(trees: TreeQueue) returns (ghost merges: seq<Merge>)
    requires forall t :: t in trees.elems ==> Ordered(t)
    modifies trees
    ensures |trees.elems| == if old(trees.elems) == [] then 0 else 1
    ensures |merges| == |old(trees.elems)| - |trees.elems|
    ensures LeafBag(trees.elems) == LeafBag(old(trees.elems))
    ensures SumWeights(trees.elems) == SumWeights(old(trees.elems))
    ensures forall t :: t in trees.elems ==> Ordered(t)
    ensures Replays(multiset(old(trees.elems)), merges, multiset(trees.elems))
    ensures forall m :: m in merges ==> Greedy(m)
  {
    merges := [];
    while trees.Size() > 1
      invariant LeafBag(trees.elems) == LeafBag(old(trees.elems))
      invariant SumWeights(trees.elems) == SumWeights(old(trees.elems))
      invariant forall t :: t in trees.elems ==> Ordered(t)
      invariant |trees.elems| + |merges| == |old(trees.elems)|
      invariant old(trees.elems) != [] ==> trees.elems != []
      invariant Replays(multiset(old(trees.elems)), merges, multiset(trees.elems))
      invariant forall m :: m in merges ==> Greedy(m)
      decreases trees.Size()
    {
      ghost var m := MergeStep(trees);
      ReplaysStep(multiset(old(trees.elems)), merges, m);
      merges := merges + [m];
    }
  }

  /**
   * One pass of the merge loop: poll `a`, poll `b`, offer Node(a, b). The
   * merge returned records the two trees and those left in the queue; the
   * queue's leaves, total weight and ordering are kept and it shrinks by one.
   */
  method MergeStep(trees: TreeQueue) returns (ghost m: Merge)
    requires |trees.elems| > 1
    requires forall t :: t in trees.elems ==> Ordered(t)
    modifies trees
    ensures multiset(old(trees.elems)) == m.rest + multiset{m.first, m.second}
    ensures multiset(trees.elems) == m.rest + multiset{Node(m.first, m.second)}
    ensures Greedy(m)
    ensures |trees.elems| == |old(trees.elems)| - 1
    ensures LeafBag(trees.elems) == LeafBag(old(trees.elems))
    ensures SumWeights(trees.elems) == SumWeights(old(trees.elems))
    ensures forall t :: t in trees.elems ==> Ordered(t)
  {
    ghost var e0 := trees.elems;
    var a := trees.Poll();
    ghost var e1 := trees.elems;
    var b := trees.Poll();
    ghost var e2 := trees.elems;
    Merged(e0, e1, e2, a.value, b.value);
    trees.Offer(Node(a.value, b.value));
    MergeKeepsForest(e0, e1, e2, a.value, b.value);
    m := Merge(a.value, b.value, multiset(e2));
  }

  /**
   * The facts one merge step needs: the two polled trees are lightest in the
   * order polled, ordered trees stay ordered, and the new node is ordered.
   */
  lemma Merged(e0: seq<Tree>, e1: seq<Tree>, e2: seq<Tree>, a: Tree, b: Tree)
    requires multiset(e0) == multiset(e1) + multiset{a}
    requires multiset(e1) == multiset(e2) + multiset{b}
    requires forall u :: u in e0 ==> Weight(a) <= Weight(u)
    requires forall u :: u in e1 ==> Weight(b) <= Weight(u)
    requires forall t :: t in e0 ==> Ordered(t)
    ensures Greedy(Merge(a, b, multiset(e2)))
    ensures forall t :: t in e2 + [Node(a, b)] ==> Ordered(t)
  {
    assert b in e0 by {
      assert b in multiset(e1);
      assert b in multiset(e0);
    }
    assert a in e0 by {
      assert a in multiset(e0);
    }
    forall t | t in e2 ensures t in e1 && t in e0 {
      assert t in multiset(e2);
      assert t in multiset(e1);
      assert t in multiset(e0);
    }
    assert Ordered(Node(a, b));
    forall t | t in e2 + [Node(a, b)] ensures Ordered(t) {
      if t != Node(a, b) {
        assert t in e2;
      }
    }
  }
}
