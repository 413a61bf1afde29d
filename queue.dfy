/**
 * The java.util.PriorityQueue<HuffmanTree> of buildTree, with the operations
 * buildTree uses. The queue is a min-queue on Weight; which of several
 * equally light trees `poll` returns is left open, as the library's heap
 * order and HuffmanTree.compareTo decide it.
 */
module PriorityQueues {
  import opened HuffmanTree

  /** `poll` returns null on an empty queue. */
  datatype Option<T> = None | Some(value: T)

  class TreeQueue {
    /**
     * The trees in the queue, kept in offer order; the heap layout of
     * java.util.PriorityQueue is not modelled, and only the multiset of
     * trees is observable through Size and Poll.
     */
    var elems: seq<Tree>

    /** The queue's contents as a bag of trees. */
    ghost function Contents(): multiset<Tree>
      reads this
    {
      multiset(elems)
    }

    /** new PriorityQueue<HuffmanTree>(): an empty queue. */
    constructor ()
      ensures Contents() == multiset{}
      ensures elems == []
    {
      elems := [];
    }

    /** size(): how many trees the queue holds. */
    function Size(): (n: nat)
      reads this
      ensures n == |Contents()|
    {
      |elems|
    }

    /** offer(t): adds `t`, keeping everything already queued. */
    method Offer(t: Tree)
      modifies this
      ensures Contents() == old(Contents()) + multiset{t}
      ensures elems == old(elems) + [t]
    {
      elems := elems + [t];
    }

    /**
     * poll(): on an empty queue, null and no change; otherwise removes and
     * returns one tree that weighs no more than any tree in the queue.
     */
    method Poll() returns (r: Option<Tree>)
      modifies this
      ensures old(elems) == [] ==> r == None && elems == []
      ensures old(elems) != [] ==> r.Some? && r.value in old(Contents())
      ensures r.Some? ==> forall u :: u in old(elems) ==> Weight(r.value) <= Weight(u)
      ensures r.Some? ==> old(Contents()) == Contents() + multiset{r.value}
    {
      if elems == [] {
        return None;
      }
      var m := 0;
      var i := 1;
      while i < |elems|
        invariant 1 <= i <= |elems| && 0 <= m < |elems|
        invariant forall j :: 0 <= j < i ==> Weight(elems[m]) <= Weight(elems[j])
      {
        if Weight(elems[i]) < Weight(elems[m]) {
          m := i;
        }
        i := i + 1;
      }
      r := Some(elems[m]);
      assert elems == elems[..m] + [elems[m]] + elems[m + 1..];
      elems := elems[..m] + elems[m + 1..];
    }
  }
}
