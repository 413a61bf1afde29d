/**
 * The partitioned counting of Huffman.processCommand: worker `w` of
 * `splitter` workers (1-based) counts the code units of the index range
 * [Lower, Upper) of the text into the shared frequency array. The workers
 * run concurrently in the program; here they run one after another.
 */
module Partition {
  import opened Frequencies

  /**
   * `len / splitter`: the number of indices each worker but the last is
   * given; `splitter` such shares fit in `len`, one more would not.
   */
  function Limit(len: nat, splitter: nat): (limit: nat)
    requires 1 <= splitter
    ensures limit * splitter <= len < limit * splitter + splitter
  {
    len / splitter
  }

  /**
   * `k * limit` as repeated addition: the proofs about the bounds go
   * through it to avoid non-linear arithmetic.
   */
  function Times(k: nat, limit: nat): nat
  {
    if k == 0 then 0 else Times(k - 1, limit) + limit
  }

  lemma {:induction false} TimesIsProduct(k: nat, limit: nat)
    ensures Times(k, limit) == k * limit
  {
    if k > 0 {
      TimesIsProduct(k - 1, limit);
    }
  }

  /** `(w - 1) * limit`: the first index of worker `w`. */
  function Lower(len: nat, splitter: nat, w: nat): (lo: nat)
    requires 1 <= w <= splitter
    ensures lo <= len
  {
    TimesBound(w - 1, len, splitter);
    TimesIsProduct(w - 1, Limit(len, splitter));
    (w - 1) * Limit(len, splitter)
  }

  /** `w * limit`, or `len` for the last worker: one past the last index of worker `w`. */
  function Upper(len: nat, splitter: nat, w: nat): (hi: nat)
    requires 1 <= w <= splitter
    ensures Lower(len, splitter, w) <= hi <= len
  {
    TimesBound(w, len, splitter);
    TimesIsProduct(w, Limit(len, splitter));
    TimesIsProduct(w - 1, Limit(len, splitter));
    if w == splitter then len else w * Limit(len, splitter)
  }

  /** The bounds of worker `w` as repeated additions of `limit`. */
  lemma BoundsAsTimes(len: nat, splitter: nat, w: nat)
    requires 1 <= w <= splitter
    ensures Lower(len, splitter, w) == Times(w - 1, Limit(len, splitter))
    ensures w < splitter ==> Upper(len, splitter, w) == Times(w, Limit(len, splitter))
  {
    TimesIsProduct(w - 1, Limit(len, splitter));
    TimesIsProduct(w, Limit(len, splitter));
  }

  /** `a` whole shares of `len / splitter` fit in `len` when `a <= splitter`. */
  lemma TimesBound(a: nat, len: nat, splitter: nat)
    requires 1 <= splitter && a <= splitter
    ensures Times(a, Limit(len, splitter)) <= len
  {
    TimesMonotone(a, splitter, Limit(len, splitter));
    LimitShares(len, splitter);
  }

  /** The `splitter` shares of `len / splitter` fit in `len`. */
  lemma LimitShares(len: nat, splitter: nat)
    requires 1 <= splitter
    ensures Times(splitter, Limit(len, splitter)) <= len
  {
    TimesIsProduct(splitter, len / splitter);
    DivFloor(len, splitter);
  }

  lemma DivFloor(x: nat, d: nat)
    requires 1 <= d
    ensures (x / d) * d <= x < (x / d) * d + d
  {
  }

  lemma {:induction false} TimesMonotone(a: nat, b: nat, c: nat)
    requires a <= b
    ensures Times(a, c) <= Times(b, c)
    decreases b
  {
    if a < b {
      TimesMonotone(a, b - 1, c);
    }
  }

  /**
   * The worker whose range holds index `i`: `i / limit + 1`, capped at the
   * last worker, who also takes the remainder of the division.
   */
  function Owner(len: nat, splitter: nat, i: nat): (w: nat)
    requires 1 <= splitter && i < len
    ensures 1 <= w <= splitter
    ensures Lower(len, splitter, w) <= i < Upper(len, splitter, w)
  {
    var limit := Limit(len, splitter);
    if limit == 0 then BoundsAsTimes(len, splitter, splitter); splitter
    else
      var q := i / limit;
      OwnerInRange(len, splitter, i, q);
      if q + 1 >= splitter then BoundsAsTimes(len, splitter, splitter); splitter
      else BoundsAsTimes(len, splitter, q + 1); q + 1
  }

  lemma OwnerInRange(len: nat, splitter: nat, i: nat, q: nat)
    requires 1 <= splitter && i < len && Limit(len, splitter) > 0 && q == i / Limit(len, splitter)
    ensures Times(q, Limit(len, splitter)) <= i < Times(q + 1, Limit(len, splitter))
    ensures q + 1 >= splitter ==> Times(splitter - 1, Limit(len, splitter)) <= i
  {
    var limit := Limit(len, splitter);
    TimesIsProduct(q, limit);
    DivFloor(i, limit);
    if q + 1 >= splitter {
      TimesMonotone(splitter - 1, q, limit);
    }
  }

  /** Ranges of different workers do not overlap: a lower worker's range ends before a higher one's starts. */
  lemma PartitionsOrdered(len: nat, splitter: nat, w1: nat, w2: nat)
    requires 1 <= w1 < w2 <= splitter
    ensures Upper(len, splitter, w1) <= Lower(len, splitter, w2)
  {
    BoundsAsTimes(len, splitter, w1);
    BoundsAsTimes(len, splitter, w2);
    TimesMonotone(w1, w2 - 1, Limit(len, splitter));
  }

  /**
   * The ranges of workers 1..splitter tile [0, len): every index lies in the
   * range of exactly one worker, the Owner.
   */
  lemma PartitionsTile(len: nat, splitter: nat, i: nat)
    requires 1 <= splitter && i < len
    ensures forall w :: 1 <= w <= splitter ==>
      (Lower(len, splitter, w) <= i < Upper(len, splitter, w) <==> w == Owner(len, splitter, i))
  {
    var o := Owner(len, splitter, i);
    forall w | 1 <= w <= splitter && w != o
      ensures !(Lower(len, splitter, w) <= i < Upper(len, splitter, w))
    {
      if w < o {
        PartitionsOrdered(len, splitter, w, o);
      } else {
        PartitionsOrdered(len, splitter, o, w);
      }
    }
  }

  /** Consecutive ranges meet: worker 1 starts at 0, worker `w + 1` starts where `w` ends, the last ends at `len`. */
  lemma PartitionsAdjacent(len: nat, splitter: nat, w: nat)
    requires 1 <= w <= splitter
    ensures Lower(len, splitter, 1) == 0
    ensures w < splitter ==> Upper(len, splitter, w) == Lower(len, splitter, w + 1)
    ensures Upper(len, splitter, splitter) == len
  {
  }

  /** The part of worker `w`'s range that it counts before a code unit that is no valid index stops it. */
  function WorkerCounted(text: seq<CodeUnit>, splitter: nat, w: nat, n: nat): seq<CodeUnit>
    requires 1 <= w <= splitter
  {
    Counted(text[Lower(|text|, splitter, w)..Upper(|text|, splitter, w)], n)
  }

  /**
   * The range computation at the head of Huffman.processCommand: with
   * `limit = wordLen / splitter`, worker `which` starts at
   * `(which - 1) * limit` and stops before `which * limit`, or before
   * `wordLen` when it is the last worker.
   */
  method WorkerRange(wordLen: nat, splitter: nat, which: nat) returns (start: nat, upperBound: nat)
    requires 1 <= which <= splitter
    ensures start == Lower(wordLen, splitter, which) && upperBound == Upper(wordLen, splitter, which)
    ensures start <= upperBound <= wordLen
  {
    var limit := wordLen / splitter;
    assert limit == Limit(wordLen, splitter);
    upperBound := which * limit;
    if splitter == which {
      upperBound := wordLen;
    }
    start := (which - 1) * limit;
    assert start == Lower(wordLen, splitter, which);
  }

  /**
   * Huffman.processCommand, counting part: worker `which` of `splitter`
   * computes its range and counts it into the shared array.
   */
  method ProcessCommand(freqs: array<int>, text: seq<CodeUnit>, splitter: nat, which: nat)
    requires 1 <= which <= splitter
    modifies freqs
    ensures forall k :: 0 <= k < freqs.Length ==>
      freqs[k] == old(freqs[k]) + Occurrences(WorkerCounted(text, splitter, which, freqs.Length), k)
  {
    var start, upperBound := WorkerRange(|text|, splitter, which);
    CountRange(freqs, text, start, upperBound);
  }

  /**
   * The counting loop of Huffman.processCommand: increments `freqs[c]` for
   * each code unit `c` at an index in [lo, hi). A code unit that is no valid
   * index throws ArrayIndexOutOfBoundsException, caught outside the loop:
   * counting stops there and the increments already made stay.
   */
  method CountRange(freqs: array<int>, text: seq<CodeUnit>, lo: nat, hi: nat)
    requires lo <= hi <= |text|
    modifies freqs
    ensures forall k :: 0 <= k < freqs.Length ==>
      freqs[k] == old(freqs[k]) + Occurrences(Counted(text[lo..hi], freqs.Length), k)
  {
    ghost var n := freqs.Length;
    ghost var segment := text[lo..hi];
    CountedLengthStops(segment, n);
    ghost var done: seq<CodeUnit> := [];
    var index := lo;
    while index < hi
      invariant lo <= index <= lo + CountedLength(segment, n)
      invariant done == segment[..index - lo]
      invariant forall k :: 0 <= k < n ==> freqs[k] == old(freqs[k]) + Occurrences(done, k)
    {
      var c := text[index];
      assert segment[index - lo] == c;
      if c as int >= freqs.Length {
        // the out-of-bounds exception leaves the loop
        break;
      }
      forall k | 0 <= k < n {
        OccurrencesSnoc(done, c, k);
      }
      freqs[c] := freqs[c] + 1;
      done := done + [c];
      index := index + 1;
    }
  }

  /** How often workers 1..w together count code unit `k`. */
  function WorkersCount(text: seq<CodeUnit>, splitter: nat, w: nat, n: nat, k: int): nat
    requires w <= splitter
  {
    if w == 0 then 0
    else WorkersCount(text, splitter, w - 1, n, k) + Occurrences(WorkerCounted(text, splitter, w, n), k)
  }

  /**
   * The workers of main, run one after another instead of concurrently on
   * a thread pool: worker w = 1..splitter counts its range into the shared
   * array, so each entry grows by the sum of the workers' counts.
   */
  method CountAllWorkers(freqs: array<int>, text: seq<CodeUnit>, splitter: nat)
    requires 1 <= splitter
    modifies freqs
    ensures forall k :: 0 <= k < freqs.Length ==>
      freqs[k] == old(freqs[k]) + WorkersCount(text, splitter, splitter, freqs.Length, k)
  {
    assert forall k :: WorkersCount(text, splitter, 0, freqs.Length, k) == 0;
    for w := 1 to splitter + 1
      invariant forall k :: 0 <= k < freqs.Length ==>
        freqs[k] == old(freqs[k]) + WorkersCount(text, splitter, w - 1, freqs.Length, k)
    {
      ghost var before := freqs[..];
      ProcessCommand(freqs, text, splitter, w);
      forall k | 0 <= k < freqs.Length
        ensures freqs[k] == old(freqs[k]) + WorkersCount(text, splitter, w, freqs.Length, k)
      {
        assert freqs[k] == before[k] + Occurrences(WorkerCounted(text, splitter, w, freqs.Length), k);
      }
    }
  }

  /**
   * When every code unit of the text is a valid index, workers 1..w together
   * count exactly the text up to the end of worker w's range.
   */
  lemma {:induction false} WorkersCountPrefix(text: seq<CodeUnit>, splitter: nat, w: nat, n: nat, k: int)
    requires 1 <= w <= splitter && AllBelow(text, n)
    ensures WorkersCount(text, splitter, w, n, k) == Occurrences(text[..Upper(|text|, splitter, w)], k)
    decreases w, 1
  {
    var lo, hi := Lower(|text|, splitter, w), Upper(|text|, splitter, w);
    OccurrencesRange(text, lo, hi, n, k);
    WorkersBefore(text, splitter, w, n, k);
    assert WorkerCounted(text, splitter, w, n) == text[lo..hi];
    assert WorkersCount(text, splitter, w, n, k)
      == WorkersCount(text, splitter, w - 1, n, k) + Occurrences(text[lo..hi], k);
  }

  /** Workers before `w` together count exactly the text up to the start of worker w's range. */
  lemma {:induction false} WorkersBefore(text: seq<CodeUnit>, splitter: nat, w: nat, n: nat, k: int)
    requires 1 <= w <= splitter && AllBelow(text, n)
    ensures WorkersCount(text, splitter, w - 1, n, k) == Occurrences(text[..Lower(|text|, splitter, w)], k)
    decreases w, 0
  {
    if w == 1 {
      PartitionsAdjacent(|text|, splitter, 1);
      assert text[..Lower(|text|, splitter, w)] == [];
    } else {
      PartitionsAdjacent(|text|, splitter, w - 1);
      WorkersCountPrefix(text, splitter, w - 1, n, k);
    }
  }

  /** Counting up to `hi` is counting up to `lo` and then the whole range [lo, hi). */
  lemma OccurrencesRange(text: seq<CodeUnit>, lo: nat, hi: nat, n: nat, k: int)
    requires lo <= hi <= |text| && AllBelow(text, n)
    ensures Counted(text[lo..hi], n) == text[lo..hi]
    ensures Occurrences(text[..hi], k) == Occurrences(text[..lo], k) + Occurrences(text[lo..hi], k)
  {
    var segment := text[lo..hi];
    assert AllBelow(segment, n) by {
      forall i | 0 <= i < |segment| ensures segment[i] as int < n {
        assert segment[i] == text[lo + i];
      }
    }
    CountedLengthAllBelow(segment, n);
    assert text[..hi] == text[..lo] + segment;
    OccurrencesAppend(text[..lo], segment, k);
  }

  /**
   * Partitioned counting equals counting the whole text once, whatever the
   * number of workers: when every code unit is a valid index, workers
   * 1..splitter together count each code unit as often as it occurs in the
   * text, and the counts over the table add up to the text's length.
   */
  lemma WorkersCountWholeText(text: seq<CodeUnit>, splitter: nat, n: nat)
    requires 1 <= splitter && AllBelow(text, n)
    ensures forall k :: WorkersCount(text, splitter, splitter, n, k) == Occurrences(text, k)
    ensures Total(seq(n, k => WorkersCount(text, splitter, splitter, n, k))) == |text|
  {
    assert text[..|text|] == text;
    forall k ensures WorkersCount(text, splitter, splitter, n, k) == Occurrences(text, k) {
      WorkersCountPrefix(text, splitter, splitter, n, k);
    }
    assert seq(n, k => WorkersCount(text, splitter, splitter, n, k)) == Tally(text, n);
    TallyTotal(text, n);
  }
}
