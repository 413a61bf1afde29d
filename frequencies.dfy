/**
 * Symbol counting shared by the two counting loops: the whole-text loop of
 * WorkerThread.processCommand and the per-partition loop of
 * Huffman.processCommand. A frequency table is the contents of a Java
 * `int[]`; a text is the sequence of UTF-16 code units of a Java `String`.
 */
module Frequencies {

  /** A Java `char`: one 16-bit UTF-16 code unit. */
  newtype CodeUnit = c: int | 0 <= c < 0x1_0000

  /** Number of positions of `s` that hold the code unit with value `k`. */
  function Occurrences(s: seq<CodeUnit>, k: int): (r: nat)
    ensures r <= |s|
  {
    if s == [] then 0
    else Occurrences(s[..|s| - 1], k) + (if s[|s| - 1] as int == k then 1 else 0)
  }

  /** The counts a table of `n` entries gains from counting every code unit of `s`. */
  function Tally(s: seq<CodeUnit>, n: nat): seq<int>
  {
    seq(n, k => Occurrences(s, k))
  }

  /** Entry-wise sum of two tables of the same size. */
  function Plus(a: seq<int>, b: seq<int>): seq<int>
    requires |a| == |b|
  {
    seq(|a|, k requires 0 <= k < |a| => a[k] + b[k])
  }

  /** A table of `n` zero entries, as `new int[n]` yields. */
  function Zeros(n: nat): seq<int>
  {
    seq(n, k => 0)
  }

  /** Sum of all entries of a table. */
  function Total(a: seq<int>): int
  {
    if a == [] then 0 else Total(a[..|a| - 1]) + a[|a| - 1]
  }

  /** Every code unit of `s` is a valid index into a table of `n` entries. */
  predicate AllBelow(s: seq<CodeUnit>, n: nat)
  {
    forall i :: 0 <= i < |s| ==> s[i] as int < n
  }

  /**
   * Length of the longest prefix of `s` that a table of `n` entries can
   * count: counting `s` into such a table throws at index `r` when `r < |s|`.
   */
  function CountedLength(s: seq<CodeUnit>, n: nat): (r: nat)
    ensures r <= |s|
  {
    if s == [] || s[0] as int >= n then 0 else 1 + CountedLength(s[1..], n)
  }

  /** The prefix of `s` that a table of `n` entries counts before an exception stops it. */
  function Counted(s: seq<CodeUnit>, n: nat): seq<CodeUnit>
  {
    s[..CountedLength(s, n)]
  }

  /**
   * CountedLength stops at the first code unit that is no valid index of the
   * table: every code unit before it is one, and the one at it (if any) is not.
   */
  lemma {:induction false} CountedLengthStops(s: seq<CodeUnit>, n: nat)
    ensures forall i :: 0 <= i < CountedLength(s, n) ==> s[i] as int < n
    ensures CountedLength(s, n) < |s| ==> s[CountedLength(s, n)] as int >= n
  {
    if s != [] && s[0] as int < n {
      CountedLengthStops(s[1..], n);
      forall i | 0 <= i < CountedLength(s, n) ensures s[i] as int < n {
        if i > 0 {
          assert s[i] == s[1..][i - 1];
        }
      }
    }
  }

  /** A text whose code units all fit the table is counted in full. */
  lemma CountedLengthAllBelow(s: seq<CodeUnit>, n: nat)
    ensures CountedLength(s, n) == |s| <==> AllBelow(s, n)
  {
    CountedLengthStops(s, n);
    if !AllBelow(s, n) {
      var i :| 0 <= i < |s| && s[i] as int >= n;
      assert CountedLength(s, n) <= i;
    }
  }

  /** Counting one more code unit `c` adds one to entry `c` and to nothing else. */
  lemma TallySnoc(s: seq<CodeUnit>, c: CodeUnit, n: nat)
    requires (c as int) < n
    ensures Tally(s + [c], n) == Tally(s, n)[c as int := Tally(s, n)[c as int] + 1]
  {
    forall k | 0 <= k < n {
      OccurrencesSnoc(s, c, k);
    }
  }

  /** Appending one code unit adds one occurrence of it and of nothing else. */
  lemma OccurrencesSnoc(s: seq<CodeUnit>, c: CodeUnit, k: int)
    ensures Occurrences(s + [c], k) == Occurrences(s, k) + (if c as int == k then 1 else 0)
  {
    assert (s + [c])[..|s + [c]| - 1] == s;
  }

  /** Counting a concatenation equals counting each part: the occurrences add up. */
  lemma {:induction false} OccurrencesAppend(s: seq<CodeUnit>, t: seq<CodeUnit>, k: int)
    ensures Occurrences(s + t, k) == Occurrences(s, k) + Occurrences(t, k)
    decreases |t|
  {
    if t == [] {
      assert s + t == s;
    } else {
      var t' := t[..|t| - 1];
      assert (s + t)[..|s + t| - 1] == s + t';
      OccurrencesAppend(s, t', k);
    }
  }

  /** Occurrences agrees with the multiplicity of the code unit in the text's multiset. */
  lemma {:induction false} OccurrencesMultiset(s: seq<CodeUnit>, c: CodeUnit)
    ensures Occurrences(s, c as int) == multiset(s)[c]
    decreases |s|
  {
    if s != [] {
      var s' := s[..|s| - 1];
      assert s == s' + [s[|s| - 1]];
      OccurrencesMultiset(s', c);
    }
  }

  /** The table-level form of OccurrencesAppend. */
  lemma TallyAppend(s: seq<CodeUnit>, t: seq<CodeUnit>, n: nat)
    ensures Tally(s + t, n) == Plus(Tally(s, n), Tally(t, n))
  {
    forall k | 0 <= k < n
      ensures Tally(s + t, n)[k] == Plus(Tally(s, n), Tally(t, n))[k]
    {
      OccurrencesAppend(s, t, k);
    }
  }

  /** Adding one to one entry adds one to the total. */
  lemma {:induction false} TotalIncrement(a: seq<int>, i: nat)
    requires i < |a|
    ensures Total(a[i := a[i] + 1]) == Total(a) + 1
    decreases |a|
  {
    var b := a[i := a[i] + 1];
    assert b[..|b| - 1] == if i == |a| - 1 then a[..|a| - 1] else a[..|a| - 1][i := a[i] + 1];
    if i < |a| - 1 {
      TotalIncrement(a[..|a| - 1], i);
    }
  }

  /** The total of an entry-wise sum is the sum of the totals. */
  lemma {:induction false} TotalPlus(a: seq<int>, b: seq<int>)
    requires |a| == |b|
    ensures Total(Plus(a, b)) == Total(a) + Total(b)
    decreases |a|
  {
    if a != [] {
      var m := |a| - 1;
      assert Plus(a, b)[..m] == Plus(a[..m], b[..m]);
      TotalPlus(a[..m], b[..m]);
    }
  }

  /**
   * When every code unit of `s` fits the table, the counts gained over all
   * entries add up to the length of `s`: each code unit is counted once.
   */
  lemma {:induction false} TallyTotal(s: seq<CodeUnit>, n: nat)
    requires AllBelow(s, n)
    ensures Total(Tally(s, n)) == |s|
    decreases |s|
  {
    if s == [] {
      ZerosTotal(n);
      assert Tally(s, n) == Zeros(n);
    } else {
      var s', c := s[..|s| - 1], s[|s| - 1];
      assert s == s' + [c];
      TallyTotal(s', n);
      TallySnoc(s', c, n);
      TotalIncrement(Tally(s', n), c as int);
    }
  }

  /** A fresh table sums to zero. */
  lemma {:induction false} ZerosTotal(n: nat)
    ensures Total(Zeros(n)) == 0
  {
    if n > 0 {
      assert Zeros(n)[..n - 1] == Zeros(n - 1);
      ZerosTotal(n - 1);
    }
  }
}
