/**
 * WorkerThread.java, the single-threaded baseline: count every code unit of
 * a text into a frequency array in place, build the Huffman tree of the
 * counts and list its code table.
 */
module WorkerThread {
  import opened Frequencies
  import opened HuffmanTree
  import opened PriorityQueues
  import opened HuffmanBuild
  import opened HuffmanCodes

  /**
   * WorkerThread.processCommand: increments `freqs[c]` for each code unit `c`
   * of `test`, in order, and returns the same array. A code unit that is not
   * a valid index throws ArrayIndexOutOfBoundsException; the handler sits
   * outside the loop, so counting stops there and the increments already
   * made stay in place.
   */
  method ProcessCommand(freqs: array<int>, test: seq<CodeUnit>) returns (r: array<int>)
    modifies freqs
    ensures r == freqs
    ensures freqs[..] == Plus(old(freqs[..]), Tally(test[..CountedLength(test, freqs.Length)], freqs.Length))
    ensures Total(freqs[..]) == Total(old(freqs[..])) + CountedLength(test, freqs.Length)
  {
    ghost var n := freqs.Length;
    CountedLengthStops(test, n);
    var i := 0;
    while i < |test|
      invariant 0 <= i <= CountedLength(test, n)
      invariant freqs[..] == Plus(old(freqs[..]), Tally(test[..i], n))
    {
      var c := test[i];
      if c as int >= freqs.Length {
        // the out-of-bounds exception leaves the loop
        break;
      }
      assert test[..i + 1] == test[..i] + [c];
      TallySnoc(test[..i], c, n);
      freqs[c] := freqs[c] + 1;
      i := i + 1;
    }
    ghost var counted := test[..CountedLength(test, n)];
    assert i == CountedLength(test, n);
    CountedLengthAllBelow(counted, n);
    TallyTotal(counted, n);
    TotalPlus(old(freqs[..]), Tally(counted, n));
    r := freqs;
  }

  /** The code units of "ABRACADABRA", the text WorkerThread.run counts. */
  const Abracadabra: seq<CodeUnit> := [65, 66, 82, 65, 67, 65, 68, 65, 66, 82, 65]

  /** The expected count of code unit `k` in "ABRACADABRA": A=5, B=2, R=2, C=1, D=1, others 0. */
  function AbracadabraCount(k: int): nat
  {
    if k == 65 then 5 else if k == 66 || k == 82 then 2 else if k == 67 || k == 68 then 1 else 0
  }

  /** Counting "ABRACADABRA" gives AbracadabraCount for every code unit. */
  lemma AbracadabraOccurrences(k: int)
    ensures Occurrences(Abracadabra, k) == AbracadabraCount(k)
  {
    var s: seq<CodeUnit> := [];
    OccurrencesSnoc(s, 65, k); s := s + [65];
    OccurrencesSnoc(s, 66, k); s := s + [66];
    OccurrencesSnoc(s, 82, k); s := s + [82];
    OccurrencesSnoc(s, 65, k); s := s + [65];
    OccurrencesSnoc(s, 67, k); s := s + [67];
    OccurrencesSnoc(s, 65, k); s := s + [65];
    OccurrencesSnoc(s, 68, k); s := s + [68];
    OccurrencesSnoc(s, 65, k); s := s + [65];
    OccurrencesSnoc(s, 66, k); s := s + [66];
    OccurrencesSnoc(s, 82, k); s := s + [82];
    OccurrencesSnoc(s, 65, k); s := s + [65];
    assert s == Abracadabra;
  }

  /**
   * The counting half of WorkerThread.run: a fresh 256-entry array counted
   * over `test` holds, at every index, the number of occurrences of that
   * code unit in the part of `test` counted before any code unit >= 256;
   * when all code units are below 256, in the whole of `test`.
   */
  method CountFresh(test: seq<CodeUnit>) returns (freqs: array<int>)
    ensures freqs.Length == 256
    ensures forall k :: 0 <= k < 256 ==> freqs[k] == Occurrences(test[..CountedLength(test, 256)], k)
    ensures AllBelow(test, 256) ==> forall k :: 0 <= k < 256 ==> freqs[k] == Occurrences(test, k)
  {
    var table := new int[256](k => 0);
    CountedLengthAllBelow(test, 256);
    assert AllBelow(test, 256) ==> test[..CountedLength(test, 256)] == test;
    freqs := ProcessCommand(table, test);
    assert forall k :: 0 <= k < 256 ==> freqs[k] == freqs[..][k];
  }

  /** WorkerThread.run counts "ABRACADABRA": A=5, B=2, R=2, C=1, D=1 and zero elsewhere. */
  method CountAbracadabra() returns (freqs: array<int>)
    ensures freqs.Length == 256
    ensures forall k :: 0 <= k < 256 ==> freqs[k] == AbracadabraCount(k)
  {
    assert AllBelow(Abracadabra, 256);
    freqs := CountFresh(Abracadabra);
    forall k | 0 <= k < 256 ensures freqs[k] == AbracadabraCount(k) {
      AbracadabraOccurrences(k);
    }
  }

  /**
   * buildTree followed by printCodes(tree, new StringBuffer()): the lines
   * printed for a count table. They are one per seeded leaf and form a
   * prefix code; a lone symbol gets the empty code, and with two or more
   * symbols every code is non-empty. With no positive count buildTree
   * yields null and printCodes(null) prints nothing.
   */
  method BuildAndPrint(freqs: array<int>) returns (records: seq<CodeRecord>)
    ensures multiset(RecordLeaves(records)) == multiset(Seed(freqs[..]))
    ensures PrefixFree(records)
    ensures |records| == 1 ==> records[0].code == []
    ensures |records| > 1 ==> forall i :: 0 <= i < |records| ==> records[i].code != []
  {
    var tree;
    ghost var merges;
    tree, merges := BuildTree(freqs);
    match tree
    case None =>
      records := [];
    case Some(t) =>
      var prefix := new StringBuffer();
      records := PrintCodes(t, prefix);
      FreshPrefixTable(t);
  }

  /** The leaves seeded for the "ABRACADABRA" counts, in index order. */
  lemma AbracadabraSeed(f: seq<int>)
    requires |f| == 256 && forall k :: 0 <= k < 256 ==> f[k] == AbracadabraCount(k)
    ensures Seed(f) == [Leaf(5, 65), Leaf(2, 66), Leaf(1, 67), Leaf(1, 68), Leaf(2, 82)]
  {
    AbracadabraSeedABCD(f);
    SeedSkip(f, 69, 82);
    SeedLetter(f, 82, [Leaf(5, 65), Leaf(2, 66), Leaf(1, 67), Leaf(1, 68)]);
    SeedSkip(f, 83, 256);
    assert f[..256] == f;
  }

  /** The seed up to and including 'D' (68): the leaves of A, B, C and D. */
  lemma AbracadabraSeedABCD(f: seq<int>)
    requires |f| == 256 && forall k :: 0 <= k < 256 ==> f[k] == AbracadabraCount(k)
    ensures Seed(f[..69]) == [Leaf(5, 65), Leaf(2, 66), Leaf(1, 67), Leaf(1, 68)]
  {
    SeedSkip(f, 0, 65);
    assert f[..0] == [];
    SeedLetter(f, 65, []);
    SeedLetter(f, 66, [Leaf(5, 65)]);
    SeedLetter(f, 67, [Leaf(5, 65), Leaf(2, 66)]);
    SeedLetter(f, 68, [Leaf(5, 65), Leaf(2, 66), Leaf(1, 67)]);
  }

  /** One letter of "ABRACADABRA" adds its leaf to the seed. */
  lemma SeedLetter(f: seq<int>, k: nat, before: seq<Tree>)
    requires k < |f| && k < 0x1_0000 && f[k] > 0 && Seed(f[..k]) == before
    ensures Seed(f[..k + 1]) == before + [Leaf(f[k], k as CodeUnit)]
  {
    SeedStep(f, k);
  }

  /**
   * WorkerThread.run: counts "ABRACADABRA", builds the tree and prints its
   * code table: five lines, one per letter with its count, forming a
   * prefix code in which every code is non-empty.
   */
  method Run() returns (records: seq<CodeRecord>)
    ensures multiset(RecordLeaves(records)) == multiset{Leaf(5, 65), Leaf(2, 66), Leaf(1, 67), Leaf(1, 68), Leaf(2, 82)}
    ensures |records| == 5
    ensures PrefixFree(records)
    ensures forall i :: 0 <= i < |records| ==> records[i].code != []
  {
    var freqs := CountAbracadabra();
    AbracadabraSeed(freqs[..]);
    records := BuildAndPrint(freqs);
    assert |RecordLeaves(records)| == |multiset(RecordLeaves(records))| == 5;
  }
}
