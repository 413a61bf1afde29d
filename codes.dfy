/**
 * Huffman.printCodes: a depth-first walk that extends a shared StringBuffer
 * with '0' before the left subtree and '1' before the right one, and takes
 * the character off again afterwards. Each leaf yields one line: its symbol,
 * its frequency and the buffer's contents. The model returns those lines as
 * records instead of printing them.
 */
module HuffmanCodes {
  import opened Frequencies
  import opened HuffmanTree
  import opened PriorityQueues

  /** The java.lang.StringBuffer operations printCodes uses. */
  class StringBuffer {
    var chars: seq<char>

    /** new StringBuffer(): empty. */
    constructor ()
      ensures chars == []
    {
      chars := [];
    }

    /** length(): the number of buffered characters. */
    function Length(): (n: nat)
      reads this
      ensures n == |chars|
    {
      |chars|
    }

    /** append(c): adds `c` at the end. */
    method Append(c: char)
      modifies this
      ensures chars == old(chars) + [c]
    {
      chars := chars + [c];
    }

    /**
     * deleteCharAt(i): removes the character at `i`; Java throws
     * StringIndexOutOfBoundsException unless 0 <= i < length().
     */
    method DeleteCharAt(i: nat)
      requires i < |chars|
      modifies this
      ensures chars == old(chars)[..i] + old(chars)[i + 1..]
    {
      chars := chars[..i] + chars[i + 1..];
    }
  }

  /** One printed line: `value + "\t" + frequency + "\t" + prefix`. */
  datatype CodeRecord = CodeRecord(value: CodeUnit, frequency: nat, code: seq<char>)

  /** The lines printCodes(t, prefix) prints, in order. */
  function CodeTable(t: Tree, prefix: seq<char>): seq<CodeRecord>
  {
    match t
    case Leaf(f, v) => [CodeRecord(v, f, prefix)]
    case Node(l, r) => CodeTable(l, prefix + ['0']) + CodeTable(r, prefix + ['1'])
  }

  /**
   * printCodes(tree, prefix): returns the lines it prints and leaves the
   * buffer as it found it.
   */
  method PrintCodes(tree: Tree, prefix: StringBuffer) returns (records: seq<CodeRecord>)
    modifies prefix
    ensures prefix.chars == old(prefix.chars)
    ensures records == CodeTable(tree, old(prefix.chars))
    decreases tree
  {
    match tree
    case Leaf(frequency, value) =>
      records := [CodeRecord(value, frequency, prefix.chars)];
    case Node(left, right) =>
      ghost var start := prefix.chars;
      prefix.Append('0');
      var lefts := PrintCodes(left, prefix);
      prefix.DeleteCharAt(prefix.Length() - 1);
      assert prefix.chars == (start + ['0'])[..|start|] == start;
      prefix.Append('1');
      var rights := PrintCodes(right, prefix);
      prefix.DeleteCharAt(prefix.Length() - 1);
      assert prefix.chars == (start + ['1'])[..|start|] == start;
      records := lefts + rights;
  }

  /** The subtree reached from the root of `t` by following `bits`: '0' left, '1' right. */
  function Follow(t: Tree, bits: seq<char>): Option<Tree>
  {
    if bits == [] then Some(t)
    else match t
      case Leaf(_, _) => None
      case Node(l, r) =>
        if bits[0] == '0' then Follow(l, bits[1..])
        else if bits[0] == '1' then Follow(r, bits[1..])
        else None
  }

  /** Every code extends the starting prefix. */
  predicate AllExtend(records: seq<CodeRecord>, prefix: seq<char>)
  {
    forall i :: 0 <= i < |records| ==> prefix <= records[i].code
  }

  /** No code is a prefix of another line's code. */
  predicate PrefixFree(records: seq<CodeRecord>)
  {
    forall i, j :: 0 <= i < |records| && 0 <= j < |records| && i != j ==> !(records[i].code <= records[j].code)
  }

  /** The lines read back as leaves: symbol and frequency of each line. */
  function RecordLeaves(records: seq<CodeRecord>): seq<Tree>
  {
    seq(|records|, i requires 0 <= i < |records| => Leaf(records[i].frequency, records[i].value))
  }

  /**
   * One line per leaf, in left-to-right order: line `i` carries the symbol
   * and frequency of leaf `i`.
   */
  lemma {:induction false} CodeTableLeaves(t: Tree, prefix: seq<char>)
    ensures RecordLeaves(CodeTable(t, prefix)) == Leaves(t)
  {
    match t
    case Leaf(_, _) =>
    case Node(l, r) =>
      var lefts, rights := CodeTable(l, prefix + ['0']), CodeTable(r, prefix + ['1']);
      CodeTableLeaves(l, prefix + ['0']);
      CodeTableLeaves(r, prefix + ['1']);
      assert RecordLeaves(lefts + rights) == RecordLeaves(lefts) + RecordLeaves(rights);
  }

  /** Every code starts with the prefix printCodes was called with. */
  lemma {:induction false} CodeTableExtends(t: Tree, prefix: seq<char>)
    ensures AllExtend(CodeTable(t, prefix), prefix)
  {
    match t
    case Leaf(_, _) =>
    case Node(l, r) =>
      var p0, p1 := prefix + ['0'], prefix + ['1'];
      CodeTableExtends(l, p0);
      CodeTableExtends(r, p1);
      var lefts, rights := CodeTable(l, p0), CodeTable(r, p1);
      var all: seq<CodeRecord> := lefts + rights;
      forall i | 0 <= i < |all| ensures prefix <= all[i].code {
        if i < |lefts| {
          assert p0 <= lefts[i].code;
        } else {
          assert p1 <= rights[i - |lefts|].code;
        }
      }
  }

  /**
   * Each code is the path to its leaf: following the bits the code adds to
   * the prefix leads from the root to leaf `i`.
   */
  lemma {:induction false} CodeTablePaths(t: Tree, prefix: seq<char>, i: nat)
    requires i < |CodeTable(t, prefix)|
    ensures prefix <= CodeTable(t, prefix)[i].code
    ensures i < |Leaves(t)| && Follow(t, CodeTable(t, prefix)[i].code[|prefix|..]) == Some(Leaves(t)[i])
  {
    CodeTableLeaves(t, prefix);
    CodeTableExtends(t, prefix);
    match t
    case Leaf(_, _) =>
    case Node(l, r) =>
      var p0, p1 := prefix + ['0'], prefix + ['1'];
      var lefts := CodeTable(l, p0);
      CodeTableLeaves(l, p0);
      if i < |lefts| {
        CodeTablePaths(l, p0, i);
        var code := lefts[i].code;
        assert code[|prefix|..][1..] == code[|p0|..];
        assert code[|prefix|..][0] == p0[|prefix|];
      } else {
        var j := i - |lefts|;
        CodeTablePaths(r, p1, j);
        var code := CodeTable(r, p1)[j].code;
        assert code[|prefix|..][1..] == code[|p1|..];
        assert code[|prefix|..][0] == p1[|prefix|];
      }
  }

  /** No printed code is a prefix of another: the code table is a prefix code. */
  lemma {:induction false} CodeTablePrefixFree(t: Tree, prefix: seq<char>)
    ensures PrefixFree(CodeTable(t, prefix))
  {
    match t
    case Leaf(_, _) =>
    case Node(l, r) =>
      var p0, p1 := prefix + ['0'], prefix + ['1'];
      CodeTablePrefixFree(l, p0);
      CodeTablePrefixFree(r, p1);
      CodeTableExtends(l, p0);
      CodeTableExtends(r, p1);
      PrefixFreeJoin(CodeTable(l, p0), CodeTable(r, p1), prefix);
  }

  /**
   * Two prefix-free tables, one below prefix+'0' and one below prefix+'1',
   * together form a prefix-free table.
   */
  lemma PrefixFreeJoin(lefts: seq<CodeRecord>, rights: seq<CodeRecord>, prefix: seq<char>)
    requires PrefixFree(lefts) && PrefixFree(rights)
    requires AllExtend(lefts, prefix + ['0']) && AllExtend(rights, prefix + ['1'])
    ensures PrefixFree(lefts + rights)
  {
    var all := lefts + rights;
    var n := |prefix|;
    forall i, j | 0 <= i < |all| && 0 <= j < |all| && i != j ensures !(all[i].code <= all[j].code) {
      if i < |lefts| && j < |lefts| {
        assert all[i] == lefts[i] && all[j] == lefts[j];
      } else if i >= |lefts| && j >= |lefts| {
        assert all[i] == rights[i - |lefts|] && all[j] == rights[j - |lefts|];
      } else {
        var a, b := all[i].code, all[j].code;
        assert |a| > n && |b| > n;
        assert a[n] != b[n] by {
          if i < |lefts| {
            assert (prefix + ['0'])[n] == a[n] && (prefix + ['1'])[n] == b[n];
          } else {
            assert (prefix + ['1'])[n] == a[n] && (prefix + ['0'])[n] == b[n];
          }
        }
      }
    }
  }

  /**
   * A code equals the starting prefix exactly when the tree is a single
   * leaf: a lone symbol is printed with the prefix it was given, which for
   * a fresh buffer is the empty code.
   */
  lemma CodeTableSingleLeaf(t: Tree, prefix: seq<char>, i: nat)
    requires i < |CodeTable(t, prefix)|
    ensures CodeTable(t, prefix)[i].code == prefix <==> t.Leaf?
  {
    if t.Node? {
      CodeTablePaths(t, prefix, i);
      LeavesAreLeaves(t);
      assert Leaves(t)[i] in Leaves(t);
      var code := CodeTable(t, prefix)[i].code;
      assert code[|prefix|..] != [];
    }
  }

  /**
   * The table printed from a fresh, empty buffer lists the tree's leaves in
   * order and is a prefix code; its codes are empty exactly when the tree
   * is a single leaf.
   */
  lemma FreshPrefixTable(t: Tree)
    ensures RecordLeaves(CodeTable(t, [])) == Leaves(t)
    ensures PrefixFree(CodeTable(t, []))
    ensures |CodeTable(t, [])| == 1 ==> CodeTable(t, [])[0].code == []
    ensures |CodeTable(t, [])| > 1 ==> forall i :: 0 <= i < |CodeTable(t, [])| ==> CodeTable(t, [])[i].code != []
  {
    var table := CodeTable(t, []);
    CodeTableLeaves(t, []);
    CodeTablePrefixFree(t, []);
    if t.Node? {
      LeavesAreLeaves(t.left);
      LeavesAreLeaves(t.right);
      assert |table| == |Leaves(t)| >= 2;
      forall i | 0 <= i < |table| ensures table[i].code != [] {
        CodeTableSingleLeaf(t, [], i);
      }
    }
  }
}
