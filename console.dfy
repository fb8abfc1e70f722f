/**
 * The console copy of the coder. It keeps the header's heap and merge loop
 * but differs in four places: its text builder counts each character at the
 * signed index `int(c)` in a heap built by the default constructor (capacity
 * 255), its code table has 256 entries, `encode` looks codes up at `int(c)`,
 * and `decode` never checks for a null pointer.
 */
module Console {
  import opened HuffTree
  import opened Heap
  import opened Builder
  import opened Codes
  import opened Decoding
  import opened Pipeline

  /** `int(c)` for the `char` whose bits are the byte b: `char` is signed, so bytes from 128 on are negative. */
  function SignedIndex(b: Byte): (i: int)
    ensures -128 <= i < 128 && i % 256 == b as int
    ensures 0 <= i <==> b < 128
  {
    if b < 128 then b as int else b as int - 256
  }

  /** The byte 200 (`'\xC8'`) is counted at index -56, before the start of the 256-entry table. */
  lemma SignedIndexOfHighByte()
    ensures SignedIndex(200) == -56
  {
  }

  /** Only the first k entries of a table can give leaves when the rest are zero. */
  lemma {:induction false} LeafNodesZeroTail(freqs: seq<int>, k: nat)
    requires k <= |freqs| && forall i :: k <= i < |freqs| ==> freqs[i] <= 0
    ensures LeafNodes(freqs) == LeafNodes(freqs[..k])
    decreases |freqs|
  {
    if k < |freqs| {
      var n := |freqs| - 1;
      assert freqs[..n][..k] == freqs[..k];
      LeafNodesZeroTail(freqs[..n], k);
    } else {
      assert freqs[..k] == freqs;
    }
  }

  /** Texts of 7-bit characters, the only ones the console's signed indexing handles. */
  predicate Ascii(s: seq<Byte>)
  {
    forall i :: 0 <= i < |s| ==> s[i] < 128
  }

  /**
   * The console `buildHuffmanTree`: the count loop indexes with `int(c)` and
   * the heap is `HuffHeap()`, of capacity 255. Seven-bit text has at most 128
   * distinct characters, so no leaf is dropped by a full heap, and the tree
   * is the one the header builds.
   */
  method BuildHuffmanTreeConsole(s: seq<Byte>) returns (root: Tree)
    requires Ascii(s)
    ensures root == Nil <==> s == []
    ensures root != Nil ==> Full(root) && Conserves(root) && root.f == |s|
    ensures multiset(Leaves(root)) == multiset(LeafNodes(Counts(s, 256)))
    ensures SymbolsBelow(root, 128)
  {
    var charFreqs := CountSigned(s);
    var h := new HuffHeap.Default();
    AsciiCounts(s);
    LeafNodesZeroTail(charFreqs[..], 128);
    LeafNodesAtMost(charFreqs[..][..128]);
    root := MergeAll(charFreqs[..], h);
    CountedLeaves(s, 256);
    BuiltSymbols(root, s, 256);
    SymbolsBelowIff(root, 128);
  }

  /** The console count loop: `charFreqs[int(c)]++` for each character, which for 7-bit text is the byte count. */
  method CountSigned(s: seq<Byte>) returns (charFreqs: array<int>)
    requires Ascii(s)
    ensures fresh(charFreqs) && charFreqs[..] == Counts(s, 256)
  {
    charFreqs := new int[256](_ => 0);
    assert charFreqs[..] == Counts([], 256);
    for i := 0 to |s|
      invariant charFreqs[..] == Counts(s[..i], 256)
    {
      CountsPrefix(s, i, 256);
      var c := SignedIndex(s[i]);
      charFreqs[c] := charFreqs[c] + 1;
    }
    assert s[..|s|] == s;
  }

  /** The first n items of xs, or all of them when there are fewer. */
  function Take(xs: seq<Node>, n: nat): seq<Node>
  {
    if |xs| <= n then xs else xs[..n]
  }

  lemma TakeSnoc(xs: seq<Node>, x: Node, n: nat)
    ensures Take(xs + [x], n) == if |xs| < n then Take(xs, n) + [x] else Take(xs, n)
  {
    if |xs| >= n {
      assert (xs + [x])[..n] == xs[..n];
    }
  }

  /**
   * One pass of the console leaf-pushing loop: a positive count pushes its
   * leaf, which the heap drops when it is already full.
   */
  method PushLeafCapped(freqs: seq<int>, i: nat, h: HuffHeap, ghost kept: seq<Node>) returns (ghost kept': seq<Node>)
    requires h.Valid() && i < |freqs| && kept == Take(LeafNodes(freqs[..i]), h.capacity)
    requires h.size == |kept| && h.Contents() == multiset(kept)
    modifies h`size, h.arr
    ensures h.Valid() && kept' == Take(LeafNodes(freqs[..i + 1]), h.capacity)
    ensures h.size == |kept'| && h.Contents() == multiset(kept')
  {
    LeafNodesSnoc(freqs, i);
    kept' := kept;
    if freqs[i] > 0 {
      var leaf: Node := Leaf(i, freqs[i]);
      TakeSnoc(LeafNodes(freqs[..i]), leaf, h.capacity);
      h.Push(leaf);
      if |LeafNodes(freqs[..i])| < h.capacity {
        kept' := kept + [leaf];
      }
    }
  }

  /**
   * The console leaf-pushing loop over a heap of any capacity: the heap ends
   * holding the first `capacity` leaves of the table, in index order, and
   * every later leaf is dropped.
   */
  method PushLeavesCapped(freqs: seq<int>, h: HuffHeap) returns (ghost kept: seq<Node>)
    requires h.Valid() && h.size == 0
    modifies h`size, h.arr
    ensures h.Valid() && kept == Take(LeafNodes(freqs), h.capacity)
    ensures h.size == |kept| && h.Contents() == multiset(kept)
  {
    kept := [];
    assert freqs[..0] == [];
    for i := 0 to |freqs|
      invariant h.Valid() && kept == Take(LeafNodes(freqs[..i]), h.capacity)
      invariant h.size == |kept| && h.Contents() == multiset(kept)
    {
      kept := PushLeafCapped(freqs, i, h, kept);
    }
    assert freqs[..|freqs|] == freqs;
  }

  /** A forest of single leaves has those leaves as its leaves. */
  lemma {:induction false} ForestOfLeaves(ts: seq<Node>)
    requires forall t :: t in ts ==> t.Leaf?
    ensures ForestLeaves(ts) == ts
    decreases |ts|
  {
    if ts != [] {
      var n := |ts| - 1;
      assert ts[..n] + [ts[n]] == ts;
      ForestOfLeaves(ts[..n]);
    }
  }

  /** The first leaves of a table, as one-node trees, are a good forest. */
  lemma TakenForest(freqs: seq<int>, n: nat)
    ensures GoodForest(Take(LeafNodes(freqs), n), Take(LeafNodes(freqs), n))
  {
    var kept := Take(LeafNodes(freqs), n);
    forall t | t in kept ensures t.Leaf? && Full(t) && Conserves(t) {
      assert t in LeafNodes(freqs);
      LeafNodesCount(freqs, t);
    }
    ForestOfLeaves(kept);
  }

  /**
   * The console `buildHuffmanTree` where `char` is unsigned: `int(c)` is the
   * byte itself, so every byte is counted, but the 255-slot heap of
   * `HuffHeap()` keeps only the first 255 leaves and drops the rest.
   */
  method BuildHuffmanTreeUnsigned(s: seq<Byte>) returns (root: Tree)
    ensures root == Nil <==> s == []
    ensures multiset(Leaves(root)) == multiset(Take(LeafNodes(Counts(s, 256)), 255))
    ensures root != Nil ==> Full(root) && Conserves(root) && root.f == SumF(Take(LeafNodes(Counts(s, 256)), 255))
  {
    var charFreqs := CountBytes(s);
    var h := new HuffHeap.Default();
    ghost var kept := PushLeavesCapped(charFreqs[..], h);
    TakenForest(charFreqs[..], 255);
    root := MergeAndPop(h, kept);
    CountedLeaves(s, 256);
  }

  /** A table with a count that is not positive has fewer leaves than entries. */
  lemma {:induction false} LeafNodesMissing(freqs: seq<int>, b: nat)
    requires b < |freqs| && freqs[b] <= 0
    ensures |LeafNodes(freqs)| < |freqs|
    decreases |freqs|
  {
    var n := |freqs| - 1;
    if b < n {
      assert freqs[..n][b] == freqs[b];
      LeafNodesMissing(freqs[..n], b);
    } else {
      LeafNodesAtMost(freqs[..n]);
    }
  }

  /** A table whose counts are all positive has one leaf per entry. */
  lemma {:induction false} LeafNodesAllPositive(freqs: seq<int>)
    requires forall i :: 0 <= i < |freqs| ==> freqs[i] > 0
    ensures |LeafNodes(freqs)| == |freqs|
    decreases |freqs|
  {
    if freqs != [] {
      LeafNodesAllPositive(freqs[..|freqs| - 1]);
    }
  }

  /** What the unsigned console builder promises about its result. */
  ghost predicate BuiltUnsigned(root: Tree, s: seq<Byte>)
  {
    (root == Nil <==> s == []) &&
    multiset(Leaves(root)) == multiset(Take(LeafNodes(Counts(s, 256)), 255)) &&
    (root != Nil ==> Full(root) && Conserves(root) && root.f == SumF(Take(LeafNodes(Counts(s, 256)), 255)))
  }

  /**
   * When some entry of a table is not positive, the table has at most 255
   * leaves and a 255-slot heap drops none: the tree has all of the table's
   * leaves and their whole total.
   */
  lemma KeptAllOf(root: Tree, freqs: seq<int>, total: int, b: nat)
    requires b < |freqs| == 256 && freqs[b] <= 0 && SumF(LeafNodes(freqs)) == total
    requires multiset(Leaves(root)) == multiset(Take(LeafNodes(freqs), 255))
    requires root != Nil ==> root.f == SumF(Take(LeafNodes(freqs), 255))
    ensures multiset(Leaves(root)) == multiset(LeafNodes(freqs))
    ensures root != Nil ==> root.f == total
  {
    LeafNodesMissing(freqs, b);
  }

  /** A tree built from a text missing some byte value has the table's leaves and carries the text's length. */
  lemma KeptAllLeaves(s: seq<Byte>, root: Tree, b: Byte)
    requires BuiltUnsigned(root, s) && b !in s
    ensures multiset(Leaves(root)) == multiset(LeafNodes(Counts(s, 256)))
    ensures root != Nil ==> root.f == |s|
  {
    assert b !in multiset(s);
    CountedLeaves(s, 256);
    KeptAllOf(root, Counts(s, 256), |s|, b);
  }

  /** When some byte value is missing from the text, nothing is dropped and the tree is the header's. */
  lemma UnsignedMissingByte(s: seq<Byte>, root: Tree, b: Byte)
    requires BuiltUnsigned(root, s) && b !in s
    ensures BuiltFrom(root, s)
  {
    KeptAllLeaves(s, root, b);
    SymbolsBelowFromLeaves(root, Counts(s, 256));
  }

  /** A text holding every byte value counts each of them at least once. */
  lemma AllCounted(s: seq<Byte>)
    requires forall b: Byte :: b in s
    ensures forall i :: 0 <= i < 256 ==> Counts(s, 256)[i] > 0
  {
    forall i | 0 <= i < 256 ensures Counts(s, 256)[i] > 0 {
      var b: Byte := i;
      assert b in s;
    }
  }

  /**
   * With all 256 counts positive, the 255-slot heap keeps the leaves of the
   * first 255 entries, which carry all but the last count.
   */
  lemma LastLeafDropped(freqs: seq<int>)
    requires |freqs| == 256 && forall i :: 0 <= i < 256 ==> freqs[i] > 0
    ensures Take(LeafNodes(freqs), 255) == LeafNodes(freqs[..255])
    ensures SumF(LeafNodes(freqs[..255])) == SumF(LeafNodes(freqs)) - freqs[255]
  {
    var head := freqs[..255];
    var last: Node := Leaf(255, freqs[255]);
    assert LeafNodes(freqs) == LeafNodes(head) + [last];
    LeafNodesAllPositive(head);
    SumFAppend(LeafNodes(head), [last]);
    assert [last][..0] == [];
  }

  /**
   * A tree built on a 255-slot heap from a table whose 256 counts are all
   * positive lacks the last symbol, has all the others, and carries the
   * table's total less the last count.
   */
  lemma DroppedOf(root: Tree, freqs: seq<int>)
    requires |freqs| == 256 && forall i :: 0 <= i < 256 ==> freqs[i] > 0
    requires multiset(Leaves(root)) == multiset(Take(LeafNodes(freqs), 255))
    requires root != Nil ==> root.f == SumF(Take(LeafNodes(freqs), 255))
    ensures root != Nil && root.f == SumF(LeafNodes(freqs)) - freqs[255]
    ensures !HasSymbol(root, 255) && forall b :: 0 <= b < 255 ==> HasSymbol(root, b)
  {
    var head := freqs[..255];
    LastLeafDropped(freqs);
    forall b ensures HasSymbol(root, b) <==> 0 <= b < 255 {
      SymbolsFromLeaves(root, head, b);
    }
    assert HasSymbol(root, 0);
  }

  /**
   * When all 256 byte values occur, the leaf of byte 255 is the one the full
   * heap drops: the tree does not carry 255, carries every other byte, and its
   * root frequency falls short of the text's length by the count of 255.
   */
  lemma UnsignedDropsLastByte(s: seq<Byte>, root: Tree)
    requires BuiltUnsigned(root, s) && forall b: Byte :: b in s
    ensures !HasSymbol(root, 255) && forall b :: 0 <= b < 255 ==> HasSymbol(root, b)
    ensures root.f == |s| - multiset(s)[255]
  {
    AllCounted(s);
    CountedLeaves(s, 256);
    DroppedOf(root, Counts(s, 256));
  }

  /** A 7-bit text counts nothing from 128 on. */
  lemma AsciiCounts(s: seq<Byte>)
    requires Ascii(s)
    ensures forall v :: 128 <= v < 256 ==> Counts(s, 256)[v] == 0
  {
    forall v | 128 <= v < 256 ensures Counts(s, 256)[v] == 0 {
      assert v !in multiset(s);
    }
  }

  /**
   * The console `encode`: the 256-entry code table, looked up at `int(c)`
   * for each character, codes concatenated in order.
   */
  method EncodeConsole(s: seq<Byte>, huffmanTree: Tree) returns (res: seq<char>)
    requires Ascii(s) && SymbolsBelow(huffmanTree, 256)
    ensures res == Encoded(s, Gen(huffmanTree, [], Blank(256)))
  {
    var codes := GetHuffmanCodes(huffmanTree, 256);
    res := "";
    for i := 0 to |s|
      invariant res == Encoded(s[..i], codes)
    {
      assert s[..i + 1][..i] == s[..i];
      res := res + codes[SignedIndex(s[i])];
    }
    assert s[..|s|] == s;
  }

  /**
   * The console `decode`: the header's walk without its null checks. It is
   * defined only when the walk never steps onto a missing child, and then
   * agrees with the header's `decode`.
   */
  method DecodeConsole(s: seq<char>, huffmanTree: Tree) returns (res: seq<Byte>)
    requires !Run(huffmanTree, Start(huffmanTree), s).broken
    ensures res == DecodeResult(s, huffmanTree)
    ensures res == ToBytes(Run(huffmanTree, Start(huffmanTree), s).syms)
  {
    res := [];
    var ptr := huffmanTree;
    ghost var syms: seq<int> := [];
    for i := 0 to |s|
      invariant Run(huffmanTree, Start(huffmanTree), s[..i]) == Walk(ptr, syms, false)
      invariant res == ToBytes(syms)
    {
      RunAppend(huffmanTree, Start(huffmanTree), s[..i], [s[i]]);
      assert s[..i + 1] == s[..i] + [s[i]];
      RunPrefix(huffmanTree, s, i + 1);
      var c := s[i];
      if c == '0' {
        ptr := Child(ptr, '0');
      } else {
        ptr := Child(ptr, '1');
      }
      if Childless(ptr) {
        res := res + [Symbol(ptr) % 256];
        syms := syms + [Symbol(ptr)];
        ptr := huffmanTree;
      }
    }
    assert s[..|s|] == s;
    if huffmanTree.Nil? {
      NilTreeBreaks(s);
    }
  }

  /** Any bit walked from a null root steps onto a null child. */
  lemma NilTreeBreaks(bits: seq<char>)
    ensures Run(Nil, Start(Nil), bits).broken <==> bits != []
  {
    if bits != [] {
      RunExtends(Nil, Step(Nil, Start(Nil), bits[0]), bits[1..]);
    }
  }

  /**
   * For a full tree with two or more leaves, the console `decode` may be
   * applied to what the console `encode` gives for a text of its symbols,
   * and gives the text back.
   */
  lemma ConsoleRoundTrip(t: Tree, s: seq<Byte>)
    requires Full(t) && t.Internal? && SymbolsBelow(t, 256) && Ascii(s)
    requires forall i :: 0 <= i < |s| ==> HasSymbol(t, s[i])
    ensures !Run(t, Start(t), Encoded(s, Gen(t, [], Blank(256)))).broken
    ensures ToBytes(Run(t, Start(t), Encoded(s, Gen(t, [], Blank(256)))).syms) == s
  {
    RunEncoded(t, 256, s);
    ToBytesOfBytes(s);
  }

  /**
   * The console's own pipeline: for 7-bit text that is empty or holds two
   * distinct characters, the tree its builder makes lets `decode` run over
   * what `encode` gives and return the text.
   */
  lemma ConsoleTextRoundTrip(s: seq<Byte>, root: Tree)
    requires Ascii(s) && BuiltFrom(root, s)
    requires s == [] || exists i, j :: 0 <= i < |s| && 0 <= j < |s| && s[i] != s[j]
    ensures !Run(root, Start(root), Encoded(s, Gen(root, [], Blank(256)))).broken
    ensures DecodeResult(Encoded(s, Gen(root, [], Blank(256))), root) == s
  {
    if s != [] {
      var i, j :| 0 <= i < |s| && 0 <= j < |s| && s[i] != s[j];
      BuiltSymbols(root, s, 256);
      TwoSymbolsMeanInternal(root, s[i], s[j]);
      ConsoleRoundTrip(root, s);
    }
  }
}
