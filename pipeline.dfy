/**
 * The text and image paths end to end. The text path: a tree as `buildHuffmanTree` builds it from `s`,
 * the bits `encode` produces for `s` with that tree, and what `decode` makes
 * of them. The round trip holds for the empty text and for every text with
 * at least two distinct bytes; a text made of one repeated byte encodes to
 * nothing and decodes to nothing.
 */
module Pipeline {
  import opened HuffTree
  import opened Builder
  import opened Codes
  import opened Decoding
  import opened Image

  /** What `BuildHuffmanTree(s)` promises about its result. */
  ghost predicate BuiltFrom(root: Tree, s: seq<Byte>)
  {
    (root == Nil <==> s == []) &&
    (root != Nil ==> Full(root) && Conserves(root) && root.f == |s|) &&
    SymbolsBelow(root, 256) &&
    multiset(Leaves(root)) == multiset(LeafNodes(Counts(s, 256)))
  }

  /** A tree carrying two different symbols is not a single leaf. */
  lemma TwoSymbolsMeanInternal(t: Tree, a: int, b: int)
    requires HasSymbol(t, a) && HasSymbol(t, b) && a != b
    ensures t.Internal?
  {
  }

  /** Symbols below 256 are below 511, the size of the header's code table. */
  lemma TableFits(t: Tree)
    requires SymbolsBelow(t, 256)
    ensures SymbolsBelow(t, 511)
  {
    SymbolsBelowIff(t, 256);
    SymbolsBelowIff(t, 511);
  }

  /**
   * `decode(encode(s, T), T) == s` for the tree T built from s, when s is
   * empty or holds two distinct bytes.
   */
  lemma TextRoundTrip(s: seq<Byte>, root: Tree)
    requires BuiltFrom(root, s)
    requires s == [] || exists i, j :: 0 <= i < |s| && 0 <= j < |s| && s[i] != s[j]
    ensures SymbolsBelow(root, 511)
    ensures DecodeResult(Encoded(s, Gen(root, [], Blank(511))), root) == s
  {
    TableFits(root);
    if s != [] {
      var i, j :| 0 <= i < |s| && 0 <= j < |s| && s[i] != s[j];
      BuiltSymbols(root, s, 256);
      TwoSymbolsMeanInternal(root, s[i], s[j]);
      DecodeEncoded(root, s);
    }
  }

  /**
   * A tree whose leaves are the counts of a non-empty sequence of one
   * repeated symbol is that symbol's single leaf.
   */
  lemma SingleSymbolTree(tree: Tree, syms: seq<int>, n: nat)
    requires forall i :: 0 <= i < |syms| ==> 0 <= syms[i] < n
    requires multiset(Leaves(tree)) == multiset(LeafNodes(Counts(syms, n)))
    requires tree != Nil ==> Full(tree)
    requires syms != [] && forall i :: 0 <= i < |syms| ==> syms[i] == syms[0]
    ensures tree == Leaf(syms[0], |syms|)
  {
    BuiltLeaves(tree, syms, n);
    assert HasSymbol(tree, syms[0]);
    if tree.Internal? {
      var x, y := NoRepeatedLeaf(tree);
      assert false;
    }
    assert tree in Leaves(tree);
    assert multiset(syms)[syms[0]] == |syms| by {
      assert syms == seq(|syms|, _ => syms[0]);
      SameByteCount(syms[0], |syms|);
    }
  }

  /**
   * A non-empty text of one repeated byte builds a single leaf, whose code is
   * empty: the text encodes to no bits, which decode to the empty text.
   */
  lemma TextSingleSymbol(s: seq<Byte>, root: Tree)
    requires BuiltFrom(root, s) && s != []
    requires forall i :: 0 <= i < |s| ==> s[i] == s[0]
    ensures root == Leaf(s[0], |s|)
    ensures SymbolsBelow(root, 511)
    ensures Encoded(s, Gen(root, [], Blank(511))) == []
    ensures DecodeResult(Encoded(s, Gen(root, [], Blank(511))), root) == []
  {
    SingleSymbolTree(root, s, 256);
    SingleLeaf(root.symbol, root.f, s, []);
  }

  /** The first leaves of the two subtrees of a tree whose leaves are all different are different leaves. */
  lemma NoRepeatedLeaf(t: Tree) returns (x: Node, y: Node)
    requires t.Internal? && Full(t) && forall z :: multiset(Leaves(t))[z] <= 1
    ensures x in Leaves(t) && y in Leaves(t) && x != y
  {
    FullHasLeaves(t.left);
    FullHasLeaves(t.right);
    x, y := Leaves(t.left)[0], Leaves(t.right)[0];
    assert multiset(Leaves(t)) == multiset(Leaves(t.left)) + multiset(Leaves(t.right));
    var count := multiset(Leaves(t))[x];
  }

  /** A run of n copies of b counts n copies of b. */
  lemma {:induction false} SameByteCount(b: int, n: nat)
    ensures multiset(seq(n, _ => b))[b] == n
  {
    if n > 0 {
      assert seq(n, _ => b) == seq(n - 1, _ => b) + [b];
      SameByteCount(b, n - 1);
    }
  }

  /**
   * `decodeImage(encodeImage(...))` gives the bytes back for the tree
   * `buildHuffmanTreeForImage` builds from them, when two of the predictive
   * symbols differ (the first two differ exactly when the second byte is not
   * twice the first).
   */
  lemma ImageRoundTrip(data: seq<Byte>, tree: Tree, i: nat, j: nat)
    requires multiset(Leaves(tree)) == multiset(LeafNodes(Counts(Residuals(data), 511)))
    requires tree != Nil ==> Full(tree)
    requires i < |data| && j < |data| && Residual(data, i) != Residual(data, j)
    ensures SymbolsBelow(tree, 511)
    ensures DecodedImage(Encoded(Residuals(data), Gen(tree, [], Blank(511))), tree, |data|) == data
  {
    var syms := Residuals(data);
    BuiltSymbols(tree, syms, 511);
    TwoSymbolsMeanInternal(tree, syms[i], syms[j]);
    DecodeImageEncoded(tree, data);
  }

  /**
   * An image whose predictive symbols are all equal (an all-black image, a
   * single pixel, or a ramp such as [1, 2, 3]) builds a single leaf, whose
   * code is empty: `encodeImage` gives no bits, and `decodeImage` writes
   * none of the bytes of its buffer, so the image does not come back.
   */
  lemma ImageSingleSymbol(data: seq<Byte>, tree: Tree)
    requires multiset(Leaves(tree)) == multiset(LeafNodes(Counts(Residuals(data), 511)))
    requires tree != Nil ==> Full(tree)
    requires data != [] && forall i :: 0 <= i < |data| ==> Residual(data, i) == Residual(data, 0)
    ensures tree == Leaf(Residual(data, 0), |data|)
    ensures Encoded(Residuals(data), Gen(tree, [], Blank(511))) == []
    ensures DecodedImage(Encoded(Residuals(data), Gen(tree, [], Blank(511))), tree, |data|) == []
  {
    var syms := Residuals(data);
    SingleSymbolTree(tree, syms, 511);
    SingleLeaf(syms[0], |syms|, syms, []);
  }
}
