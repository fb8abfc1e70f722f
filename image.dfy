/**
 * The image path: pixel bytes go through a predictive transform (each byte
 * minus the one before it, plus 255, a symbol in 0..510), are Huffman-coded
 * over a 511-entry table, and are rebuilt by the clamped inverse of the
 * transform. Loading the image file is not modelled: the pixel data is an
 * in-memory byte sequence, absent when the file could not be loaded.
 */
module Image {
  import opened HuffTree
  import opened Heap
  import opened Builder
  import opened Codes
  import opened Decoding

  datatype Option<T> = None | Some(value: T)

  /** The predictive symbol of pixel i: `b[i] - (i == 0 ? 0 : b[i-1]) + 255`. */
  function Residual(data: seq<Byte>, i: nat): (r: int)
    requires i < |data|
    ensures 0 <= r < 511
  {
    (data[i] as int) - (if i == 0 then 0 else data[i - 1] as int) + 255
  }

  /** The predictive symbols of every pixel, in order. */
  function Residuals(data: seq<Byte>): (r: seq<int>)
    ensures |r| == |data| && forall i :: 0 <= i < |r| ==> 0 <= r[i] < 511
  {
    seq(|data|, i requires 0 <= i < |data| => Residual(data, i))
  }

  /** The inverse of one symbol, clamped to a byte as `decodeImage` does. */
  function Unpredict(sym: int, prev: Byte): (b: Byte)
    ensures 0 <= sym - 255 + prev <= 255 ==> b == sym - 255 + prev
    ensures sym - 255 + prev < 0 ==> b == 0
    ensures sym - 255 + prev > 255 ==> b == 255
  {
    var v := sym - 255 + prev;
    if v < 0 then 0 else if v > 255 then 255 else v
  }

  /** The bytes `decodeImage` writes for a run of symbols, each added to the byte written before it. */
  function Reconstruct(syms: seq<int>): (r: seq<Byte>)
    ensures |r| == |syms|
  {
    if syms == [] then []
    else
      var n := |syms| - 1;
      var prev := Reconstruct(syms[..n]);
      prev + [Unpredict(syms[n], if n == 0 then 0 else prev[n - 1])]
  }

  /** The inverse transform undoes the forward one: no clamp fires on symbols the forward transform made. */
  lemma {:induction false} ReconstructResiduals(data: seq<Byte>)
    ensures Reconstruct(Residuals(data)) == data
    decreases |data|
  {
    if data != [] {
      var n := |data| - 1;
      assert Residuals(data)[..n] == Residuals(data[..n]);
      ReconstructResiduals(data[..n]);
      assert data == data[..n] + [data[n]];
    }
  }

  /** Reconstructing a prefix of the symbols gives a prefix of the bytes. */
  lemma {:induction false} ReconstructPrefix(syms: seq<int>, k: nat)
    requires k <= |syms|
    ensures Reconstruct(syms[..k]) == Reconstruct(syms)[..k]
    decreases |syms|
  {
    if k < |syms| {
      var n := |syms| - 1;
      assert syms[..n][..k] == syms[..k];
      ReconstructPrefix(syms[..n], k);
    } else {
      assert syms[..k] == syms;
    }
  }

  /** Each byte is the clamped inverse of its symbol applied to the byte before it. */
  lemma ReconstructAt(syms: seq<int>, i: nat)
    requires i < |syms|
    ensures Reconstruct(syms)[i] == Unpredict(syms[i], if i == 0 then 0 else Reconstruct(syms)[i - 1])
  {
    ReconstructPrefix(syms, i + 1);
    ReconstructPrefix(syms, i);
    assert syms[..i + 1][..i] == syms[..i];
  }

  /**
   * Only the clamp loses information: where no clamp fires, the forward
   * transform reads the symbols back from the bytes.
   */
  lemma ResidualsReconstruct(syms: seq<int>)
    requires forall i :: 0 <= i < |syms| ==> 0 <= syms[i] - 255 + (if i == 0 then 0 else Reconstruct(syms)[i - 1]) <= 255
    ensures Residuals(Reconstruct(syms)) == syms
  {
    forall i | 0 <= i < |syms| ensures Residuals(Reconstruct(syms))[i] == syms[i] {
      ReconstructAt(syms, i);
    }
  }

  /**
   * `buildHuffmanTreeForImage` (both files): count each pixel's predictive
   * symbol into a 511-entry table, then push one leaf per positive count into
   * a 511-slot heap and merge.
   */
  method BuildHuffmanTreeForImage(data: seq<Byte>) returns (root: Tree)
    ensures root == Nil <==> data == []
    ensures root != Nil ==> Full(root) && Conserves(root) && root.f == |data|
    ensures multiset(Leaves(root)) == multiset(LeafNodes(Counts(Residuals(data), 511)))
  {
    var freqs := new int[511](_ => 0);
    assert freqs[..] == Counts([], 511);
    ghost var syms := Residuals(data);
    for i := 0 to |data|
      invariant freqs[..] == Counts(syms[..i], 511)
    {
      var pixel := data[i];
      var processedVal := (pixel as int) - (if i == 0 then 0 else data[i - 1] as int) + 255;
      assert processedVal == syms[i];
      CountsPrefix(syms, i, 511);
      freqs[processedVal] := freqs[processedVal] + 1;
    }
    assert syms[..|data|] == syms;
    var h := new HuffHeap(511);
    LeafNodesAtMost(freqs[..]);
    root := MergeAll(freqs[..], h);
    CountedLeaves(syms, 511);
  }

  /**
   * The transform loop of `encodeImage`: with no pixel data, the result is ""
   * with size 0 and the tree left as it was; otherwise the tree is built from
   * the data and the result is the codes of the predictive symbols, in order.
   */
  method EncodeImage(loaded: Option<seq<Byte>>, outTree: Tree) returns (res: seq<char>, tree: Tree, outDataSize: int)
    ensures loaded.None? ==> res == [] && tree == outTree && outDataSize == 0
    ensures loaded.Some? ==> outDataSize == |loaded.value| && (tree == Nil <==> loaded.value == [])
    ensures loaded.Some? ==> multiset(Leaves(tree)) == multiset(LeafNodes(Counts(Residuals(loaded.value), 511)))
    ensures loaded.Some? && tree != Nil ==> Full(tree) && Conserves(tree) && tree.f == |loaded.value|
    ensures loaded.Some? ==> SymbolsBelow(tree, 511) && forall b :: HasSymbol(tree, b) <==> b in Residuals(loaded.value)
    ensures loaded.Some? ==> res == Encoded(Residuals(loaded.value), Gen(tree, [], Blank(511)))
  {
    if loaded.None? {
      return [], outTree, 0;
    }
    var data := loaded.value;
    outDataSize := |data|;
    tree := BuildHuffmanTreeForImage(data);
    BuiltSymbols(tree, Residuals(data), 511);
    var codes := GetHuffmanCodes(tree, 511);
    res := EncodePixels(data, codes);
  }

  /** The loop of `encodeImage`: the codes of the pixels' predictive symbols, concatenated in order. */
  method EncodePixels(data: seq<Byte>, codes: seq<seq<char>>) returns (res: seq<char>)
    requires |codes| == 511
    ensures res == Encoded(Residuals(data), codes)
  {
    ghost var syms := Residuals(data);
    res := "";
    for i := 0 to |data|
      invariant res == Encoded(syms[..i], codes)
    {
      var pixel := data[i];
      var processedVal := (pixel as int) - (if i == 0 then 0 else data[i - 1] as int) + 255;
      assert processedVal == syms[i];
      assert syms[..i + 1][..i] == syms[..i];
      res := res + codes[processedVal];
    }
    assert syms[..|data|] == syms;
  }

  /**
   * The bytes `decodeImage` writes: the clamped inverse of the first
   * `dataSize` symbols the walk emits (the walk stops at a null child).
   */
  function DecodedImage(bits: seq<char>, root: Tree, dataSize: nat): (r: seq<Byte>)
    ensures |r| <= dataSize
  {
    var syms := Run(root, Start(root), bits).syms;
    Reconstruct(if |syms| <= dataSize then syms else syms[..dataSize])
  }

  /**
   * Where `decodeImage` may stop after the first j bits: when the walk has
   * broken, when it has emitted at least `dataSize` symbols, or at the end of
   * the bits. What it has written by then is the whole result.
   */
  lemma StopImage(root: Tree, bits: seq<char>, j: nat, dataSize: nat)
    requires j <= |bits|
    requires var w := Run(root, Start(root), bits[..j]); w.broken || |w.syms| >= dataSize || j == |bits|
    ensures var syms := Run(root, Start(root), bits[..j]).syms;
            DecodedImage(bits, root, dataSize) == Reconstruct(if |syms| <= dataSize then syms else syms[..dataSize])
  {
    var w := Run(root, Start(root), bits[..j]);
    if j == |bits| {
      assert bits[..j] == bits;
    } else {
      RunPrefix(root, bits, j);
      var full := Run(root, Start(root), bits).syms;
      if !w.broken {
        assert full[..dataSize] == w.syms[..dataSize];
        assert (if |full| <= dataSize then full else full[..dataSize]) == full[..dataSize];
        assert (if |w.syms| <= dataSize then w.syms else w.syms[..dataSize]) == w.syms[..dataSize];
      }
    }
  }

  /** Writing the next byte: one more symbol reconstructs to one more byte. */
  lemma ReconstructSnoc(syms: seq<int>, sym: int)
    ensures Reconstruct(syms + [sym]) ==
            Reconstruct(syms) + [Unpredict(sym, if syms == [] then 0 else Reconstruct(syms)[|syms| - 1])]
  {
    assert (syms + [sym])[..|syms|] == syms;
  }

  /**
   * One pixel of `decodeImage`: the symbol minus 255 plus the byte written
   * before it, clamped to 0..255, written at index i.
   */
  method WritePixel(img: array<Byte>, i: nat, sym: int, ghost syms: seq<int>)
    requires i == |syms| < img.Length && img[..i] == Reconstruct(syms)
    modifies img
    ensures img[..i + 1] == Reconstruct(syms + [sym])
  {
    var val := sym - 255 + (if i == 0 then 0 else img[i - 1]);
    if val < 0 {
      val := 0;
    }
    if val > 255 {
      val := 255;
    }
    ReconstructSnoc(syms, sym);
    img[i] := val;
  }

  /**
   * `decodeImage`: null for a null tree; otherwise a fresh buffer of
   * `dataSize` bytes that starts with the decoded bytes (the rest of the
   * buffer is never written).
   */
  method DecodeImage(encodeImage: seq<char>, huffmanTree: Tree, dataSize: nat) returns (img: array?<Byte>)
    ensures huffmanTree.Nil? <==> img == null
    ensures img != null ==> fresh(img) && img.Length == dataSize
    ensures img != null ==> var d := DecodedImage(encodeImage, huffmanTree, dataSize); img[..|d|] == d
  {
    if huffmanTree.Nil? {
      return null;
    }
    img := new Byte[dataSize];
    ghost var stop, syms := DecodePixels(encodeImage, huffmanTree, img);
    StopImage(huffmanTree, encodeImage, stop, dataSize);
  }

  /**
   * The loop of `decodeImage`: walks the bits, writing the clamped inverse
   * of each symbol reached, and breaks at a null child or when a symbol
   * arrives with the buffer already full. It stops after `stop` bits, having
   * written the bytes of `syms`, the first `img.Length` symbols of that walk.
   */
  method DecodePixels(encodeImage: seq<char>, huffmanTree: Tree, img: array<Byte>) returns (ghost stop: nat, ghost syms: seq<int>)
    requires huffmanTree != Nil
    modifies img
    ensures stop <= |encodeImage| && |syms| <= img.Length && img[..|syms|] == Reconstruct(syms)
    ensures var w := Run(huffmanTree, Start(huffmanTree), encodeImage[..stop]);
            (w.broken || |w.syms| > img.Length || stop == |encodeImage|) &&
            (if |w.syms| <= img.Length then w.syms else w.syms[..img.Length]) == syms
  {
    var i := 0;
    var ptr := huffmanTree;
    syms := [];
    for j := 0 to |encodeImage|
      invariant Run(huffmanTree, Start(huffmanTree), encodeImage[..j]) == Walk(ptr, syms, false)
      invariant i == |syms| <= img.Length && img[..i] == Reconstruct(syms)
    {
      var done;
      ptr, i, syms, done := DecodeBit(huffmanTree, encodeImage, j, ptr, img, i, syms);
      if done {
        return j + 1, syms;
      }
    }
    assert encodeImage[..|encodeImage|] == encodeImage;
    stop := |encodeImage|;
  }

  /**
   * One pass of the `decodeImage` loop, from the walk after j bits: step to
   * a child, and on reaching a leaf write its byte at index i and return to
   * the root. `done` says the loop breaks here (a null child, or a symbol
   * with the buffer full); otherwise the result is the walk after j + 1 bits.
   */
  method DecodeBit(root: Tree, bits: seq<char>, j: nat, ptr: Tree, img: array<Byte>, i: nat, ghost syms: seq<int>)
      returns (next: Tree, i': nat, ghost syms': seq<int>, done: bool)
    requires j < |bits| && Run(root, Start(root), bits[..j]) == Walk(ptr, syms, false)
    requires i == |syms| <= img.Length && img[..i] == Reconstruct(syms)
    modifies img
    ensures i' == |syms'| <= img.Length && img[..i'] == Reconstruct(syms')
    ensures var w := Run(root, Start(root), bits[..j + 1]);
            if done then (w.broken || |w.syms| > img.Length) && (if |w.syms| <= img.Length then w.syms else w.syms[..img.Length]) == syms'
            else w == Walk(next, syms', false)
  {
    RunStep(root, bits, j);
    next, i', syms', done := ptr, i, syms, false;
    if bits[j] == '0' {
      next := Child(ptr, '0');
    } else {
      next := Child(ptr, '1');
    }
    if next.Nil? {
      done := true;
      return;
    }
    if Childless(next) {
      if i >= img.Length {
        assert (syms + [Symbol(next)])[..i] == syms;
        done := true;
        return;
      }
      WritePixel(img, i, Symbol(next), syms);
      syms' := syms + [Symbol(next)];
      i' := i + 1;
      next := root;
    }
  }

  /**
   * Image round trip: with a full tree whose root is internal and which
   * carries every predictive symbol of the data, decoding the encoded
   * symbols with the data's size gives the data back.
   */
  lemma DecodeImageEncoded(t: Tree, data: seq<Byte>)
    requires Full(t) && t.Internal? && SymbolsBelow(t, 511)
    requires forall b :: b in Residuals(data) ==> HasSymbol(t, b)
    ensures DecodedImage(Encoded(Residuals(data), Gen(t, [], Blank(511))), t, |data|) == data
  {
    var syms := Residuals(data);
    forall i | 0 <= i < |syms| ensures HasSymbol(t, syms[i]) {
      assert syms[i] in syms;
    }
    RunEncoded(t, 511, syms);
    ReconstructResiduals(data);
  }
}
