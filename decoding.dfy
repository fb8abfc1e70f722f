/**
 * Decoding walks the tree bit by bit from the root: '0' steps left, any
 * other character steps right; reaching a childless node emits its symbol
 * and returns to the root; stepping onto a null child stops the walk. The
 * text decoder and the image decoder share this walk and differ in what they
 * do with the symbols and with a stop.
 */
module Decoding {
  import opened HuffTree
  import opened Codes

  /** The decoder's state: the traversal pointer, the symbols emitted so far, and whether a null child was hit. */
  datatype Walk = Walk(ptr: Tree, syms: seq<int>, broken: bool)

  /** The walk before any bit: at the root, nothing emitted. */
  function Start(root: Tree): Walk
  {
    Walk(root, [], false)
  }

  /** One bit of the walk. Once broken, the walk stays broken. */
  function Step(root: Tree, w: Walk, c: char): Walk
  {
    if w.broken then w
    else
      var next := Child(w.ptr, c);
      if next.Nil? then w.(broken := true)
      else if Childless(next) then Walk(root, w.syms + [Symbol(next)], false)
      else w.(ptr := next)
  }

  /** The walk over a whole bit-string. */
  function Run(root: Tree, w: Walk, bits: seq<char>): Walk
    decreases |bits|
  {
    if bits == [] then w else Run(root, Step(root, w, bits[0]), bits[1..])
  }

  /** Walking two bit-strings in a row is walking their concatenation. */
  lemma {:induction false} RunAppend(root: Tree, w: Walk, a: seq<char>, b: seq<char>)
    ensures Run(root, w, a + b) == Run(root, Run(root, w, a), b)
    decreases |a|
  {
    if a == [] {
      assert a + b == b;
    } else {
      assert (a + b)[0] == a[0] && (a + b)[1..] == a[1..] + b;
      RunAppend(root, Step(root, w, a[0]), a[1..], b);
    }
  }

  /**
   * Symbols once emitted stay emitted, and a broken walk stays broken with
   * nothing more emitted.
   */
  lemma {:induction false} RunExtends(root: Tree, w: Walk, bits: seq<char>)
    ensures |w.syms| <= |Run(root, w, bits).syms| && Run(root, w, bits).syms[..|w.syms|] == w.syms
    ensures w.broken ==> Run(root, w, bits) == w
    ensures Run(root, w, bits).broken ==> w.broken || bits != []
    decreases |bits|
  {
    if bits != [] {
      var w' := Step(root, w, bits[0]);
      RunExtends(root, w', bits[1..]);
      assert w'.syms[..|w.syms|] == w.syms;
    }
  }

  /**
   * The walk over a prefix of the bits: the whole walk keeps the symbols the
   * prefix emitted, and a prefix that broke is the whole walk.
   */
  lemma RunPrefix(root: Tree, bits: seq<char>, j: nat)
    requires j <= |bits|
    ensures var w := Run(root, Start(root), bits[..j]);
            var full := Run(root, Start(root), bits);
            |w.syms| <= |full.syms| && full.syms[..|w.syms|] == w.syms && (w.broken ==> full == w)
  {
    RunAppend(root, Start(root), bits[..j], bits[j..]);
    assert bits[..j] + bits[j..] == bits;
    RunExtends(root, Run(root, Start(root), bits[..j]), bits[j..]);
  }

  /** The walk over one more bit is one more step of the walk. */
  lemma RunStep(root: Tree, bits: seq<char>, j: nat)
    requires j < |bits|
    ensures Run(root, Start(root), bits[..j + 1]) == Step(root, Run(root, Start(root), bits[..j]), bits[j])
  {
    RunAppend(root, Start(root), bits[..j], [bits[j]]);
    assert bits[..j + 1] == bits[..j] + [bits[j]];
  }

  /** `(char)ptr->symbol`, seen as an unsigned byte: the symbol modulo 256. */
  function ToBytes(syms: seq<int>): (r: seq<Byte>)
    ensures |r| == |syms| && forall i :: 0 <= i < |syms| ==> r[i] == syms[i] % 256
  {
    seq(|syms|, i requires 0 <= i < |syms| => syms[i] % 256)
  }

  /** The five bytes of the string "Error" that `decode` returns on a null child. */
  const ErrorText: seq<Byte> := [69, 114, 114, 111, 114]

  /**
   * What `decode` (header) returns: "" for a null tree, "Error" when the walk
   * hits a null child, and otherwise the emitted symbols (a trailing partial
   * path emits nothing).
   */
  function DecodeResult(bits: seq<char>, root: Tree): seq<Byte>
  {
    if root.Nil? then []
    else
      var w := Run(root, Start(root), bits);
      if w.broken then ErrorText else ToBytes(w.syms)
  }

  /** `decode` (header). */
  method Decode(s: seq<char>, huffmanTree: Tree) returns (res: seq<Byte>)
    ensures res == DecodeResult(s, huffmanTree)
  {
    if huffmanTree.Nil? {
      return [];
    }
    res := [];
    var ptr := huffmanTree;
    ghost var syms: seq<int> := [];
    for i := 0 to |s|
      invariant Run(huffmanTree, Start(huffmanTree), s[..i]) == Walk(ptr, syms, false)
      invariant res == ToBytes(syms)
    {
      RunAppend(huffmanTree, Start(huffmanTree), s[..i], [s[i]]);
      assert s[..i + 1] == s[..i] + [s[i]];
      var c := s[i];
      if c == '0' {
        ptr := Child(ptr, '0');
      } else {
        ptr := Child(ptr, '1');
      }
      if ptr.Nil? {
        RunPrefix(huffmanTree, s, i + 1);
        return ErrorText;
      }
      if Childless(ptr) {
        res := res + [Symbol(ptr) % 256];
        syms := syms + [Symbol(ptr)];
        ptr := huffmanTree;
      }
    }
    assert s[..|s|] == s;
  }

  /** The bits of one code take a walk at the root of a full tree through that symbol's leaf and back to the root. */
  lemma {:induction false} WalkCode(t: Tree, p: seq<char>, k: nat, syms: seq<int>)
    requires Full(t) && t.Internal? && Follow(t, p).Leaf? && k < |p|
    requires k == 0 || Follow(t, p[..k]).Internal?
    ensures Run(t, Walk(if k == 0 then t else Follow(t, p[..k]), syms, false), p[k..]) ==
            Walk(t, syms + [Follow(t, p).symbol], false)
    decreases |p| - k
  {
    var here := if k == 0 then t else Follow(t, p[..k]);
    assert here == Follow(t, p[..k]) by {
      if k == 0 { assert p[..k] == []; }
    }
    FollowAppend(t, p[..k], [p[k]]);
    assert p[..k] + [p[k]] == p[..k + 1];
    var next := Follow(t, p[..k + 1]);
    assert Child(here, p[k]) == next by {
      assert Follow(here, [p[k]]) == Follow(Child(here, p[k]), []);
    }
    assert p[k..][0] == p[k] && p[k..][1..] == p[k + 1..];
    if k + 1 == |p| {
      assert p[..k + 1] == p;
      FollowFull(t, p);
    } else {
      AboveLeafIsInternal(t, p, k + 1);
      FollowFull(t, p[..k + 1]);
      WalkCode(t, p, k + 1, syms);
    }
  }

  /**
   * Walking the encoding of a sequence of symbols of a full tree with an
   * internal root, from the root, emits exactly those symbols and ends at the root.
   */
  lemma {:induction false} RunEncoded(t: Tree, size: nat, xs: seq<int>)
    requires Full(t) && t.Internal? && SymbolsBelow(t, size) && size > 0
    requires forall i :: 0 <= i < |xs| ==> HasSymbol(t, xs[i])
    ensures forall i :: 0 <= i < |xs| ==> 0 <= xs[i] < size
    ensures Run(t, Start(t), Encoded(xs, Gen(t, [], Blank(size)))) == Walk(t, xs, false)
    decreases |xs|
  {
    CodeTable(t, size);
    var table := Gen(t, [], Blank(size));
    if xs != [] {
      var m := |xs| - 1;
      var x := xs[m];
      RunEncoded(t, size, xs[..m]);
      RunAppend(t, Start(t), Encoded(xs[..m], table), table[x]);
      assert table[x] != [];
      WalkCode(t, table[x], 0, xs[..m]);
      assert table[x][0..] == table[x];
      assert xs[..m] + [x] == xs;
    }
  }

  /**
   * Decoding inverts encoding: with a full tree whose root is internal (at
   * least two distinct symbols) and bytes that all have leaves, decoding the
   * encoding gives the bytes back.
   */
  lemma DecodeEncoded(t: Tree, s: seq<Byte>)
    requires Full(t) && t.Internal? && SymbolsBelow(t, 511)
    requires forall i :: 0 <= i < |s| ==> HasSymbol(t, s[i])
    ensures DecodeResult(Encoded(s, Gen(t, [], Blank(511))), t) == s
  {
    var bits := Encoded(s, Gen(t, [], Blank(511)));
    RunEncoded(t, 511, s);
    assert Run(t, Start(t), bits) == Walk(t, s, false);
    ToBytesOfBytes(s);
  }

  lemma ToBytesOfBytes(s: seq<Byte>)
    ensures ToBytes(s) == s
  {
  }

  /**
   * A bit-string that ends part-way down a code is decoded as if the partial
   * path were absent: it is dropped silently, not reported.
   */
  lemma DecodeTrailingPath(t: Tree, s: seq<Byte>, b: int, k: nat)
    requires Full(t) && t.Internal? && SymbolsBelow(t, 511)
    requires forall i :: 0 <= i < |s| ==> HasSymbol(t, s[i])
    requires 0 <= b < 511 && HasSymbol(t, b) && k < |Gen(t, [], Blank(511))[b]|
    ensures DecodeResult(Encoded(s, Gen(t, [], Blank(511))) + Gen(t, [], Blank(511))[b][..k], t) == s
  {
    CodeTable(t, 511);
    var table := Gen(t, [], Blank(511));
    var p := table[b];
    var bits := Encoded(s, table);
    RunEncoded(t, 511, s);
    RunAppend(t, Start(t), bits, p[..k]);
    PartialCode(t, p, 0, k, s);
    assert p[0..k] == p[..k];
    assert Run(t, Start(t), bits + p[..k]) == Walk(if k == 0 then t else Follow(t, p[..k]), s, false);
    ToBytesOfBytes(s);
  }

  /** Walking the first k bits of a code from the root ends, unbroken, at the internal node they reach. */
  lemma {:induction false} PartialCode(t: Tree, p: seq<char>, j: nat, k: nat, syms: seq<int>)
    requires Full(t) && t.Internal? && Follow(t, p).Leaf? && j <= k < |p|
    requires j == 0 || Follow(t, p[..j]).Internal?
    ensures Run(t, Walk(if j == 0 then t else Follow(t, p[..j]), syms, false), p[j..k]) ==
            Walk(if k == 0 then t else Follow(t, p[..k]), syms, false)
    decreases k - j
  {
    if j < k {
      var here := if j == 0 then t else Follow(t, p[..j]);
      assert here == Follow(t, p[..j]) by {
        if j == 0 { assert p[..j] == []; }
      }
      FollowAppend(t, p[..j], [p[j]]);
      assert p[..j] + [p[j]] == p[..j + 1];
      var next := Follow(t, p[..j + 1]);
      assert Child(here, p[j]) == next by {
        assert Follow(here, [p[j]]) == Follow(Child(here, p[j]), []);
      }
      AboveLeafIsInternal(t, p, j + 1);
      FollowFull(t, p[..j + 1]);
      assert p[j..k][0] == p[j] && p[j..k][1..] == p[j + 1..k];
      PartialCode(t, p, j + 1, k, syms);
    } else {
      assert p[j..k] == [];
      if k == 0 { assert p[..k] == []; }
    }
  }

  /**
   * On a one-leaf tree every code is empty, so a non-empty input encodes to
   * nothing and decodes to nothing; and any non-empty bit-string steps onto a
   * null child and decodes to "Error".
   */
  lemma SingleLeaf(sym: int, f: int, s: seq<int>, bits: seq<char>)
    requires 0 <= sym < 511 && forall i :: 0 <= i < |s| ==> s[i] == sym
    ensures Encoded(s, Gen(Leaf(sym, f), [], Blank(511))) == []
    ensures DecodeResult(Encoded(s, Gen(Leaf(sym, f), [], Blank(511))), Leaf(sym, f)) == []
    ensures bits != [] ==> DecodeResult(bits, Leaf(sym, f)) == ErrorText
  {
    var t := Leaf(sym, f);
    var table := Gen(t, [], Blank(511));
    assert table[sym] == [];
    EncodedOfEmptyCodes(s, table, sym);
    if bits != [] {
      RunExtends(t, Step(t, Start(t), bits[0]), bits[1..]);
    }
  }

  lemma {:induction false} EncodedOfEmptyCodes(s: seq<int>, table: seq<seq<char>>, sym: int)
    requires 0 <= sym < |table| && table[sym] == [] && forall i :: 0 <= i < |s| ==> s[i] == sym
    ensures Encoded(s, table) == []
    decreases |s|
  {
    if s != [] {
      EncodedOfEmptyCodes(s[..|s| - 1], table, sym);
    }
  }

  /**
   * Once the walk steps onto a null child, the result is "Error" whatever
   * follows: no partial output is returned.
   */
  lemma DecodeMissingChild(t: Tree, bits: seq<char>, c: char, rest: seq<char>)
    requires !t.Nil?
    requires !Run(t, Start(t), bits).broken && Child(Run(t, Start(t), bits).ptr, c).Nil?
    ensures DecodeResult(bits + [c] + rest, t) == ErrorText
  {
    RunAppend(t, Start(t), bits + [c], rest);
    RunAppend(t, Start(t), bits, [c]);
    RunExtends(t, Run(t, Start(t), bits + [c]), rest);
  }

  /** '0' is the only character that steps left: any other behaves as '1'. */
  function Normalized(bits: seq<char>): (r: seq<char>)
    ensures |r| == |bits| && forall i :: 0 <= i < |bits| ==> r[i] == (if bits[i] == '0' then '0' else '1')
  {
    seq(|bits|, i requires 0 <= i < |bits| => if bits[i] == '0' then '0' else '1')
  }

  lemma {:induction false} RunNormalized(root: Tree, w: Walk, bits: seq<char>)
    ensures Run(root, w, bits) == Run(root, w, Normalized(bits))
    decreases |bits|
  {
    if bits != [] {
      assert Normalized(bits)[1..] == Normalized(bits[1..]);
      assert Child(w.ptr, bits[0]) == Child(w.ptr, Normalized(bits)[0]);
      RunNormalized(root, Step(root, w, bits[0]), bits[1..]);
    }
  }

  /** Decoding reads any character other than '0' as '1'. */
  lemma DecodeReadsNonZeroAsOne(bits: seq<char>, t: Tree)
    ensures DecodeResult(bits, t) == DecodeResult(Normalized(bits), t)
  {
    RunNormalized(t, Start(t), bits);
  }
}
