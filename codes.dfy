/**
 * Code tables and encoding: `generateCodes` walks the tree writing each
 * leaf's root-to-leaf path ('0' for left, '1' for right) into a table indexed
 * by symbol; `getHuffmanCodes` clears the table first; `encode` concatenates
 * the codes of the input bytes.
 */
module Codes {
  import opened HuffTree

  /** A table of `size` empty strings, as `getHuffmanCodes` clears it. */
  function Blank(size: nat): (r: seq<seq<char>>)
    ensures |r| == size && forall i :: 0 <= i < size ==> r[i] == []
  {
    seq(size, _ => [])
  }

  /**
   * The table `generateCodes(t, code, codes)` leaves behind when it starts
   * from `table`: a childless node writes `code` at its symbol, an internal
   * node does its left subtree with `code + "0"`, then its right with `code + "1"`.
   */
  function Gen(t: Tree, code: seq<char>, table: seq<seq<char>>): (r: seq<seq<char>>)
    requires SymbolsBelow(t, |table|) && |table| > 0
    ensures |r| == |table|
  {
    if t.Nil? then table
    else if Childless(t) then table[Symbol(t) := code]
    else Gen(t.right, code + ['1'], Gen(t.left, code + ['0'], table))
  }

  /** In a full tree, entries for symbols the tree does not carry are left as they were. */
  lemma {:induction false} GenUntouched(t: Tree, code: seq<char>, table: seq<seq<char>>, s: int)
    requires Full(t) && SymbolsBelow(t, |table|) && |table| > 0
    requires 0 <= s < |table| && !HasSymbol(t, s)
    ensures |Gen(t, code, table)| == |table| && Gen(t, code, table)[s] == table[s]
  {
    match t
    case Leaf(_, _) =>
    case Internal(_, l, r) =>
      GenUntouched(l, code + ['0'], table, s);
      GenUntouched(r, code + ['1'], Gen(l, code + ['0'], table), s);
  }

  /**
   * In a full tree, the entry of every symbol it carries is `code` followed by
   * a path from the root to a leaf carrying that symbol.
   */
  lemma {:induction false} GenPath(t: Tree, code: seq<char>, table: seq<seq<char>>, s: int)
    requires Full(t) && SymbolsBelow(t, |table|) && |table| > 0 && HasSymbol(t, s)
    ensures |Gen(t, code, table)| == |table| && 0 <= s < |table|
    ensures var c := Gen(t, code, table)[s];
            |code| <= |c| && c[..|code|] == code &&
            Follow(t, c[|code|..]).Leaf? && Follow(t, c[|code|..]).symbol == s
  {
    SymbolsBelowIff(t, |table|);
    match t
    case Leaf(_, _) =>
      assert Gen(t, code, table)[s] == code;
      assert code[|code|..] == [];
    case Internal(_, l, r) =>
      var left := Gen(l, code + ['0'], table);
      var c := Gen(t, code, table)[s];
      if HasSymbol(r, s) {
        GenPath(r, code + ['1'], left, s);
        var q := c[|code| + 1..];
        assert c[|code|..] == ['1'] + q;
        assert Follow(t, c[|code|..]) == Follow(r, q);
      } else {
        GenUntouched(r, code + ['1'], left, s);
        GenPath(l, code + ['0'], table, s);
        var q := c[|code| + 1..];
        assert c[|code|..] == ['0'] + q;
        assert Follow(t, c[|code|..]) == Follow(l, q);
      }
  }

  /**
   * `generateCodes`: writes into `codes` exactly the table `Gen` describes,
   * recursing left then right.
   */
  method GenerateCodes(h: Tree, code: seq<char>, codes: array<seq<char>>)
    requires SymbolsBelow(h, codes.Length) && codes.Length > 0
    modifies codes
    ensures codes[..] == Gen(h, code, old(codes[..]))
    decreases h
  {
    if h.Nil? {
      return;
    }
    if Childless(h) {
      codes[Symbol(h)] := code;
      return;
    }
    GenerateCodes(h.left, code + "0", codes);
    GenerateCodes(h.right, code + "1", codes);
  }

  /**
   * `getHuffmanCodes` / `getHuffmanCodesForImage` (a 511-entry table) and the
   * console `getHuffmanCodes` (256 entries): clear every entry, then generate.
   */
  method GetHuffmanCodes(h: Tree, size: nat) returns (codes: seq<seq<char>>)
    requires size > 0 && SymbolsBelow(h, size)
    ensures codes == Gen(h, [], Blank(size))
  {
    // The static table may still hold an earlier call's codes; here its
    // entries are unknown until the loop clears them.
    var table := new seq<char>[size];
    for i := 0 to size
      invariant forall j :: 0 <= j < i ==> table[j] == []
    {
      table[i] := "";
    }
    assert table[..] == Blank(size);
    GenerateCodes(h, "", table);
    codes := table[..];
  }

  /**
   * What the code table of a full tree holds: each symbol of the tree gets a
   * root-to-leaf path reaching a leaf with that symbol, every other entry is
   * empty, and the codes are non-empty exactly when the root is internal (a
   * one-leaf tree gives its symbol the empty code).
   */
  lemma CodeTable(t: Tree, size: nat)
    requires Full(t) && SymbolsBelow(t, size) && size > 0
    ensures |Gen(t, [], Blank(size))| == size
    ensures forall s :: HasSymbol(t, s) ==>
              0 <= s < size && Follow(t, Gen(t, [], Blank(size))[s]).Leaf? &&
              Follow(t, Gen(t, [], Blank(size))[s]).symbol == s
    ensures forall s :: 0 <= s < size && !HasSymbol(t, s) ==> Gen(t, [], Blank(size))[s] == []
    ensures forall s :: HasSymbol(t, s) ==> (Gen(t, [], Blank(size))[s] != [] <==> t.Internal?)
  {
    var table := Gen(t, [], Blank(size));
    forall s | HasSymbol(t, s)
      ensures 0 <= s < size && Follow(t, table[s]).Leaf? && Follow(t, table[s]).symbol == s
      ensures table[s] != [] <==> t.Internal?
    {
      GenPath(t, [], Blank(size), s);
      assert table[s][0..] == table[s];
    }
    forall s | 0 <= s < size && !HasSymbol(t, s) ensures table[s] == [] {
      GenUntouched(t, [], Blank(size), s);
    }
  }

  /**
   * The codes of a full tree are prefix-free: the code of one symbol is never
   * a prefix of (or equal to) the code of another.
   */
  lemma PrefixFree(t: Tree, size: nat, a: int, b: int)
    requires Full(t) && SymbolsBelow(t, size) && size > 0
    requires HasSymbol(t, a) && HasSymbol(t, b) && a != b
    ensures |Gen(t, [], Blank(size))| == size && 0 <= a < size && 0 <= b < size
    ensures var table := Gen(t, [], Blank(size));
            !(|table[a]| <= |table[b]| && table[b][..|table[a]|] == table[a])
  {
    CodeTable(t, size);
    var table := Gen(t, [], Blank(size));
    if |table[a]| <= |table[b]| && table[b][..|table[a]|] == table[a] {
      var q := table[b][|table[a]|..];
      assert table[b] == table[a] + q;
      FollowAppend(t, table[a], q);
      if q != [] {
        FollowBelowLeaf(Follow(t, table[a]), q);
      }
    }
  }

  /** The bits `encode` produces: the codes of the symbols of `s`, in order. */
  function Encoded(s: seq<int>, table: seq<seq<char>>): seq<char>
    requires forall i :: 0 <= i < |s| ==> 0 <= s[i] < |table|
  {
    if s == [] then [] else Encoded(s[..|s| - 1], table) + table[s[|s| - 1]]
  }

  /** `encode` (header): look the codes up by unsigned byte value and concatenate them. */
  method Encode(s: seq<Byte>, huffmanTree: Tree) returns (res: seq<char>)
    requires SymbolsBelow(huffmanTree, 511)
    ensures res == Encoded(s, Gen(huffmanTree, [], Blank(511)))
  {
    var codes := GetHuffmanCodes(huffmanTree, 511);
    res := "";
    for i := 0 to |s|
      invariant res == Encoded(s[..i], codes)
    {
      assert s[..i + 1][..i] == s[..i];
      res := res + codes[s[i]];
    }
    assert s[..|s|] == s;
  }

  /** The sum over table entries v of `freqs[v]` times the length of the code of v. */
  function Cost(freqs: seq<int>, table: seq<seq<char>>): int
    requires |freqs| <= |table|
  {
    if freqs == [] then 0
    else
      var n := |freqs| - 1;
      Cost(freqs[..n], table) + freqs[n] * |table[n]|
  }

  /** One more occurrence of x costs one more code of x. */
  lemma {:induction false} CostBump(freqs: seq<int>, table: seq<seq<char>>, x: int)
    requires |freqs| <= |table| && 0 <= x < |freqs|
    ensures Cost(freqs[x := freqs[x] + 1], table) == Cost(freqs, table) + |table[x]|
    decreases |freqs|
  {
    var n := |freqs| - 1;
    var g := freqs[x := freqs[x] + 1];
    if x < n {
      assert g[..n] == freqs[..n][x := freqs[x] + 1];
      CostBump(freqs[..n], table, x);
    } else {
      assert g[..n] == freqs[..n];
    }
  }

  lemma {:induction false} CostOfZeros(n: nat, table: seq<seq<char>>)
    requires n <= |table|
    ensures Cost(seq(n, _ => 0), table) == 0
  {
    if n > 0 {
      assert seq(n, _ => 0)[..n - 1] == seq(n - 1, _ => 0);
      CostOfZeros(n - 1, table);
    }
  }

  /**
   * The length of the encoding is the sum, over symbols, of the symbol's
   * count in the input times the length of its code.
   */
  lemma {:induction false} EncodedLength(s: seq<int>, table: seq<seq<char>>)
    requires forall i :: 0 <= i < |s| ==> 0 <= s[i] < |table|
    ensures |Encoded(s, table)| == Cost(seq(|table|, v => multiset(s)[v]), table)
    decreases |s|
  {
    var n := |table|;
    if s == [] {
      assert seq(n, v => multiset(s)[v]) == seq(n, _ => 0);
      CostOfZeros(n, table);
    } else {
      var m := |s| - 1;
      var x := s[m];
      EncodedLength(s[..m], table);
      assert s == s[..m] + [x];
      assert multiset(s) == multiset(s[..m]) + multiset{x};
      assert seq(n, v => multiset(s)[v]) == seq(n, v => multiset(s[..m])[v])[x := multiset(s[..m])[x] + 1];
      CostBump(seq(n, v => multiset(s[..m])[v]), table, x);
    }
  }
}
