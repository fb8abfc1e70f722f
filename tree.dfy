/**
 * Huffman tree nodes (`HuffNode`) and the facts about them that the heap,
 * the builders, the code table, the decoder and the serializer share.
 */
module HuffTree {

  /** A C++ `unsigned char`: one byte of text or of pixel data. */
  type Byte = b: int | 0 <= b < 256

  /**
   * A `HuffNode*`. `Nil` is the null pointer; a node whose two children are
   * null is a leaf. An internal node may have a null child only when it was
   * parsed from damaged text (the builders never make one).
   */
  datatype Tree =
    | Nil
    | Leaf(symbol: int, f: int)
    | Internal(f: int, left: Tree, right: Tree)

  /** A non-null node pointer, as the heap stores them. */
  type Node = t: Tree | !t.Nil? witness Leaf(0, 0)

  /** `compareNodes`: the ordering the forest view sorts by. */
  predicate CompareNodes(a: Node, b: Node)
  {
    a.f < b.f
  }

  /** `compareNodes` is a strict weak ordering, as `std::sort` requires of it. */
  lemma CompareNodesIsStrictWeakOrder(a: Node, b: Node, c: Node)
    ensures !CompareNodes(a, a)
    ensures CompareNodes(a, b) && CompareNodes(b, c) ==> CompareNodes(a, c)
    ensures !CompareNodes(a, b) && !CompareNodes(b, a) && !CompareNodes(b, c) && !CompareNodes(c, b)
            ==> !CompareNodes(a, c) && !CompareNodes(c, a)
  {
  }

  /** The frequency of a pointer, counting 0 for null (as the parser does). */
  function Freq(t: Tree): int
  {
    if t.Nil? then 0 else t.f
  }

  /** One decoding step: '0' goes left, any other character right; a leaf's children are null. */
  function Child(t: Tree, c: char): Tree
  {
    match t
    case Internal(_, l, r) => if c == '0' then l else r
    case _ => Nil
  }

  /** The node reached from `t` along the path `p`. */
  function Follow(t: Tree, p: seq<char>): Tree
    decreases |p|
  {
    if p == [] then t else Follow(Child(t, p[0]), p[1..])
  }

  /**
   * `!h->left && !h->right`: the test the coder uses for a leaf. Besides a
   * leaf, it also holds for an internal node whose two children are missing
   * (the parser builds one from an `I` followed by nothing parsable).
   */
  predicate Childless(t: Tree)
  {
    !t.Nil? && Child(t, '0').Nil? && Child(t, '1').Nil?
  }

  /** The `symbol` field: an internal node's is 0. */
  function Symbol(t: Tree): int
  {
    if t.Leaf? then t.symbol else 0
  }

  /** Non-null, and every internal node has two non-null children. */
  predicate Full(t: Tree)
  {
    match t
    case Nil => false
    case Leaf(_, _) => true
    case Internal(_, l, r) => Full(l) && Full(r)
  }

  /** Every internal node's frequency is the sum of its children's. */
  predicate Conserves(t: Tree)
  {
    match t
    case Nil => true
    case Leaf(_, _) => true
    case Internal(f, l, r) => f == Freq(l) + Freq(r) && Conserves(l) && Conserves(r)
  }

  /** The leaves of `t`, left to right. */
  function Leaves(t: Tree): seq<Node>
  {
    match t
    case Nil => []
    case Leaf(_, _) => [t]
    case Internal(_, l, r) => Leaves(l) + Leaves(r)
  }

  /** Some leaf of `t` carries symbol `s`. */
  predicate HasSymbol(t: Tree, s: int)
  {
    match t
    case Nil => false
    case Leaf(sym, _) => sym == s
    case Internal(_, l, r) => HasSymbol(l, s) || HasSymbol(r, s)
  }

  /** Every leaf symbol lies in 0..n-1 (so it indexes an n-entry code table). */
  predicate SymbolsBelow(t: Tree, n: int)
  {
    match t
    case Nil => true
    case Leaf(sym, _) => 0 <= sym < n
    case Internal(_, l, r) => SymbolsBelow(l, n) && SymbolsBelow(r, n)
  }

  /** The sum of the frequencies of a list of nodes. */
  function SumF(ns: seq<Node>): int
  {
    if ns == [] then 0 else SumF(ns[..|ns| - 1]) + ns[|ns| - 1].f
  }

  lemma {:induction false} SumFAppend(a: seq<Node>, b: seq<Node>)
    ensures SumF(a + b) == SumF(a) + SumF(b)
    decreases |b|
  {
    if b == [] {
      assert a + b == a;
    } else {
      assert (a + b)[..|a + b| - 1] == a + b[..|b| - 1];
      SumFAppend(a, b[..|b| - 1]);
    }
  }

  /** In a tree that conserves frequency, the root's frequency is the sum over its leaves. */
  lemma {:induction false} ConservedRootIsLeafSum(t: Tree)
    requires Conserves(t)
    ensures Freq(t) == SumF(Leaves(t))
  {
    match t
    case Nil =>
    case Leaf(_, _) =>
      assert Leaves(t)[..0] == [];
    case Internal(_, l, r) =>
      ConservedRootIsLeafSum(l);
      ConservedRootIsLeafSum(r);
      SumFAppend(Leaves(l), Leaves(r));
  }

  /** A full tree has at least one leaf. */
  lemma {:induction false} FullHasLeaves(t: Tree)
    requires Full(t)
    ensures |Leaves(t)| > 0
  {
    if t.Internal? {
      FullHasLeaves(t.left);
    }
  }

  /** A symbol occurs in the tree exactly when some leaf carries it. */
  lemma {:induction false} HasSymbolIffLeaf(t: Tree, s: int)
    ensures HasSymbol(t, s) <==> exists i :: 0 <= i < |Leaves(t)| && Leaves(t)[i].Leaf? && Leaves(t)[i].symbol == s
  {
    match t
    case Nil =>
    case Leaf(_, _) =>
      assert Leaves(t)[0] == t;
    case Internal(_, l, r) =>
      HasSymbolIffLeaf(l, s);
      HasSymbolIffLeaf(r, s);
      var L, R := Leaves(l), Leaves(r);
      if HasSymbol(l, s) {
        var i :| 0 <= i < |L| && L[i].Leaf? && L[i].symbol == s;
        assert Leaves(t)[i] == L[i];
        assert 0 <= i < |Leaves(t)| && Leaves(t)[i].Leaf? && Leaves(t)[i].symbol == s;
      } else if HasSymbol(r, s) {
        var i :| 0 <= i < |R| && R[i].Leaf? && R[i].symbol == s;
        assert Leaves(t)[|L| + i] == R[i];
        assert 0 <= |L| + i < |Leaves(t)| && Leaves(t)[|L| + i].Leaf? && Leaves(t)[|L| + i].symbol == s;
      } else {
        forall i | 0 <= i < |Leaves(t)| ensures !(Leaves(t)[i].Leaf? && Leaves(t)[i].symbol == s) {
          if i < |L| { assert Leaves(t)[i] == L[i]; } else { assert Leaves(t)[i] == R[i - |L|]; }
        }
      }
  }

  /** Following a path in two parts is following the first part, then the second. */
  lemma {:induction false} FollowAppend(t: Tree, p: seq<char>, q: seq<char>)
    ensures Follow(t, p + q) == Follow(Follow(t, p), q)
    decreases |p|
  {
    if p == [] {
      assert p + q == q;
    } else {
      assert (p + q)[0] == p[0] && (p + q)[1..] == p[1..] + q;
      FollowAppend(Child(t, p[0]), p[1..], q);
    }
  }

  /** In a full tree every node reachable by a path is full, and only leaves are childless. */
  lemma {:induction false} FollowFull(t: Tree, p: seq<char>)
    requires Full(t) && Follow(t, p) != Nil
    ensures Full(Follow(t, p)) && (Childless(Follow(t, p)) <==> Follow(t, p).Leaf?)
    decreases |p|
  {
    if p != [] {
      if !t.Internal? {
        FollowBelowLeaf(t, p);
      } else {
        FollowFull(Child(t, p[0]), p[1..]);
      }
    }
  }

  /** Nothing lies below a leaf or below null. */
  lemma {:induction false} FollowBelowLeaf(t: Tree, q: seq<char>)
    requires !t.Internal? && q != []
    ensures Follow(t, q) == Nil
    decreases |q|
  {
    if |q| > 1 {
      FollowBelowLeaf(Nil, q[1..]);
    }
  }

  /**
   * Every node strictly above a leaf on its path is internal: a path that
   * reaches a leaf passes only through internal nodes.
   */
  lemma AboveLeafIsInternal(t: Tree, p: seq<char>, k: nat)
    requires Follow(t, p).Leaf? && k < |p|
    ensures Follow(t, p[..k]).Internal?
  {
    FollowAppend(t, p[..k], p[k..]);
    assert p[..k] + p[k..] == p;
    if !Follow(t, p[..k]).Internal? {
      FollowBelowLeaf(Follow(t, p[..k]), p[k..]);
    }
  }

  /** All symbols are below n exactly when every symbol the tree carries is. */
  lemma {:induction false} SymbolsBelowIff(t: Tree, n: int)
    ensures SymbolsBelow(t, n) ==> forall s :: HasSymbol(t, s) ==> 0 <= s < n
    ensures (forall s :: HasSymbol(t, s) ==> 0 <= s < n) ==> SymbolsBelow(t, n)
  {
    match t
    case Nil =>
    case Leaf(sym, _) =>
      assert HasSymbol(t, sym);
    case Internal(_, l, r) =>
      SymbolsBelowIff(l, n);
      SymbolsBelowIff(r, n);
      if forall s :: HasSymbol(t, s) ==> 0 <= s < n {
        forall s | HasSymbol(l, s) ensures 0 <= s < n { assert HasSymbol(t, s); }
        forall s | HasSymbol(r, s) ensures 0 <= s < n { assert HasSymbol(t, s); }
      }
  }
}
