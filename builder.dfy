/**
 * Greedy Huffman construction over a frequency table: one leaf per positive
 * count is pushed into a `HuffHeap`, then the two minima are merged under a
 * new internal node until one node remains. The text and image builders of
 * both source files share this part; they differ only in how they count and
 * in the heap capacity.
 */
module Builder {
  import opened HuffTree
  import opened Heap

  /** `freqs[v]` for v < n: how many times v occurs in `xs` (the counting array). */
  function Counts(xs: seq<int>, n: nat): (c: seq<int>)
    ensures |c| == n && forall v :: 0 <= v < n ==> c[v] == multiset(xs)[v]
  {
    seq(n, v => multiset(xs)[v])
  }

  /** The leaves pushed for a table: `HuffNode(i, freqs[i])` for each positive count, in index order. */
  function LeafNodes(freqs: seq<int>): seq<Node>
  {
    if freqs == [] then []
    else
      var n := |freqs| - 1;
      LeafNodes(freqs[..n]) + (if freqs[n] > 0 then [Leaf(n, freqs[n])] else [])
  }

  /** All leaves of a forest, tree by tree. */
  function ForestLeaves(ts: seq<Node>): seq<Node>
  {
    if ts == [] then [] else ForestLeaves(ts[..|ts| - 1]) + Leaves(ts[|ts| - 1])
  }

  /**
   * Each node occurs among the table's leaves once if it is a leaf whose
   * symbol has that positive count, and otherwise not at all.
   */
  lemma {:induction false} LeafNodesCount(freqs: seq<int>, x: Node)
    ensures multiset(LeafNodes(freqs))[x] ==
            if x.Leaf? && 0 <= x.symbol < |freqs| && x.f == freqs[x.symbol] > 0 then 1 else 0
    decreases |freqs|
  {
    if freqs != [] {
      var n := |freqs| - 1;
      LeafNodesCount(freqs[..n], x);
    }
  }

  lemma {:induction false} LeafNodesPrefix(freqs: seq<int>, i: nat)
    requires i <= |freqs|
    ensures |LeafNodes(freqs[..i])| <= |LeafNodes(freqs)|
    decreases |freqs|
  {
    if i < |freqs| {
      var n := |freqs| - 1;
      assert freqs[..n][..i] == freqs[..i];
      LeafNodesPrefix(freqs[..n], i);
    } else {
      assert freqs[..i] == freqs;
    }
  }

  /** The leaves of the first i + 1 counts: those of the first i, then the leaf of count i when it is positive. */
  lemma LeafNodesSnoc(freqs: seq<int>, i: nat)
    requires i < |freqs|
    ensures LeafNodes(freqs[..i + 1]) == LeafNodes(freqs[..i]) + if freqs[i] > 0 then [Leaf(i, freqs[i])] else []
  {
    assert freqs[..i + 1][..i] == freqs[..i];
  }

  /** The step of `LeafNodesSnoc` seen through lengths and multisets, with the prefix bound. */
  lemma LeafNodesStep(freqs: seq<int>, i: nat)
    requires i < |freqs|
    ensures |LeafNodes(freqs[..i + 1])| <= |LeafNodes(freqs)|
    ensures |LeafNodes(freqs[..i + 1])| == |LeafNodes(freqs[..i])| + (if freqs[i] > 0 then 1 else 0)
    ensures multiset(LeafNodes(freqs[..i + 1])) ==
            multiset(LeafNodes(freqs[..i])) + (if freqs[i] > 0 then multiset{Leaf(i, freqs[i])} else multiset{})
  {
    LeafNodesPrefix(freqs, i + 1);
    LeafNodesSnoc(freqs, i);
  }

  lemma {:induction false} LeafNodesAtMost(freqs: seq<int>)
    ensures |LeafNodes(freqs)| <= |freqs|
    decreases |freqs|
  {
    if freqs != [] {
      LeafNodesAtMost(freqs[..|freqs| - 1]);
    }
  }

  lemma {:induction false} ForestLeavesOfLeafNodes(freqs: seq<int>)
    ensures ForestLeaves(LeafNodes(freqs)) == LeafNodes(freqs)
    decreases |freqs|
  {
    if freqs != [] {
      var n := |freqs| - 1;
      ForestLeavesOfLeafNodes(freqs[..n]);
      if freqs[n] > 0 {
        var ls := LeafNodes(freqs);
        assert ls[..|ls| - 1] == LeafNodes(freqs[..n]);
      } else {
        assert LeafNodes(freqs) == LeafNodes(freqs[..n]);
      }
    }
  }

  /** The sum of a table's positive entries. */
  function PositiveTotal(freqs: seq<int>): int
  {
    if freqs == [] then 0
    else
      var n := |freqs| - 1;
      PositiveTotal(freqs[..n]) + (if freqs[n] > 0 then freqs[n] else 0)
  }

  /** The leaves pushed for a table carry its positive total. */
  lemma {:induction false} LeafNodesTotal(freqs: seq<int>)
    ensures SumF(LeafNodes(freqs)) == PositiveTotal(freqs)
    decreases |freqs|
  {
    if freqs != [] {
      var n := |freqs| - 1;
      LeafNodesTotal(freqs[..n]);
      if freqs[n] > 0 {
        var y: Node := Leaf(n, freqs[n]);
        assert LeafNodes(freqs) == LeafNodes(freqs[..n]) + [y];
        SumFAppend(LeafNodes(freqs[..n]), [y]);
        assert SumF([y]) == y.f by {
          assert [y][..0] == [];
        }
      } else {
        assert LeafNodes(freqs) == LeafNodes(freqs[..n]);
      }
    }
  }

  /** One more occurrence of `x` raises the table's total by one. */
  lemma {:induction false} BumpTotal(freqs: seq<int>, x: int)
    requires 0 <= x < |freqs| && freqs[x] >= 0
    ensures PositiveTotal(freqs[x := freqs[x] + 1]) == PositiveTotal(freqs) + 1
    decreases |freqs|
  {
    var n := |freqs| - 1;
    var g := freqs[x := freqs[x] + 1];
    if x < n {
      assert g[..n] == freqs[..n][x := freqs[x] + 1];
      BumpTotal(freqs[..n], x);
    } else {
      assert g[..n] == freqs[..n];
    }
  }

  /** Counting one more element bumps its entry. */
  lemma CountsSnoc(xs: seq<int>, x: int, n: nat)
    requires 0 <= x < n
    ensures Counts(xs + [x], n) == Counts(xs, n)[x := Counts(xs, n)[x] + 1]
  {
    assert multiset(xs + [x]) == multiset(xs) + multiset{x};
  }

  /** Counting the element at i of a sequence after its first i. */
  lemma CountsPrefix(xs: seq<int>, i: nat, n: nat)
    requires i < |xs| && 0 <= xs[i] < n
    ensures Counts(xs[..i + 1], n) == Counts(xs[..i], n)[xs[i] := Counts(xs[..i], n)[xs[i]] + 1]
  {
    CountsSnoc(xs[..i], xs[i], n);
    assert xs[..i + 1] == xs[..i] + [xs[i]];
  }

  /** The counts of values all below n add up to the number of values. */
  lemma {:induction false} CountsTotal(xs: seq<int>, n: nat)
    requires forall i :: 0 <= i < |xs| ==> 0 <= xs[i] < n
    ensures PositiveTotal(Counts(xs, n)) == |xs|
    decreases |xs|
  {
    if xs == [] {
      assert Counts(xs, n) == seq(n, v => 0);
      ZeroTableTotal(n);
      LeafNodesTotal(Counts(xs, n));
    } else {
      var m := |xs| - 1;
      assert xs == xs[..m] + [xs[m]];
      CountsTotal(xs[..m], n);
      CountsSnoc(xs[..m], xs[m], n);
      BumpTotal(Counts(xs[..m], n), xs[m]);
    }
  }

  lemma {:induction false} ZeroTableTotal(n: nat)
    ensures LeafNodes(seq(n, v => 0)) == []
    decreases n
  {
    if n > 0 {
      assert seq(n, v => 0)[..n - 1] == seq(n - 1, v => 0);
      ZeroTableTotal(n - 1);
    }
  }

  /** A forest being merged: its trees are well formed and together hold the given leaves and their total. */
  ghost predicate GoodForest(forest: seq<Node>, leaves: seq<Node>)
  {
    WellFormed(forest) &&
    multiset(ForestLeaves(forest)) == multiset(leaves) &&
    SumF(forest) == SumF(leaves)
  }

  lemma {:induction false} ForestLeavesAppend(a: seq<Node>, b: seq<Node>)
    ensures ForestLeaves(a + b) == ForestLeaves(a) + ForestLeaves(b)
    decreases |b|
  {
    if b == [] {
      assert a + b == a;
    } else {
      assert (a + b)[..|a + b| - 1] == a + b[..|b| - 1];
      ForestLeavesAppend(a, b[..|b| - 1]);
    }
  }

  lemma SplitAround(forest: seq<Node>, i: int)
    requires 0 <= i < |forest|
    ensures forest == forest[..i] + [forest[i]] + forest[i + 1..]
  {
  }

  /** `rest` is `forest` with one occurrence of `x` taken out: its node, its leaves and its frequency. */
  ghost predicate Removed(forest: seq<Node>, x: Node, rest: seq<Node>)
  {
    RemovedNode(forest, x, rest) && RemovedTotals(forest, x, rest)
  }

  /** `rest` is `forest` less one occurrence of the node `x`. */
  ghost predicate RemovedNode(forest: seq<Node>, x: Node, rest: seq<Node>)
  {
    |rest| == |forest| - 1 && multiset(forest) == multiset(rest) + multiset{x} &&
    (forall t :: t in rest ==> t in forest)
  }

  /** `rest` has the leaves and the total of `forest` less those of `x`. */
  ghost predicate RemovedTotals(forest: seq<Node>, x: Node, rest: seq<Node>)
  {
    SumF(forest) == SumF(rest) + x.f &&
    multiset(ForestLeaves(forest)) == multiset(ForestLeaves(rest)) + multiset(Leaves(x))
  }

  /** Any occurrence of `x` in a forest can be taken out. */
  lemma RemoveTree(forest: seq<Node>, x: Node) returns (rest: seq<Node>)
    requires x in multiset(forest)
    ensures Removed(forest, x, rest)
  {
    var i :| 0 <= i < |forest| && forest[i] == x;
    var pre, post := forest[..i], forest[i + 1..];
    SplitAround(forest, i);
    rest := pre + post;
    RemoveTotals(pre, x, post);
    forall t | t in rest ensures t in forest {
      assert t in multiset(rest);
    }
  }

  /** Cutting a tree out of the middle of a forest subtracts its leaves and its frequency. */
  lemma RemoveTotals(pre: seq<Node>, x: Node, post: seq<Node>)
    ensures RemovedTotals(pre + [x] + post, x, pre + post)
  {
    SumFAppend(pre + [x], post);
    SumFAppend(pre, [x]);
    SumFAppend(pre, post);
    assert SumF([x]) == x.f by {
      assert [x][..0] == [];
    }
    ForestLeavesAppend(pre + [x], post);
    ForestLeavesAppend(pre, [x]);
    ForestLeavesAppend(pre, post);
    assert ForestLeaves([x]) == Leaves(x) by {
      assert [x][..0] == [];
    }
  }

  /** `new HuffNode(left->f + right->f, left, right)`. */
  function Join(left: Node, right: Node): Node
  {
    Internal(left.f + right.f, left, right)
  }

  /** The table's leaves, as a forest of one-node trees, are a good forest. */
  lemma LeafForest(freqs: seq<int>)
    ensures GoodForest(LeafNodes(freqs), LeafNodes(freqs))
  {
    forall t | t in LeafNodes(freqs) ensures Full(t) && Conserves(t) {
      LeafNodesCount(freqs, t);
    }
    ForestLeavesOfLeafNodes(freqs);
  }

  /** Every tree of the forest is full and conserves frequency. */
  ghost predicate WellFormed(forest: seq<Node>)
  {
    forall t :: t in forest ==> Full(t) && Conserves(t)
  }

  /** Appending the join of two well-formed trees keeps a forest well formed. */
  lemma JoinWellFormed(rest: seq<Node>, left: Node, right: Node)
    requires WellFormed(rest) && Full(left) && Conserves(left) && Full(right) && Conserves(right)
    ensures WellFormed(rest + [Join(left, right)])
  {
    forall t | t in rest + [Join(left, right)] ensures Full(t) && Conserves(t) {
      if t != Join(left, right) {
        assert t in rest;
      }
    }
  }

  /** Appending the join of two trees adds both trees' leaves and frequencies. */
  lemma JoinTotals(rest: seq<Node>, left: Node, right: Node)
    ensures multiset(ForestLeaves(rest + [Join(left, right)])) ==
            multiset(ForestLeaves(rest)) + multiset(Leaves(left)) + multiset(Leaves(right))
    ensures SumF(rest + [Join(left, right)]) == SumF(rest) + left.f + right.f
  {
    var merged := Join(left, right);
    ForestLeavesAppend(rest, [merged]);
    assert ForestLeaves([merged]) == Leaves(merged) by {
      assert [merged][..0] == [];
    }
    SumFAppend(rest, [merged]);
    assert SumF([merged]) == merged.f by {
      assert [merged][..0] == [];
    }
  }

  /** The forest left after taking out `left` and `right`, with their join added, is still well formed. */
  lemma JoinKeepsWellFormed(forest: seq<Node>, rest: seq<Node>, rest2: seq<Node>, left: Node, right: Node)
    requires WellFormed(forest) && left in forest
    requires RemovedNode(forest, left, rest) && RemovedNode(rest, right, rest2)
    ensures WellFormed(rest2 + [Join(left, right)])
  {
    assert right in rest by {
      assert right in multiset(rest);
    }
    assert WellFormed(rest2);
    JoinWellFormed(rest2, left, right);
  }

  /** The forest left after taking out `left` and `right`, with their join added, has the same leaves and total. */
  lemma JoinKeepsTotals(forest: seq<Node>, rest: seq<Node>, rest2: seq<Node>, left: Node, right: Node)
    requires RemovedTotals(forest, left, rest) && RemovedTotals(rest, right, rest2)
    ensures multiset(ForestLeaves(rest2 + [Join(left, right)])) == multiset(ForestLeaves(forest))
    ensures SumF(rest2 + [Join(left, right)]) == SumF(forest)
  {
    JoinTotals(rest2, left, right);
  }

  /** Two trees taken out of a forest and their join put back, on multisets. */
  lemma MergedContents(forest: seq<Node>, rest: seq<Node>, rest2: seq<Node>, left: Node, right: Node)
    requires RemovedNode(forest, left, rest) && RemovedNode(rest, right, rest2)
    ensures multiset(rest2 + [Join(left, right)]) ==
            multiset(forest) - multiset{left} - multiset{right} + multiset{Join(left, right)}
  {
    assert multiset(rest2 + [Join(left, right)]) == multiset(rest2) + multiset{Join(left, right)};
    assert multiset(forest) - multiset{left} == multiset(rest);
    assert multiset(rest) - multiset{right} == multiset(rest2);
  }

  /**
   * Replacing two trees of a good forest by the internal node joining them
   * leaves a good forest one tree smaller.
   */
  lemma MergeForest(forest: seq<Node>, leaves: seq<Node>, left: Node, right: Node) returns (next: seq<Node>)
    requires GoodForest(forest, leaves)
    requires left in multiset(forest) && right in multiset(forest) - multiset{left}
    ensures |next| == |forest| - 1
    ensures multiset(next) == multiset(forest) - multiset{left} - multiset{right}
                              + multiset{Join(left, right)}
    ensures GoodForest(next, leaves)
  {
    var rest := RemoveTree(forest, left);
    assert right in multiset(rest);
    var rest2 := RemoveTree(rest, right);
    JoinKeepsWellFormed(forest, rest, rest2, left, right);
    JoinKeepsTotals(forest, rest, rest2, left, right);
    MergedContents(forest, rest, rest2, left, right);
    next := rest2 + [Join(left, right)];
  }

  /** When the forest is down to its last tree (or none), that tree holds all the leaves and the total. */
  lemma LastTree(forest: seq<Node>, leaves: seq<Node>) returns (root: Tree)
    requires GoodForest(forest, leaves) && |forest| <= 1
    ensures root == Nil <==> forest == []
    ensures root != Nil ==> multiset(forest) == multiset{root}
    ensures root == Nil <==> leaves == []
    ensures root != Nil ==> Full(root) && Conserves(root) && root.f == SumF(leaves)
    ensures multiset(Leaves(root)) == multiset(leaves)
  {
    if forest == [] {
      root := Nil;
    } else {
      root := forest[0];
      assert forest == [root];
      assert forest[..0] == [];
      assert ForestLeaves(forest) == Leaves(root);
      assert SumF(forest) == root.f;
      FullHasLeaves(root);
    }
  }

  /** The leaf-pushing loop: one `HuffNode(i, freqs[i])` per positive count, in index order. */
  method PushLeaves(freqs: seq<int>, h: HuffHeap)
    requires h.Valid() && h.size == 0 && |LeafNodes(freqs)| <= h.capacity
    modifies h`size, h.arr
    ensures h.Valid() && h.size == |LeafNodes(freqs)| && h.Contents() == multiset(LeafNodes(freqs))
  {
    for i := 0 to |freqs|
      invariant h.Valid() && h.size == |LeafNodes(freqs[..i])|
      invariant h.Contents() == multiset(LeafNodes(freqs[..i]))
    {
      PushLeaf(freqs, i, h);
    }
    assert freqs[..|freqs|] == freqs;
  }

  /** One pass of the leaf-pushing loop: index i pushes its leaf when its count is positive. */
  method PushLeaf(freqs: seq<int>, i: nat, h: HuffHeap)
    requires i < |freqs| && |LeafNodes(freqs)| <= h.capacity
    requires h.Valid() && h.size == |LeafNodes(freqs[..i])| && h.Contents() == multiset(LeafNodes(freqs[..i]))
    modifies h`size, h.arr
    ensures h.Valid() && h.size == |LeafNodes(freqs[..i + 1])|
    ensures h.Contents() == multiset(LeafNodes(freqs[..i + 1]))
  {
    LeafNodesStep(freqs, i);
    if freqs[i] > 0 {
      h.Push(Leaf(i, freqs[i]));
    }
  }

  /**
   * One round of the merge loop: pop the two lightest nodes and push the
   * internal node joining them (the first popped on the left).
   */
  method MergeTwo(h: HuffHeap) returns (left: Node, right: Node)
    requires h.Valid() && h.size >= 2
    modifies h`size, h.arr
    ensures h.Valid() && h.size == old(h.size) - 1
    ensures left in old(h.Contents()) && right in old(h.Contents()) - multiset{left}
    ensures forall x :: x in old(h.Contents()) ==> left.f <= x.f
    ensures forall x :: x in old(h.Contents()) - multiset{left} ==> right.f <= x.f
    ensures h.Contents() == old(h.Contents()) - multiset{left} - multiset{right}
                            + multiset{Join(left, right)}
  {
    var l := h.Pop();
    var r := h.Pop();
    left, right := l, r;
    h.Push(Join(left, right));
  }

  /** One round of the merge loop, seen on the forest the heap holds. */
  method MergeStep(h: HuffHeap, ghost leaves: seq<Node>, ghost forest: seq<Node>) returns (ghost next: seq<Node>)
    requires h.Valid() && h.size >= 2 && h.size == |forest| && h.Contents() == multiset(forest)
    requires GoodForest(forest, leaves)
    modifies h`size, h.arr
    ensures h.Valid() && h.size == old(h.size) - 1 && h.size == |next| && h.Contents() == multiset(next)
    ensures GoodForest(next, leaves)
  {
    var left, right := MergeTwo(h);
    next := MergeForest(forest, leaves, left, right);
  }

  /**
   * The merge loop: while more than one node is left, join the two lightest.
   * The nodes in the heap stay a good forest over the same leaves.
   */
  method MergeLoop(h: HuffHeap, ghost leaves: seq<Node>) returns (ghost forest: seq<Node>)
    requires h.Valid() && h.size == |leaves| && h.Contents() == multiset(leaves) && GoodForest(leaves, leaves)
    modifies h`size, h.arr
    ensures h.Valid() && h.size <= 1 && h.size == |forest| && h.Contents() == multiset(forest)
    ensures GoodForest(forest, leaves)
  {
    forest := leaves;
    while h.size > 1
      invariant h.Valid() && h.size == |forest| && h.Contents() == multiset(forest)
      invariant GoodForest(forest, leaves)
      decreases h.size
    {
      forest := MergeStep(h, leaves, forest);
    }
  }

  /** The merge loop followed by the final pop: the tree built over a good forest of leaves. */
  method MergeAndPop(h: HuffHeap, ghost leaves: seq<Node>) returns (root: Tree)
    requires h.Valid() && h.size == |leaves| && h.Contents() == multiset(leaves) && GoodForest(leaves, leaves)
    modifies h`size, h.arr
    ensures root == Nil <==> leaves == []
    ensures root != Nil ==> Full(root) && Conserves(root) && root.f == SumF(leaves)
    ensures multiset(Leaves(root)) == multiset(leaves)
  {
    ghost var forest := MergeLoop(h, leaves);
    ghost var last := LastTree(forest, leaves);
    root := h.Pop();
    assert root == last;
  }

  /**
   * The shared part of every builder: push a leaf per positive count, merge
   * the two minima until one node remains, and pop it (null if there was none).
   */
  method MergeAll(freqs: seq<int>, h: HuffHeap) returns (root: Tree)
    requires h.Valid() && h.size == 0 && |LeafNodes(freqs)| <= h.capacity
    modifies h`size, h.arr
    ensures root == Nil <==> LeafNodes(freqs) == []
    ensures root != Nil ==> Full(root) && Conserves(root) && root.f == SumF(LeafNodes(freqs))
    ensures multiset(Leaves(root)) == multiset(LeafNodes(freqs))
  {
    PushLeaves(freqs, h);
    LeafForest(freqs);
    root := MergeAndPop(h, LeafNodes(freqs));
  }

  /** The leaf multiset of a built tree determines which symbols it carries. */
  lemma {:induction false} SymbolsFromLeaves(t: Tree, freqs: seq<int>, s: int)
    requires multiset(Leaves(t)) == multiset(LeafNodes(freqs))
    ensures HasSymbol(t, s) <==> 0 <= s < |freqs| && freqs[s] > 0
  {
    HasSymbolIffLeaf(t, s);
    if HasSymbol(t, s) {
      var i :| 0 <= i < |Leaves(t)| && Leaves(t)[i].Leaf? && Leaves(t)[i].symbol == s;
      LeafNodesCount(freqs, Leaves(t)[i]);
    }
    if 0 <= s < |freqs| && freqs[s] > 0 {
      var x: Node := Leaf(s, freqs[s]);
      LeafNodesCount(freqs, x);
      assert x in multiset(Leaves(t));
      var i :| 0 <= i < |Leaves(t)| && Leaves(t)[i] == x;
    }
  }

  /** Every leaf of a tree built from an n-entry table has a symbol below n. */
  lemma {:induction false} SymbolsBelowFromLeaves(t: Tree, freqs: seq<int>)
    requires multiset(Leaves(t)) == multiset(LeafNodes(freqs))
    ensures SymbolsBelow(t, |freqs|)
  {
    forall s | HasSymbol(t, s) ensures 0 <= s < |freqs| {
      SymbolsFromLeaves(t, freqs, s);
    }
    SymbolsBelowIff(t, |freqs|);
  }

  /** Counting values below n: the leaves carry the count of values, and there are none only for no values. */
  lemma CountedLeaves(xs: seq<int>, n: nat)
    requires forall i :: 0 <= i < |xs| ==> 0 <= xs[i] < n
    ensures SumF(LeafNodes(Counts(xs, n))) == |xs|
    ensures LeafNodes(Counts(xs, n)) == [] <==> xs == []
  {
    CountsTotal(xs, n);
    LeafNodesTotal(Counts(xs, n));
    if xs == [] {
      assert Counts(xs, n) == seq(n, v => 0);
      ZeroTableTotal(n);
    }
  }

  /** How often a node occurs among the leaves of a tree built from the counts of `xs`. */
  lemma BuiltLeafCount(t: Tree, xs: seq<int>, n: nat, x: Node)
    requires forall i :: 0 <= i < |xs| ==> 0 <= xs[i] < n
    requires multiset(Leaves(t)) == multiset(LeafNodes(Counts(xs, n)))
    ensures multiset(Leaves(t))[x] == if x.Leaf? && x.symbol in xs && x.f == multiset(xs)[x.symbol] then 1 else 0
  {
    LeafNodesCount(Counts(xs, n), x);
    if x.Leaf? && x.symbol in xs {
      var i :| 0 <= i < |xs| && xs[i] == x.symbol;
    }
  }

  /** The symbols of a tree built from the counts of `xs` are the values of `xs`. */
  lemma BuiltSymbols(t: Tree, xs: seq<int>, n: nat)
    requires forall i :: 0 <= i < |xs| ==> 0 <= xs[i] < n
    requires multiset(Leaves(t)) == multiset(LeafNodes(Counts(xs, n)))
    ensures forall b :: HasSymbol(t, b) <==> b in xs
    ensures SymbolsBelow(t, n)
  {
    forall b ensures HasSymbol(t, b) <==> b in xs {
      SymbolsFromLeaves(t, Counts(xs, n), b);
      if b in xs {
        var i :| 0 <= i < |xs| && xs[i] == b;
      }
    }
    SymbolsBelowFromLeaves(t, Counts(xs, n));
  }

  /**
   * A tree whose leaves are those of the counts of `xs`: its leaves are exactly
   * one `HuffNode(b, count of b)` per distinct value b of `xs`.
   */
  lemma BuiltLeaves(t: Tree, xs: seq<int>, n: nat)
    requires forall i :: 0 <= i < |xs| ==> 0 <= xs[i] < n
    requires multiset(Leaves(t)) == multiset(LeafNodes(Counts(xs, n)))
    ensures forall x :: x in Leaves(t) <==> x.Leaf? && x.symbol in xs && x.f == multiset(xs)[x.symbol]
    ensures forall x :: multiset(Leaves(t))[x] <= 1
    ensures forall b :: HasSymbol(t, b) <==> b in xs
    ensures SymbolsBelow(t, n)
  {
    forall x: Node
      ensures x in Leaves(t) <==> x.Leaf? && x.symbol in xs && x.f == multiset(xs)[x.symbol]
      ensures multiset(Leaves(t))[x] <= 1
    {
      BuiltLeafCount(t, xs, n, x);
      assert x in Leaves(t) <==> x in multiset(Leaves(t));
    }
    BuiltSymbols(t, xs, n);
  }

  /** The header's count loop, `charFreqs[(unsigned char)c]++` for each character: the byte counts. */
  method CountBytes(s: seq<Byte>) returns (charFreqs: array<int>)
    ensures fresh(charFreqs) && charFreqs[..] == Counts(s, 256)
  {
    charFreqs := new int[256](_ => 0);
    assert charFreqs[..] == Counts([], 256);
    for i := 0 to |s|
      invariant charFreqs[..] == Counts(s[..i], 256)
    {
      CountsPrefix(s, i, 256);
      charFreqs[s[i]] := charFreqs[s[i]] + 1;
    }
    assert s[..|s|] == s;
  }

  /**
   * `buildHuffmanTree` (header): count every byte of `s` by its unsigned value,
   * then push one leaf per positive count into a 256-slot heap and merge.
   */
  method BuildHuffmanTree(s: seq<Byte>) returns (root: Tree)
    ensures root == Nil <==> s == []
    ensures root != Nil ==> Full(root) && Conserves(root) && root.f == |s|
    ensures multiset(Leaves(root)) == multiset(LeafNodes(Counts(s, 256)))
    ensures SymbolsBelow(root, 256)
  {
    var charFreqs := CountBytes(s);
    var h := new HuffHeap(256);
    LeafNodesAtMost(charFreqs[..]);
    root := MergeAll(charFreqs[..], h);
    CountedLeaves(s, 256);
    SymbolsBelowFromLeaves(root, charFreqs[..]);
  }
}
