/**
 * `HuffHeap`: a 1-indexed, array-backed binary min-heap of node pointers
 * keyed on their frequency `f`. Slot 0 is unused; slots 1..size hold the
 * nodes; `push` sifts up and `pop` sifts down.
 */
module Heap {
  import opened HuffTree

  /** Slot k is no smaller than its parent, slot k / 2. */
  ghost predicate ParentOk(a: seq<Node>, k: int)
    requires 2 <= k < |a|
  {
    a[k / 2].f <= a[k].f
  }

  /** Slot i is no smaller than slot k's parent (used for k's children while k is out of place). */
  ghost predicate AboveParentOk(a: seq<Node>, k: int, i: int)
    requires 2 <= k < |a| && 0 <= i < |a|
  {
    a[k / 2].f <= a[i].f
  }

  /** Heap order on slots 1..n of a 1-indexed array image: no node is smaller than its parent. */
  ghost predicate HeapOrdered(a: seq<Node>, n: int)
    requires 0 <= n < |a|
  {
    forall k :: 2 <= k <= n ==> ParentOk(a, k)
  }

  /** In a heap-ordered array, slot 1 holds a minimum. */
  lemma {:induction false} RootIsMin(a: seq<Node>, n: int, i: int)
    requires 0 <= n < |a| && HeapOrdered(a, n) && 1 <= i <= n
    ensures a[1].f <= a[i].f
    decreases i
  {
    if i > 1 {
      assert ParentOk(a, i);
      RootIsMin(a, n, i / 2);
    }
  }

  /** Slot 1 of a non-empty heap holds a node no larger than any stored node. */
  lemma RootIsMinOfContents(a: seq<Node>, n: int)
    requires 1 <= n < |a| && HeapOrdered(a, n)
    ensures forall x :: x in Stored(a, n) ==> a[1].f <= x.f
  {
    forall x | x in Stored(a, n) ensures a[1].f <= x.f {
      var j :| 0 <= j < n && a[1..n + 1][j] == x;
      RootIsMin(a, n, j + 1);
    }
  }

  /** The nodes held in slots 1..n. */
  ghost function Stored(a: seq<Node>, n: int): multiset<Node>
    requires 0 <= n < |a|
  {
    multiset(a[1..n + 1])
  }

  /** The image of the array after exchanging slots i and j. */
  function Swap(a: seq<Node>, i: int, j: int): (b: seq<Node>)
    requires 0 <= i < |a| && 0 <= j < |a|
    ensures |b| == |a| && b[i] == a[j] && b[j] == a[i]
    ensures forall m :: 0 <= m < |a| && m != i && m != j ==> b[m] == a[m]
  {
    a[i := a[j]][j := a[i]]
  }

  lemma SwapKeepsContents(a: seq<Node>, i: int, j: int, n: int)
    requires 1 <= i <= n && 1 <= j <= n && n < |a|
    ensures Stored(Swap(a, i, j), n) == Stored(a, n)
  {
    var s, t := a[1..n + 1], Swap(a, i, j)[1..n + 1];
    assert t == s[i - 1 := s[j - 1]][j - 1 := s[i - 1]];
  }

  /**
   * Sift-up state: heap order holds except possibly between slot k and its
   * parent, and k's parent is no larger than k's children.
   */
  ghost predicate UpOrdered(a: seq<Node>, n: int, k: int)
    requires 0 <= n < |a|
  {
    (forall i :: 2 <= i <= n && i != k ==> ParentOk(a, i)) &&
    (2 <= k <= n ==> forall i :: 2 <= i <= n && i / 2 == k ==> AboveParentOk(a, k, i))
  }

  /** Writing a new node just past the end starts a sift-up at that slot. */
  lemma SiftUpStart(a: seq<Node>, n: int, val: Node)
    requires 0 <= n && n + 1 < |a| && HeapOrdered(a, n)
    ensures UpOrdered(a[n + 1 := val], n + 1, n + 1)
    ensures Stored(a[n + 1 := val], n + 1) == Stored(a, n) + multiset{val}
  {
    var b := a[n + 1 := val];
    assert b[1..n + 2] == a[1..n + 1] + [val];
    forall i | 2 <= i <= n + 1 && i != n + 1 ensures ParentOk(b, i) {
      assert ParentOk(a, i);
      assert b[i / 2] == a[i / 2] && b[i] == a[i];
    }
  }

  lemma SiftUpStep(a: seq<Node>, n: int, k: int)
    requires 1 < k <= n < |a| && UpOrdered(a, n, k) && a[k / 2].f > a[k].f
    ensures UpOrdered(Swap(a, k / 2, k), n, k / 2)
  {
    var b, p := Swap(a, k / 2, k), k / 2;
    forall i | 2 <= i <= n && i != p ensures ParentOk(b, i) {
      if i == k {
      } else if i / 2 == k {
        assert AboveParentOk(a, k, i);
        assert b[i / 2] == a[p] && b[i] == a[i];
      } else if i / 2 == p {
        assert ParentOk(a, i);
        assert b[i / 2] == a[k] && b[i] == a[i];
      } else {
        assert ParentOk(a, i);
        assert b[i / 2] == a[i / 2] && b[i] == a[i];
      }
    }
    if p > 1 {
      assert ParentOk(a, p);
      forall i | 2 <= i <= n && i / 2 == p ensures AboveParentOk(b, p, i) {
        assert b[p / 2] == a[p / 2];
        if i != k {
          assert ParentOk(a, i);
        }
      }
    }
  }

  lemma SiftUpDone(a: seq<Node>, n: int, k: int)
    requires 1 <= k <= n < |a| && UpOrdered(a, n, k)
    requires k == 1 || a[k / 2].f <= a[k].f
    ensures HeapOrdered(a, n)
  {
    if k > 1 {
      assert ParentOk(a, k);
    }
  }

  /**
   * Sift-down state: heap order holds except possibly between slot k and
   * its children, and k's parent is no larger than k's children.
   */
  ghost predicate DownOrdered(a: seq<Node>, n: int, k: int)
    requires 0 <= n < |a|
  {
    (forall i :: 2 <= i <= n && i / 2 != k ==> ParentOk(a, i)) &&
    (2 <= k <= n ==> forall i :: 2 <= i <= n && i / 2 == k ==> AboveParentOk(a, k, i))
  }

  /** Moving the last node into slot 1 starts a sift-down there and drops the old minimum. */
  lemma SiftDownStart(a: seq<Node>, n: int)
    requires 1 <= n < |a| && HeapOrdered(a, n)
    ensures DownOrdered(a[1 := a[n]], n - 1, 1)
    ensures Stored(a[1 := a[n]], n - 1) == Stored(a, n) - multiset{a[1]}
  {
    var b := a[1 := a[n]];
    assert a[1..n + 1] == [a[1]] + a[2..n + 1];
    if n > 1 {
      assert b[1..n] == [a[n]] + a[2..n];
      assert a[2..n + 1] == a[2..n] + [a[n]];
    }
    forall i | 2 <= i <= n - 1 && i / 2 != 1 ensures ParentOk(b, i) {
      assert ParentOk(a, i);
      assert b[i / 2] == a[i / 2] && b[i] == a[i];
    }
  }

  lemma SiftDownStep(a: seq<Node>, n: int, k: int, l: int, r: int, c: int)
    requires 1 <= k && l == 2 * k && r == l + 1 && l <= n < |a| && DownOrdered(a, n, k)
    requires c == l || (c == r && r <= n)
    requires a[c].f < a[k].f && a[c].f <= a[l].f && (r <= n ==> a[c].f <= a[r].f)
    ensures DownOrdered(Swap(a, k, c), n, c)
  {
    var b := Swap(a, k, c);
    assert c / 2 == k;
    assert forall i :: 2 <= i <= n && i / 2 == k ==> i == 2 * k || i == 2 * k + 1;
    forall i | 2 <= i <= n && i / 2 != c ensures ParentOk(b, i) {
      if i == c {
      } else if i / 2 == k {
        assert b[i / 2] == a[c] && b[i] == a[i];
      } else if i == k {
        assert AboveParentOk(a, k, c);
        assert b[i / 2] == a[k / 2] && b[i] == a[c];
      } else {
        assert ParentOk(a, i);
        assert b[i / 2] == a[i / 2] && b[i] == a[i];
      }
    }
    forall i | 2 <= i <= n && i / 2 == c ensures AboveParentOk(b, c, i) {
      assert ParentOk(a, i);
      assert b[c / 2] == a[c] && b[i] == a[i];
    }
  }

  lemma SiftDownDone(a: seq<Node>, n: int, k: int, l: int, r: int)
    requires 1 <= k && l == 2 * k && r == l + 1 && 0 <= n < |a| && DownOrdered(a, n, k)
    requires l <= n ==> a[k].f <= a[l].f
    requires r <= n ==> a[k].f <= a[r].f
    ensures HeapOrdered(a, n)
  {
    assert forall i :: 2 <= i <= n && i / 2 == k ==> i == 2 * k || i == 2 * k + 1;
  }

  /** One more node of a prefix is one more element of its multiset. */
  lemma PrefixContents(nodes: seq<Node>, i: nat)
    requires i < |nodes|
    ensures multiset(nodes[..i + 1]) == multiset(nodes[..i]) + multiset{nodes[i]}
  {
    assert nodes[..i + 1] == nodes[..i] + [nodes[i]];
  }

  class HuffHeap {
    const capacity: int
    const arr: array<Node>
    var size: int

    ghost predicate Valid()
      reads this, arr
    {
      arr.Length == capacity + 1 && 0 <= size <= capacity && HeapOrdered(arr[..], size)
    }

    /** The nodes stored, slots 1..size. */
    ghost function Contents(): multiset<Node>
      reads this, arr
      requires Valid()
    {
      Stored(arr[..], size)
    }

    /** `HuffHeap(int capacity)`: capacity + 1 slots, slot 0 holding a default node. */
    constructor (capacity: nat)
      ensures Valid() && fresh(arr)
      ensures this.capacity == capacity && size == 0 && Contents() == multiset{}
      ensures arr[0] == Leaf(0, 0)
    {
      this.capacity := capacity;
      arr := new Node[capacity + 1](_ => Leaf(0, 0));
      size := 0;
    }

    /**
     * The console's default `HuffHeap()`: capacity 255 over 256 slots. Slot 0
     * is left unwritten there; Dafny initialises it, and nothing reads it.
     */
    constructor Default()
      ensures Valid() && fresh(arr)
      ensures capacity == 255 && arr.Length == 256 && size == 0 && Contents() == multiset{}
    {
      capacity := 255;
      arr := new Node[256](_ => Leaf(0, 0));
      size := 0;
    }

    /**
     * The console's `HuffHeap(arr, s)`: capacity 255, then pushes the given
     * nodes in order; pushes past the 255th find the heap full and are dropped.
     */
    constructor FromNodes(nodes: seq<Node>)
      ensures Valid() && fresh(arr) && capacity == 255
      ensures size == if |nodes| <= 255 then |nodes| else 255
      ensures Contents() == multiset(nodes[..size])
    {
      capacity := 255;
      arr := new Node[256](_ => Leaf(0, 0));
      size := 0;
      new;
      for i := 0 to |nodes|
        invariant Valid() && capacity == 255
        invariant size == if i <= 255 then i else 255
        invariant Contents() == multiset(nodes[..size])
      {
        Push(nodes[i]);
        if i < 255 {
          PrefixContents(nodes, i);
        }
      }
    }

    /** `isEmpty`. */
    predicate IsEmpty()
      reads this, arr
      requires Valid()
      ensures IsEmpty() <==> Contents() == multiset{}
    {
      size == 0
    }

    /** `isFull`. */
    predicate IsFull()
      reads this, arr
      requires Valid()
      ensures IsFull() <==> |Contents()| == capacity
    {
      size == capacity
    }

    /**
     * `push`: on a full heap nothing changes; otherwise the node is added at
     * the end and sifted up while its parent is strictly larger.
     */
    method Push(val: Node)
      requires Valid()
      modifies arr, this`size
      ensures Valid()
      ensures old(size) == capacity ==> size == old(size) && arr[..] == old(arr[..])
      ensures old(size) < capacity ==> size == old(size) + 1 && Contents() == old(Contents()) + multiset{val}
    {
      if size == capacity {
        return;
      }
      ghost var before := arr[..];
      ghost var stored := Stored(before, size) + multiset{val};
      SiftUpStart(before, size, val);
      var k := size + 1;
      arr[k] := val;
      size := size + 1;
      assert arr[..] == before[k := val];
      SiftUp(k, stored);
    }

    /** The sift-up loop of `push`: moves the node in slot k up past any strictly larger parent. */
    method SiftUp(k0: int, ghost stored: multiset<Node>)
      requires arr.Length == capacity + 1 && 1 <= k0 <= size <= capacity
      requires UpOrdered(arr[..], size, k0) && Stored(arr[..], size) == stored
      modifies arr
      ensures Valid() && Stored(arr[..], size) == stored
    {
      var k := k0;
      while k > 1 && arr[k / 2].f > arr[k].f
        invariant 1 <= k <= size
        invariant UpOrdered(arr[..], size, k)
        invariant Stored(arr[..], size) == stored
        decreases k
      {
        ghost var before := arr[..];
        SiftUpStep(before, size, k);
        SwapKeepsContents(before, k / 2, k, size);
        arr[k / 2], arr[k] := arr[k], arr[k / 2];
        assert arr[..] == Swap(before, k / 2, k);
        k := k / 2;
      }
      SiftUpDone(arr[..], size, k);
    }

    /**
     * `pop`: on an empty heap returns null and changes nothing; otherwise
     * removes and returns a node of minimum frequency, moving the last node
     * to slot 1 and sifting it down past any strictly smaller child.
     */
    method Pop() returns (r: Tree)
      requires Valid()
      modifies arr, this`size
      ensures Valid()
      ensures old(size) == 0 ==> r == Nil && size == 0 && arr[..] == old(arr[..])
      ensures old(size) > 0 ==> r != Nil && size == old(size) - 1
      ensures old(size) > 0 ==> r in old(Contents()) && Contents() == old(Contents()) - multiset{r}
      ensures old(size) > 0 ==> forall x :: x in old(Contents()) ==> r.f <= x.f
    {
      if size == 0 {
        return Nil;
      }
      RootIsMinOfContents(arr[..], size);
      SiftDownStart(arr[..], size);
      ghost var n := size;
      r := arr[1];
      arr[1] := arr[size];
      size := size - 1;
      assert arr[..] == old(arr[..])[1 := old(arr[n])];
      SiftDown();
    }

    /** The sift-down loop of `pop`: moves the node in slot 1 down past any strictly smaller child. */
    method SiftDown()
      requires arr.Length == capacity + 1 && 0 <= size < capacity
      requires DownOrdered(arr[..], size, 1)
      modifies arr
      ensures Valid() && Stored(arr[..], size) == old(Stored(arr[..], size))
    {
      var k := 1;
      while true
        invariant 1 <= k && (k <= size || k == 1)
        invariant DownOrdered(arr[..], size, k)
        invariant Stored(arr[..], size) == old(Stored(arr[..], size))
        decreases size - k
      {
        var left := 2 * k;
        var right := 2 * k + 1;
        if left > size {
          SiftDownDone(arr[..], size, k, left, right);
          break;
        }
        var smallest := left;
        if right <= size && arr[right].f < arr[left].f {
          smallest := right;
        }
        if arr[k].f <= arr[smallest].f {
          SiftDownDone(arr[..], size, k, left, right);
          break;
        }
        ghost var before := arr[..];
        SiftDownStep(before, size, k, left, right, smallest);
        SwapKeepsContents(before, k, smallest, size);
        arr[k], arr[smallest] := arr[smallest], arr[k];
        assert arr[..] == Swap(before, k, smallest);
        k := smallest;
      }
    }
  }

  /** The console's `buildHuffHeap`: a fresh heap holding the given nodes (at most 255 of them). */
  method BuildHuffHeap(nodes: seq<Node>) returns (h: HuffHeap)
    ensures fresh(h) && fresh(h.arr) && h.Valid() && h.capacity == 255
    ensures h.size == if |nodes| <= 255 then |nodes| else 255
    ensures h.Contents() == multiset(nodes[..h.size])
  {
    h := new HuffHeap.FromNodes(nodes);
  }
}
