/**
 * Tree serialization: a preorder text with `L<symbol>:<f>.` for each node
 * without children and `I` followed by both subtrees for every other node.
 * The parser reads it back with a shared position, recomputing each internal
 * node's frequency as the sum of its children's.
 */
module Serialization {
  import opened HuffTree

  /** The two exceptions `std::stoi` throws. */
  datatype ParseError = InvalidArgument | OutOfRange

  datatype Result<T> = Success(value: T) | Failure(error: ParseError)

  /** A value of a C++ `int`. */
  predicate Int32(n: int)
  {
    -0x8000_0000 <= n < 0x8000_0000
  }

  predicate IsDigit(c: char)
  {
    '0' as int <= c as int <= '9' as int
  }

  function DigitChar(d: int): (c: char)
    requires 0 <= d < 10
    ensures IsDigit(c) && c as int - '0' as int == d
  {
    ('0' as int + d) as char
  }

  /** The decimal digits of n, without leading zeros. */
  function Digits(n: nat): (r: seq<char>)
    ensures |r| > 0 && forall i :: 0 <= i < |r| ==> IsDigit(r[i])
  {
    if n < 10 then [DigitChar(n)] else Digits(n / 10) + [DigitChar(n % 10)]
  }

  /** `std::to_string` of an integer: a minus sign for a negative one, then its digits. */
  function IntToString(n: int): (r: seq<char>)
    ensures |r| > 0 && forall i :: 0 <= i < |r| ==> r[i] == '-' || IsDigit(r[i])
  {
    if n < 0 then ['-'] + Digits(-n) else Digits(n)
  }

  /** The number a run of decimal digits denotes. */
  function Value(ds: seq<char>): (v: int)
    requires forall i :: 0 <= i < |ds| ==> IsDigit(ds[i])
    ensures v >= 0
  {
    if ds == [] then 0
    else
      var last := ds[|ds| - 1];
      assert IsDigit(last);
      Value(ds[..|ds| - 1]) * 10 + (last as int - '0' as int)
  }

  /** The white-space characters `strtol` skips before a number: space, and tab through carriage return. */
  predicate IsSpace(c: char)
  {
    c as int == 32 || 9 <= c as int <= 13
  }

  /** The index of the first non-space character of s at or after i. */
  function SpaceEnd(s: seq<char>, i: nat): (r: nat)
    requires i <= |s|
    ensures i <= r <= |s| && (r == |s| || !IsSpace(s[r]))
    decreases |s| - i
  {
    if i < |s| && IsSpace(s[i]) then SpaceEnd(s, i + 1) else i
  }

  /** The end of the run of digits of s that starts at i. */
  function DigitEnd(s: seq<char>, i: nat): (r: nat)
    requires i <= |s|
    ensures i <= r <= |s| && (r == |s| || !IsDigit(s[r]))
    ensures forall k :: i <= k < r ==> IsDigit(s[k])
    decreases |s| - i
  {
    if i < |s| && IsDigit(s[i]) then DigitEnd(s, i + 1) else i
  }

  /**
   * `std::stoi` in base 10: leading white space is skipped, then an optional
   * sign, then as many digits as there are; anything after them is ignored.
   * No digit at all throws `invalid_argument`, a value outside `int` throws
   * `out_of_range`.
   */
  function Stoi(s: seq<char>): (r: Result<int>)
    ensures r.Success? ==> Int32(r.value)
    ensures (forall m :: 0 <= m < |s| ==> !IsDigit(s[m])) ==> r == Failure(InvalidArgument)
  {
    var i := SpaceEnd(s, 0);
    var negative := i < |s| && s[i] == '-';
    var j := if i < |s| && (s[i] == '-' || s[i] == '+') then i + 1 else i;
    var k := DigitEnd(s, j);
    if k == j then Failure(InvalidArgument)
    else
      var ds := s[j..k];
      assert forall m :: 0 <= m < |ds| ==> IsDigit(ds[m]) by {
        forall m | 0 <= m < |ds| ensures IsDigit(ds[m]) {
          assert ds[m] == s[j + m];
        }
      }
      var v: int := if negative then -Value(ds) else Value(ds);
      if Int32(v) then Success(v) else Failure(OutOfRange)
  }

  lemma {:induction false} DigitsValue(n: nat)
    ensures Value(Digits(n)) == n
  {
    if n >= 10 {
      var ds := Digits(n);
      assert ds[..|ds| - 1] == Digits(n / 10);
      DigitsValue(n / 10);
    }
  }

  lemma {:induction false} DigitEndAtEnd(s: seq<char>, i: nat)
    requires i <= |s| && forall k :: i <= k < |s| ==> IsDigit(s[k])
    ensures DigitEnd(s, i) == |s|
    decreases |s| - i
  {
    if i < |s| {
      DigitEndAtEnd(s, i + 1);
    }
  }

  /** `stoi` reads back what `to_string` writes when it is an `int`, and throws `out_of_range` otherwise. */
  lemma StoiIntToString(n: int)
    ensures Stoi(IntToString(n)) == if Int32(n) then Success(n) else Failure(OutOfRange)
  {
    var s := IntToString(n);
    var m: nat := if n < 0 then -n else n;
    var j := if n < 0 then 1 else 0;
    assert s[0] == '-' || IsDigit(s[0]);
    assert SpaceEnd(s, 0) == 0;
    assert s[j..] == Digits(m);
    assert s[j..|s|] == s[j..];
    DigitEndAtEnd(s, j);
    DigitsValue(m);
    assert (n < 0) == (s[0] == '-');
  }

  /** `L<symbol>:<f>.` */
  function LeafText(symbol: int, f: int): seq<char>
  {
    ['L'] + IntToString(symbol) + [':'] + IntToString(f) + ['.']
  }

  /**
   * What `serializeRecursive` appends for a node: nothing for null,
   * `L<symbol>:<f>.` for a node without children, and `I` followed by the
   * left then the right subtree otherwise.
   */
  function Serialize(t: Tree): (r: seq<char>)
    ensures r == [] <==> t.Nil?
  {
    if t.Nil? then []
    else if Childless(t) then LeafText(Symbol(t), t.f)
    else ['I'] + Serialize(Child(t, '0')) + Serialize(Child(t, '1'))
  }

  /** A node's text starts with its tag: `L` for a node without children, `I` for any other. */
  lemma SerializeTag(t: Tree)
    requires t != Nil
    ensures Serialize(t)[0] == if Childless(t) then 'L' else 'I'
  {
  }

  /** The characters from i up to the first `stop` (or the end), and that character's index. */
  function Scan(data: seq<char>, i: nat, stop: char): (r: (seq<char>, nat))
    ensures i <= r.1 && (r.1 < |data| ==> data[r.1] == stop)
    ensures stop !in r.0
    decreases |data| - i
  {
    if i >= |data| || data[i] == stop then ([], i)
    else
      var rest := Scan(data, i + 1, stop);
      ([data[i]] + rest.0, rest.1)
  }

  /** A parsed node and the position after it. */
  datatype Parsed = Parsed(tree: Tree, pos: nat)

  /**
   * `deserializeRecursive` from position `pos`: null past the end or on an
   * unknown tag (which is consumed); for `L`, the symbol up to `:` and the
   * frequency up to `.`, each skipped over and read with `stoi`; for `I`,
   * the left then the right subtree, a missing one counting 0 towards the
   * node's frequency.
   */
  function Parse(data: seq<char>, pos: nat): (r: Result<Parsed>)
    ensures r.Success? ==> r.value.pos >= pos && (pos < |data| ==> r.value.pos > pos)
    decreases if pos < |data| then |data| - pos else 0
  {
    if pos >= |data| then Success(Parsed(Nil, pos))
    else if data[pos] == 'L' then ParseLeafAt(data, pos)
    else if data[pos] == 'I' then
      match Parse(data, pos + 1)
      case Failure(e) => Failure(e)
      case Success(Parsed(left, afterLeft)) =>
        match Parse(data, afterLeft)
        case Failure(e) => Failure(e)
        case Success(Parsed(right, afterRight)) =>
          Success(Parsed(Internal(Freq(left) + Freq(right), left, right), afterRight))
    else Success(Parsed(Nil, pos + 1))
  }

  /** The leaf branch of `Parse`. */
  function ParseLeafAt(data: seq<char>, pos: nat): (r: Result<Parsed>)
    ensures r.Success? ==> r.value.pos > pos
  {
    var (numStr, colon) := Scan(data, pos + 1, ':');
    var (freqStr, dot) := Scan(data, colon + 1, '.');
    match Stoi(numStr)
    case Failure(e) => Failure(e)
    case Success(symbol) =>
      match Stoi(freqStr)
      case Failure(e) => Failure(e)
      case Success(freq) => Success(Parsed(Leaf(symbol, freq), dot + 1))
  }

  /** `deserializeTree`: parse from position 0 and keep the tree. */
  function DeserializeTree(data: seq<char>): (r: Result<Tree>)
    ensures data == [] || (data[0] != 'L' && data[0] != 'I') ==> r == Success(Nil)
  {
    match Parse(data, 0)
    case Success(p) => Success(p.tree)
    case Failure(e) => Failure(e)
  }

  /** The read loops of `deserializeRecursive`: collect characters up to `stop`. */
  method ReadField(data: seq<char>, pos: nat, stop: char) returns (field: seq<char>, newPos: nat)
    ensures (field, newPos) == Scan(data, pos, stop)
  {
    field := "";
    newPos := pos;
    assert field + Scan(data, newPos, stop).0 == Scan(data, pos, stop).0;
    while newPos < |data| && data[newPos] != stop
      invariant pos <= newPos
      invariant (field + Scan(data, newPos, stop).0, Scan(data, newPos, stop).1) == Scan(data, pos, stop)
      decreases |data| - newPos
    {
      assert field + [data[newPos]] + Scan(data, newPos + 1, stop).0 == field + Scan(data, newPos, stop).0;
      field := field + [data[newPos]];
      newPos := newPos + 1;
    }
    assert Scan(data, newPos, stop) == ([], newPos);
    assert field + [] == field;
  }

  /** A method's result `node` and end position `newPos` agree with the parse result `r`. */
  predicate Agrees(r: Result<Parsed>, node: Result<Tree>, newPos: nat)
  {
    match r
    case Success(p) => node == Success(p.tree) && newPos == p.pos
    case Failure(e) => node == Failure(e)
  }

  /** The leaf branch of `deserializeRecursive`, for the `L` at `pos`. */
  method ReadLeaf(data: seq<char>, pos: nat) returns (node: Result<Tree>, newPos: nat)
    ensures Agrees(ParseLeafAt(data, pos), node, newPos)
  {
    var numStr, freqStr;
    numStr, newPos := ReadField(data, pos + 1, ':');
    newPos := newPos + 1;
    freqStr, newPos := ReadField(data, newPos, '.');
    newPos := newPos + 1;
    var symbol := Stoi(numStr);
    if symbol.Failure? {
      return Failure(symbol.error), newPos;
    }
    var freq := Stoi(freqStr);
    if freq.Failure? {
      return Failure(freq.error), newPos;
    }
    return Success(Leaf(symbol.value, freq.value)), newPos;
  }

  /** `deserializeRecursive`, with the by-reference position passed in and handed back. */
  method DeserializeRecursive(data: seq<char>, pos: nat) returns (node: Result<Tree>, newPos: nat)
    ensures Agrees(Parse(data, pos), node, newPos)
    decreases if pos < |data| then |data| - pos else 0
  {
    if pos >= |data| {
      return Success(Nil), pos;
    }
    var kind := data[pos];
    newPos := pos + 1;
    if kind == 'L' {
      node, newPos := ReadLeaf(data, pos);
    } else if kind == 'I' {
      var left, right;
      left, newPos := DeserializeRecursive(data, newPos);
      if left.Failure? {
        return left, newPos;
      }
      right, newPos := DeserializeRecursive(data, newPos);
      if right.Failure? {
        return right, newPos;
      }
      var sumFreq := Freq(left.value) + Freq(right.value);
      return Success(Internal(sumFreq, left.value, right.value)), newPos;
    } else {
      return Success(Nil), newPos;
    }
  }

  /** The tree with every internal frequency recomputed bottom-up as the sum of its children's. */
  function Recomputed(t: Tree): Tree
  {
    match t
    case Nil => Nil
    case Leaf(_, _) => t
    case Internal(_, l, r) => Internal(Freq(Recomputed(l)) + Freq(Recomputed(r)), Recomputed(l), Recomputed(r))
  }

  /** A recomputed tree conserves frequency. */
  lemma {:induction false} RecomputedConserves(t: Tree)
    ensures Conserves(Recomputed(t))
  {
    if t.Internal? {
      RecomputedConserves(t.left);
      RecomputedConserves(t.right);
    }
  }

  /** Recomputing changes nothing exactly when the tree already conserves frequency. */
  lemma {:induction false} RecomputedIff(t: Tree)
    ensures Recomputed(t) == t <==> Conserves(t)
  {
    match t
    case Nil =>
    case Leaf(_, _) =>
    case Internal(_, l, r) =>
      RecomputedIff(l);
      RecomputedIff(r);
      RecomputedConserves(l);
      RecomputedConserves(r);
  }

  /** Recomputing keeps the shape, the leaves and their order. */
  lemma {:induction false} RecomputedLeaves(t: Tree)
    ensures Leaves(Recomputed(t)) == Leaves(t)
    ensures Full(Recomputed(t)) <==> Full(t)
  {
    match t
    case Nil =>
    case Leaf(_, _) =>
    case Internal(_, l, r) =>
      RecomputedLeaves(l);
      RecomputedLeaves(r);
  }

  /** Every leaf's symbol and frequency is an `int`, so `stoi` can read back what `to_string` wrote. */
  predicate LeafFieldsFit(t: Tree)
  {
    match t
    case Nil => true
    case Leaf(s, f) => Int32(s) && Int32(f)
    case Internal(_, l, r) => LeafFieldsFit(l) && LeafFieldsFit(r)
  }

  /** `data` holds the text `s` from position `pos` on. */
  predicate Written(data: seq<char>, pos: nat, s: seq<char>)
  {
    pos + |s| <= |data| && forall k {:trigger s[k]} :: 0 <= k < |s| ==> data[pos + k] == s[k]
  }

  /** A part of a text written at `pos` is written at its own offset. */
  lemma WrittenPart(data: seq<char>, pos: nat, s: seq<char>, i: nat, part: seq<char>)
    requires Written(data, pos, s) && i + |part| <= |s| && forall k :: 0 <= k < |part| ==> s[i + k] == part[k]
    ensures Written(data, pos + i, part)
  {
    forall k | 0 <= k < |part| ensures data[pos + i + k] == part[k] {
      assert data[pos + (i + k)] == s[i + k];
    }
  }

  /** Scanning over a field that holds no `stop` and is followed by `stop` returns the field. */
  lemma {:induction false} ScanField(data: seq<char>, i: nat, stop: char, field: seq<char>)
    requires Written(data, i, field) && i + |field| < |data| && stop !in field && data[i + |field|] == stop
    ensures Scan(data, i, stop) == (field, i + |field|)
    decreases |field|
  {
    if field != [] {
      assert data[i + 0] == field[0];
      WrittenPart(data, i, field, 1, field[1..]);
      ScanField(data, i + 1, stop, field[1..]);
      assert [field[0]] + field[1..] == field;
    }
  }

  /** Where the parts of a leaf's text lie. */
  lemma LeafTextParts(symbol: int, f: int)
    ensures var a, b, s := IntToString(symbol), IntToString(f), LeafText(symbol, f);
            |s| == 3 + |a| + |b| && s[0] == 'L' && s[1 + |a|] == ':' && s[2 + |a| + |b|] == '.' &&
            (forall k :: 0 <= k < |a| ==> s[1 + k] == a[k]) &&
            (forall k :: 0 <= k < |b| ==> s[2 + |a| + k] == b[k])
  {
  }

  /** The two fields of a leaf's text written at `pos` are scanned back as written. */
  lemma ScanLeaf(data: seq<char>, pos: nat, symbol: int, f: int)
    requires Written(data, pos, LeafText(symbol, f))
    ensures data[pos] == 'L'
    ensures Scan(data, pos + 1, ':') == (IntToString(symbol), pos + 1 + |IntToString(symbol)|)
    ensures Scan(data, pos + 2 + |IntToString(symbol)|, '.') ==
            (IntToString(f), pos + 2 + |IntToString(symbol)| + |IntToString(f)|)
    ensures |LeafText(symbol, f)| == 3 + |IntToString(symbol)| + |IntToString(f)|
  {
    var a, b := IntToString(symbol), IntToString(f);
    var s := LeafText(symbol, f);
    LeafTextParts(symbol, f);
    WrittenPart(data, pos, s, 1, a);
    WrittenPart(data, pos, s, 2 + |a|, b);
    assert data[pos + 0] == s[0];
    assert data[pos + (1 + |a|)] == s[1 + |a|];
    assert data[pos + (2 + |a| + |b|)] == s[2 + |a| + |b|];
    ScanField(data, pos + 1, ':', a);
    ScanField(data, pos + 2 + |a|, '.', b);
  }

  /** `Parse` at `pos` succeeds with `tree`, ending at `end`. */
  predicate ParsesTo(data: seq<char>, pos: nat, tree: Tree, end: nat)
  {
    Parse(data, pos) == Success(Parsed(tree, end))
  }

  /**
   * Parsing the text of a leaf written at `pos` gives that leaf back, and the
   * position after the text, when both its numbers are `int`s; otherwise
   * `stoi` throws `out_of_range`.
   */
  lemma ParseLeaf(data: seq<char>, pos: nat, symbol: int, f: int)
    requires Written(data, pos, LeafText(symbol, f))
    ensures pos < |data| && data[pos] == 'L'
    ensures ParseLeafAt(data, pos) ==
            if Int32(symbol) && Int32(f) then Success(Parsed(Leaf(symbol, f), pos + |LeafText(symbol, f)|))
            else Failure(OutOfRange)
  {
    ScanLeaf(data, pos, symbol, f);
    StoiIntToString(symbol);
    StoiIntToString(f);
  }

  /**
   * Parsing the serialization of a full tree written at `pos` gives the tree
   * back with its internal frequencies recomputed, and the position after the text.
   */
  lemma {:induction false} ParseSerialized(data: seq<char>, pos: nat, t: Tree) returns (tree: Tree, end: nat)
    requires Full(t) && LeafFieldsFit(t) && Written(data, pos, Serialize(t))
    ensures tree == Recomputed(t) && end == pos + |Serialize(t)| && ParsesTo(data, pos, tree, end)
    decreases t
  {
    if t.Leaf? {
      assert Serialize(t) == LeafText(t.symbol, t.f);
      ParseLeaf(data, pos, t.symbol, t.f);
      tree, end := t, pos + |Serialize(t)|;
    } else {
      WrittenInternal(data, pos, t);
      assert Written(data, pos + 1 + |Serialize(t.left)|, Serialize(t.right));
      var left, afterLeft := ParseSerialized(data, pos + 1, t.left);
      var right, afterRight := ParseSerialized(data, afterLeft, t.right);
      ParseInternal(data, pos, left, right, afterLeft, afterRight);
      tree, end := Internal(Freq(left) + Freq(right), left, right), afterRight;
    }
  }

  /** Where the parts of an internal node's text lie. */
  lemma WrittenInternal(data: seq<char>, pos: nat, t: Tree)
    requires t.Internal? && !t.left.Nil? && Written(data, pos, Serialize(t))
    ensures data[pos] == 'I'
    ensures Written(data, pos + 1, Serialize(t.left))
    ensures Written(data, pos + 1 + |Serialize(t.left)|, Serialize(t.right))
    ensures |Serialize(t)| == 1 + |Serialize(t.left)| + |Serialize(t.right)|
  {
    var sl, sr := Serialize(t.left), Serialize(t.right);
    SerializeInternal(t);
    WrittenConcat(data, pos, ['I'] + sl, sr);
    WrittenConcat(data, pos, ['I'], sl);
    assert data[pos + 0] == ['I'][0];
  }

  /** The text of an internal node with a left child is `I`, then its left text, then its right text. */
  lemma SerializeInternal(t: Tree)
    requires t.Internal? && !t.left.Nil?
    ensures Serialize(t) == ['I'] + Serialize(t.left) + Serialize(t.right)
  {
    assert !Childless(t);
  }

  /** Both halves of a text written at `pos` are written where they fall. */
  lemma WrittenConcat(data: seq<char>, pos: nat, a: seq<char>, b: seq<char>)
    requires Written(data, pos, a + b)
    ensures Written(data, pos, a) && Written(data, pos + |a|, b)
  {
    forall k | 0 <= k < |a| ensures data[pos + k] == a[k] {
      assert (a + b)[k] == a[k];
    }
    forall k | 0 <= k < |b| ensures data[pos + |a| + k] == b[k] {
      assert data[pos + (|a| + k)] == (a + b)[|a| + k];
    }
  }

  /** Parsing `I` followed by the texts of two subtrees gives the node with its frequency recomputed. */
  lemma ParseInternal(data: seq<char>, pos: nat, left: Tree, right: Tree, afterLeft: nat, end: nat)
    requires pos < |data| && data[pos] == 'I'
    requires ParsesTo(data, pos + 1, left, afterLeft)
    requires ParsesTo(data, afterLeft, right, end)
    ensures ParsesTo(data, pos, Internal(Freq(left) + Freq(right), left, right), end)
  {
  }

  /**
   * Round trip: `deserializeTree(serializeTree(T))` is T with its internal
   * frequencies recomputed, hence T itself when T conserves frequency; the
   * null tree serializes to "" and "" parses to null.
   */
  lemma SerializeRoundTrip(t: Tree)
    requires t == Nil || (Full(t) && LeafFieldsFit(t))
    ensures DeserializeTree(Serialize(t)) == Success(Recomputed(t))
    ensures Conserves(t) ==> DeserializeTree(Serialize(t)) == Success(t)
  {
    if t != Nil {
      var tree, end := ParseSerialized(Serialize(t), 0, t);
    }
    RecomputedIff(t);
  }

  /**
   * Why the round trip needs a full tree: a node whose only child is on the
   * right serializes as `I` then that child, which the parser reads back as
   * the left child.
   */
  lemma RightOnlyChildMovesLeft()
    ensures DeserializeTree(Serialize(Internal(1, Nil, Leaf(1, 1)))) == Success(Internal(1, Leaf(1, 1), Nil))
  {
    var data := Serialize(Internal(1, Nil, Leaf(1, 1)));
    assert data == ['I'] + LeafText(1, 1);
    assert Written(data, 1, LeafText(1, 1));
    ParseLeaf(data, 1, 1, 1);
  }

  /** A leaf whose symbol or frequency is beyond `int` throws `out_of_range`. */
  lemma ParseLeafOutOfRange(symbol: int, f: int)
    requires !Int32(symbol) || !Int32(f)
    ensures DeserializeTree(LeafText(symbol, f)) == Failure(OutOfRange)
  {
    var data := LeafText(symbol, f);
    assert Written(data, 0, data);
    ParseLeaf(data, 0, symbol, f);
  }

  /** A leaf with no digits before its `:` throws `invalid_argument`, whatever follows. */
  lemma ParseMissingSymbol(rest: seq<char>)
    ensures DeserializeTree(['L', ':'] + rest) == Failure(InvalidArgument)
  {
    var data := ['L', ':'] + rest;
    assert Scan(data, 1, ':') == ([], 1);
  }

  /** An unknown tag gives the null tree, whatever follows. */
  lemma ParseUnknownTag(c: char, rest: seq<char>)
    requires c != 'L' && c != 'I'
    ensures DeserializeTree([c] + rest) == Success(Nil)
  {
  }

  /** An `I` with nothing after it is an internal node of frequency 0 with two null children. */
  lemma ParseBareInternal()
    ensures DeserializeTree(['I']) == Success(Internal(0, Nil, Nil))
  {
  }
}
