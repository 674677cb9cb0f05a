/**
 * Node ids of the log tree and their bit arithmetic (src/tree/log_math.rs, Appendix A and
 * section 11.8 of draft-ietf-keytrans-protocol-05). Every id is the node at one level and one
 * index of that level, and the bit operations are moves between levels. Ids are natural numbers:
 * the source's 64-bit ids with its guards at level 62.
 */
module LogMath {

  // ---- bits ----

  /** 1 << k */
  function Pow2(k: nat): (p: nat)
    ensures p > 0
  {
    if k == 0 then 1 else 2 * Pow2(k - 1)
  }

  /** x >> k */
  function Shift(x: nat, k: nat): (y: nat)
    decreases k, x
  {
    if k == 0 then x else Shift(x / 2, k - 1)
  }

  /** (x >> k) & 1 */
  function Bit(x: nat, k: nat): (b: nat) {
    Shift(x, k) % 2
  }

  /** x ^ (1 << k) */
  function FlipBit(x: nat, k: nat): (y: nat)
    decreases k, x
  {
    if k == 0 then (if x % 2 == 1 then x - 1 else x + 1)
    else 2 * FlipBit(x / 2, k - 1) + x % 2
  }

  /** x.trailing_ones() */
  function TrailingOnes(x: nat): (k: nat) {
    if x % 2 == 1 then 1 + TrailingOnes(x / 2) else 0
  }

  /** 64 - x.leading_zeros() */
  function BitLength(x: nat): (k: nat) {
    if x == 0 then 0 else 1 + BitLength(x / 2)
  }

  // ---- ids ----

  predicate IsLeaf(x: nat) {
    x % 2 == 0
  }

  function Level(x: nat): (k: nat) {
    if IsLeaf(x) then 0 else TrailingOnes(x)
  }

  /** The largest k with 2^k <= n, and 0 for n == 0. */
  function Log2(n: nat): (k: nat) {
    if n == 0 then 0 else BitLength(n) - 1
  }

  function IbstRoot(n: nat): (x: nat) {
    if n == 0 then 0 else Pow2(Log2(n)) - 1
  }

  function MerkleRoot(n: nat): (x: nat) {
    if n <= 1 then 0 else Pow2(BitLength(n - 1)) - 1
  }

  function LeftChild(x: nat): (y: nat) {
    if Level(x) == 0 then x else FlipBit(x, Level(x) - 1)
  }

  /** x ^ (3 << (level - 1)): the right child in a tree without bounds. */
  function FullRightChild(x: nat): (y: nat)
    requires Level(x) > 0
  {
    FlipBit(FlipBit(x, Level(x) - 1), Level(x))
  }

  function Parent(x: nat): (y: int) {
    var l := Level(x);
    if l >= 62 then 0
    else if Bit(x, l + 1) == 1 then x - Pow2(l) else x + Pow2(l)
  }

  // ---- ids as coordinates ----

  /** The id of the node at `level` and `index`. */
  function Id(level: nat, index: nat): (x: nat)
    decreases level, index
  {
    if level == 0 then 2 * index else 2 * Id(level - 1, index) + 1
  }

  function IndexOf(x: nat): (j: nat) {
    if IsLeaf(x) then x / 2 else IndexOf(x / 2)
  }

  /** An id of level k is 2^k * (2 * j + 1) - 1. */
  lemma {:induction false} IdFormula(k: nat, j: nat)
    ensures Id(k, j) == Pow2(k) * (2 * j + 1) - 1
  {
    if k > 0 {
      IdFormula(k - 1, j);
      assert Pow2(k) * (2 * j + 1) == 2 * (Pow2(k - 1) * (2 * j + 1));
    }
  }

  /** Ids and coordinates are in bijection. */
  lemma {:induction false} IdCoordinates(k: nat, j: nat)
    ensures Level(Id(k, j)) == k && IndexOf(Id(k, j)) == j
    ensures TrailingOnes(Id(k, j)) == k
  {
    if k > 0 {
      IdCoordinates(k - 1, j);
      assert Id(k, j) / 2 == Id(k - 1, j);
    }
  }

  lemma {:induction false} CoordinatesId(x: nat)
    ensures Id(Level(x), IndexOf(x)) == x
  {
    if !IsLeaf(x) {
      CoordinatesId(x / 2);
      assert TrailingOnes(x / 2) == Level(x / 2);
    }
  }

  lemma {:induction false} FlipBelow(k: nat, j: nat)
    requires k > 0
    ensures FlipBit(Id(k, j), k - 1) == Id(k - 1, 2 * j)
    ensures FlipBit(Id(k - 1, 2 * j), k) == Id(k - 1, 2 * j + 1)
  {
    if k > 1 {
      FlipBelow(k - 1, j);
      assert Id(k, j) / 2 == Id(k - 1, j);
      assert Id(k - 1, 2 * j) / 2 == Id(k - 2, 2 * j);
    }
  }

  /** The children of a node are the two nodes below it. */
  lemma ChildrenAreBelow(k: nat, j: nat)
    requires k > 0
    ensures LeftChild(Id(k, j)) == Id(k - 1, 2 * j)
    ensures FullRightChild(Id(k, j)) == Id(k - 1, 2 * j + 1)
  {
    IdCoordinates(k, j);
    FlipBelow(k, j);
  }

  lemma {:induction false} ShiftId(k: nat, j: nat)
    ensures Shift(Id(k, j), k + 1) == j
  {
    if k > 0 {
      ShiftId(k - 1, j);
      assert Id(k, j) / 2 == Id(k - 1, j);
    }
  }

  lemma {:induction false} IdStep(k: nat, j: nat)
    ensures j % 2 == 0 ==> Id(k, j) + Pow2(k) == Id(k + 1, j / 2)
    ensures j % 2 == 1 ==> Id(k, j) - Pow2(k) == Id(k + 1, j / 2)
  {
    if k > 0 { IdStep(k - 1, j); }
  }

  /** The parent of a node is the node above it, up to level 62. */
  lemma ParentIsAbove(k: nat, j: nat)
    ensures Parent(Id(k, j)) == if k < 62 then Id(k + 1, j / 2) else 0
  {
    IdCoordinates(k, j);
    ShiftId(k, j);
    IdStep(k, j);
  }

  /** The Merkle root of n leaves is the leftmost node of the first level that spans them. */
  lemma {:induction false} IdOfFirst(k: nat)
    ensures Id(k, 0) == Pow2(k) - 1
  {
    if k > 0 { IdOfFirst(k - 1); }
  }

  lemma MerkleRootIsFirst(n: nat)
    requires n > 0
    ensures MerkleRoot(n) == Id(BitLength(n - 1), 0)
  {
    IdOfFirst(BitLength(n - 1));
  }

  // ---- leaves below a node, in a tree of n leaves ----

  /** The first leaf below the node at level k and index j. */
  function First(k: nat, j: nat): (i: nat)
    decreases k, j
  {
    if k == 0 then j else First(k - 1, 2 * j)
  }

  /** A node is present in a tree of n leaves when some leaf below it is. */
  predicate Present(k: nat, j: nat, n: nat) {
    n > 0 && j <= Shift(n - 1, k)
  }

  /** A node is complete in a tree of n leaves when all leaves below it are. */
  predicate Complete(k: nat, j: nat, n: nat) {
    j < Shift(n, k)
  }

  lemma {:induction false} ShiftSplit(x: nat, k: nat)
    ensures Shift(x, k + 1) == Shift(x, k) / 2
    decreases k
  {
    if k > 0 { ShiftSplit(x / 2, k - 1); }
  }

  lemma {:induction false} ShiftMonotone(x: nat, y: nat, k: nat)
    requires x <= y
    ensures Shift(x, k) <= Shift(y, k)
    decreases k
  {
    if k > 0 { ShiftMonotone(x / 2, y / 2, k - 1); }
  }

  /** Leaf i is at or after the first leaf below a node exactly when its ancestor there is. */
  lemma {:induction false} FirstBound(k: nat, j: nat, i: nat)
    ensures First(k, j) <= i <==> j <= Shift(i, k)
    decreases k
  {
    if k > 0 {
      FirstBound(k - 1, 2 * j, i);
      ShiftSplit(i, k - 1);
    }
  }

  lemma {:induction false} FirstFormula(k: nat, j: nat)
    ensures First(k, j) == j * Pow2(k)
  {
    if k > 0 { FirstFormula(k - 1, 2 * j); }
  }

  /** A node is present exactly when its first leaf is below n. */
  lemma PresentFirst(k: nat, j: nat, n: nat)
    ensures Present(k, j, n) <==> First(k, j) < n
  {
    if n > 0 { FirstBound(k, j, n - 1); }
  }

  lemma CompleteFirst(k: nat, j: nat, n: nat)
    ensures Complete(k, j, n) <==> First(k, j + 1) <= n
  {
    FirstBound(k, j + 1, n);
  }

  /** `leftmost_leaf_index`: going left to the bottom. */
  method LeftmostLeafIndex(x: nat) returns (i: nat)
    ensures i == First(Level(x), IndexOf(x))
  {
    var y := x;
    ghost var k, j := Level(x), IndexOf(x);
    CoordinatesId(x);
    while !IsLeaf(y)
      invariant y == Id(k, j) && First(k, j) == First(Level(x), IndexOf(x))
      decreases k
    {
      IdCoordinates(k, j);
      ChildrenAreBelow(k, j);
      y := FlipBit(y, Level(y) - 1);
      k, j := k - 1, 2 * j;
    }
    IdCoordinates(k, j);
    return y / 2;
  }

  /** The right child in a tree of n leaves; a node whose right side is absent has only its left child. */
  function RightIndex(k: nat, j: nat, n: nat): (r: nat) {
    if Present(k, 2 * j + 1, n) then 2 * j + 1 else 2 * j
  }

  /** `right_child`. */
  method RightChild(x: nat, n: nat) returns (r: nat)
    requires Level(x) > 0
    ensures r == Id(Level(x) - 1, RightIndex(Level(x) - 1, IndexOf(x), n))
  {
    ghost var k, j := Level(x), IndexOf(x);
    CoordinatesId(x);
    ChildrenAreBelow(k, j);
    r := FullRightChild(x);
    ghost var rk, rj := k - 1, 2 * j + 1;
    PresentFirst(k - 1, 2 * j + 1, n);
    while true
      invariant r == Id(rk, rj) && First(rk, rj) == First(k - 1, 2 * j + 1)
      invariant rk < k && (Present(k - 1, 2 * j + 1, n) ==> rk == k - 1 && rj == 2 * j + 1)
      decreases rk
    {
      IdCoordinates(rk, rj);
      var leftmost := LeftmostLeafIndex(r);
      if leftmost < n {
        return;
      }
      if IsLeaf(r) {
        return LeftChild(x);
      }
      ChildrenAreBelow(rk, rj);
      r := LeftChild(r);
      rk, rj := rk - 1, 2 * rj;
    }
  }

  // ---- full subtrees ----

  /** The coordinates of a node. */
  datatype Node = Node(level: nat, index: nat)

  /** The full subtrees of n leaves at level h and above, left to right; q is n >> h. */
  function Peaks(q: nat, h: nat): (peaks: seq<Node>)
    decreases q, h
  {
    if q == 0 then []
    else if q % 2 == 1 then Peaks(q / 2, h + 1) + [Node(h, q - 1)]
    else Peaks(q / 2, h + 1)
  }

  function Ids(nodes: seq<Node>): (xs: seq<nat>)
    ensures |xs| == |nodes| && forall i :: 0 <= i < |xs| ==> xs[i] == Id(nodes[i].level, nodes[i].index)
  {
    seq(|nodes|, i requires 0 <= i < |nodes| => Id(nodes[i].level, nodes[i].index))
  }

  /** The full subtrees of n leaves below level h. */
  function Low(n: nat, h: nat): (peaks: seq<Node>)
    decreases h, n
  {
    if h == 0 then []
    else if Shift(n, h - 1) % 2 == 1 then [Node(h - 1, Shift(n, h - 1) - 1)] + Low(n, h - 1)
    else Low(n, h - 1)
  }

  /** n modulo 2^h */
  function Rem(n: nat, h: nat): (r: nat)
    decreases h, n
  {
    if h == 0 then 0
    else if Shift(n, h - 1) % 2 == 1 then Pow2(h - 1) + Rem(n, h - 1)
    else Rem(n, h - 1)
  }

  lemma {:induction false} PeaksSplit(n: nat, h: nat)
    ensures Peaks(n, 0) == Peaks(Shift(n, h), h) + Low(n, h)
  {
    if h > 0 {
      PeaksSplit(n, h - 1);
      ShiftSplit(n, h - 1);
    }
  }

  lemma {:induction false} RemSplit(n: nat, h: nat)
    ensures n == First(h, Shift(n, h)) + Rem(n, h) && Rem(n, h) < Pow2(h)
    decreases h
  {
    if h > 0 {
      RemSplit(n, h - 1);
      ShiftSplit(n, h - 1);
      if Shift(n, h - 1) % 2 == 1 { FirstStep(h - 1, Shift(n, h - 1) - 1); }
    }
  }

  lemma {:induction false} BitLengthBounds(n: nat)
    requires n > 0
    ensures Pow2(BitLength(n) - 1) <= n < Pow2(BitLength(n))
  {
    if n > 1 { BitLengthBounds(n / 2); }
  }

  lemma {:induction false} Log2Unique(n: nat, t: nat)
    requires Pow2(t) <= n < Pow2(t + 1)
    ensures Log2(n) == t && BitLength(n) == t + 1
  {
    assert Pow2(1) == 2 * Pow2(0) && Pow2(0) == 1;
    if t > 0 {
      Log2Unique(n / 2, t - 1);
    } else {
      assert n == 1 && BitLength(n / 2) == 0;
    }
  }

  lemma {:induction false} ShiftPastEnd(n: nat, h: nat)
    requires n < Pow2(h)
    ensures Shift(n, h) == 0
    decreases h
  {
    if h > 0 { ShiftPastEnd(n / 2, h - 1); }
  }

  /** The highest full subtree below level h is where the remaining count's top bit is. */
  lemma {:induction false} NextPeak(n: nat, h: nat) returns (t: nat)
    requires Rem(n, h) > 0
    ensures t < h && Shift(n, t) % 2 == 1 && Log2(Rem(n, h)) == t
    ensures Rem(n, h) == Pow2(t) + Rem(n, t)
    ensures Low(n, h) == [Node(t, Shift(n, t) - 1)] + Low(n, t)
  {
    if Shift(n, h - 1) % 2 == 1 {
      t := h - 1;
      RemSplit(n, t);
      Log2Unique(Rem(n, h), t);
    } else {
      t := NextPeak(n, h - 1);
    }
  }

  lemma {:induction false} FirstStep(k: nat, j: nat)
    ensures First(k, j + 1) == First(k, j) + Pow2(k)
    decreases k
  {
    if k > 0 {
      FirstStep(k - 1, 2 * j);
      FirstStep(k - 1, 2 * j + 1);
    }
  }

  lemma {:induction false} FirstDouble(k: nat, j: nat)
    ensures First(k, 2 * j) == 2 * First(k, j)
    decreases k
  {
    if k > 0 { FirstDouble(k - 1, 2 * j); }
  }

  /** An id counted from the first leaf below it. */
  lemma {:induction false} IdFirst(k: nat, j: nat)
    ensures Id(k, j) == Pow2(k) - 1 + 2 * First(k, j)
    decreases k
  {
    if k > 0 {
      IdFirst(k - 1, j);
      FirstDouble(k - 1, j);
    }
  }

  lemma PeakId(n: nat, t: nat)
    requires Shift(n, t) % 2 == 1
    ensures n - Rem(n, t) >= Pow2(t)
    ensures Id(t, Shift(n, t) - 1) == Pow2(t) - 1 + 2 * (n - Rem(n, t) - Pow2(t))
  {
    RemSplit(n, t);
    FirstStep(t, Shift(n, t) - 1);
    IdFirst(t, Shift(n, t) - 1);
  }

  /** `get_roots`: the ids of the full subtrees of n leaves, left to right. */
  method GetRoots(n: nat) returns (roots: seq<nat>)
    ensures roots == Ids(Peaks(n, 0))
  {
    roots := [];
    var offset, rest := 0, n;
    ghost var h := BitLength(n);
    if n > 0 { BitLengthBounds(n); }
    ShiftPastEnd(n, h);
    RemSplit(n, h);
    FirstFormula(h, 0);
    PeaksSplit(n, h);
    ghost var done: seq<Node> := [];
    while rest > 0
      invariant rest == Rem(n, h) && offset == n - rest
      invariant Peaks(n, 0) == done + Low(n, h)
      invariant roots == Ids(done)
      decreases rest
    {
      var k := Pow2(Log2(rest));
      var t := NextPeak(n, h);
      PeakId(n, t);
      Log2Unique(k, t);
      var r := IbstRoot(k) + offset * 2;
      roots := roots + [r];
      offset := offset + k;
      rest := rest - k;
      done := done + [Node(t, Shift(n, t) - 1)];
      h := t;
    }
    NoLow(n, h);
  }

  lemma {:induction false} NoLow(n: nat, h: nat)
    requires Rem(n, h) == 0
    ensures Low(n, h) == []
  {
    if h > 0 { NoLow(n, h - 1); }
  }
}
