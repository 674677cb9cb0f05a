/**
 * The implicit binary search tree over log entries 0..n-1 (src/tree/log_math.rs, section 4.1 of
 * draft-ietf-keytrans-protocol-05): its bit arithmetic is interval recursion.
 */
module Ibst {
  import opened Digests
  import opened LogMath

  // ---- intervals ----

  /** The root of the entries from lo up to hi. */
  function RootOf(lo: nat, hi: nat): (x: nat)
    requires lo < hi
    ensures lo <= x < hi
  {
    BitLengthBounds(hi - lo);
    lo + IbstRoot(hi - lo)
  }

  /** The node at level k and index j of a tree of n entries spans the entries from lo up to hi. */
  predicate Spans(n: nat, lo: nat, hi: nat, k: nat, j: nat) {
    lo == First(k + 1, j) && lo + Pow2(k) <= hi && hi == if lo + Pow2(k + 1) - 1 <= n then lo + Pow2(k + 1) - 1 else n
  }

  /** The entries from lo up to hi are those of some node. */
  ghost predicate IsSubtree(n: nat, lo: nat, hi: nat) {
    exists k: nat, j: nat :: Spans(n, lo, hi, k, j)
  }

  lemma IdSpan(k: nat, j: nat)
    ensures Id(k, j) == First(k + 1, j) + Pow2(k) - 1
  {
    IdFirst(k, j);
    FirstDouble(k, j);
  }

  lemma SpanRoot(n: nat, lo: nat, hi: nat, k: nat, j: nat)
    requires Spans(n, lo, hi, k, j)
    ensures RootOf(lo, hi) == Id(k, j) && lo <= Id(k, j) < hi <= n
    ensures k == 0 <==> lo == Id(k, j)
  {
    IdSpan(k, j);
    Log2Unique(hi - lo, k);
    if k > 0 { assert Pow2(k) == 2 * Pow2(k - 1); }
  }

  lemma WholeTree(n: nat)
    requires n > 0
    ensures Spans(n, 0, n, Log2(n), 0) && IsSubtree(n, 0, n) && RootOf(0, n) == IbstRoot(n)
  {
    BitLengthBounds(n);
    SpansAll(n, Log2(n), 0);
  }

  /** The whole log is one interval; its first entry, 0, is a parameter so that the solver does not unroll on it. */
  lemma SpansAll(n: nat, k: nat, none: nat)
    requires Pow2(k) <= n < Pow2(k + 1) && none == 0
    ensures Spans(n, none, n, k, none) && IsSubtree(n, none, n)
  {
    FirstFormula(k + 1, none);
    assert Spans(n, none, n, k, none);
  }

  lemma LeftSpan(n: nat, lo: nat, hi: nat, k: nat, j: nat)
    requires Spans(n, lo, hi, k, j) && k > 0
    ensures Spans(n, lo, Id(k, j), k - 1, 2 * j) && LeftChild(Id(k, j)) == Id(k - 1, 2 * j)
  {
    SpanRoot(n, lo, hi, k, j);
    IdSpan(k, j);
    ChildrenAreBelow(k, j);
  }

  lemma RightSpan(n: nat, lo: nat, hi: nat, k: nat, j: nat)
    requires Spans(n, lo, hi, k, j) && k > 0
    ensures Id(k, j) + 1 == First(k, 2 * j + 1) && FullRightChild(Id(k, j)) == Id(k - 1, 2 * j + 1)
    ensures hi == if First(k, 2 * j + 1) + Pow2(k) - 1 <= n then First(k, 2 * j + 1) + Pow2(k) - 1 else n
    ensures Id(k, j) < hi
  {
    SpanRoot(n, lo, hi, k, j);
    IdSpan(k, j);
    FirstStep(k, 2 * j);
    ChildrenAreBelow(k, j);
  }

  /** The left child of a node is the root of the entries before it. */
  lemma LeftIsInterval(n: nat, lo: nat, hi: nat, x: nat)
    requires lo < hi && IsSubtree(n, lo, hi) && x == RootOf(lo, hi)
    ensures lo <= x < hi <= n
    ensures IsLeaf(x) <==> lo == x
    ensures lo < x ==> IsSubtree(n, lo, x) && LeftChild(x) == RootOf(lo, x)
  {
    var k: nat, j: nat :| Spans(n, lo, hi, k, j);
    SpanRoot(n, lo, hi, k, j);
    IdCoordinates(k, j);
    if k > 0 {
      LeftSpan(n, lo, hi, k, j);
      SpanRoot(n, lo, x, k - 1, 2 * j);
    }
  }

  lemma LeafIsLast(n: nat, lo: nat, hi: nat, x: nat)
    requires lo < hi && IsSubtree(n, lo, hi) && x == RootOf(lo, hi) && IsLeaf(x)
    ensures hi == x + 1
  {
    var k: nat, j: nat :| Spans(n, lo, hi, k, j);
    SpanRoot(n, lo, hi, k, j);
    IdCoordinates(k, j);
  }

  /** The entries after a node are those of a subtree, if there are any. */
  lemma RightIsInterval(n: nat, lo: nat, hi: nat, x: nat)
    requires lo < hi && IsSubtree(n, lo, hi) && x == RootOf(lo, hi) && x + 1 < hi
    ensures !IsLeaf(x) && IsSubtree(n, x + 1, hi)
  {
    var k: nat, j: nat :| Spans(n, lo, hi, k, j);
    SpanRoot(n, lo, hi, k, j);
    IdCoordinates(k, j);
    if k == 0 {
      LeafIsLast(n, lo, hi, x);
      assert false;
    } else {
      RightSpan(n, lo, hi, k, j);
      Truncated(n, x + 1, hi, k - 1, 2 * j + 1);
    }
  }

  lemma {:induction false} Truncated(n: nat, lo: nat, hi: nat, h: nat, i: nat)
    requires lo == First(h + 1, i) && lo < hi && hi == if lo + Pow2(h + 1) - 1 <= n then lo + Pow2(h + 1) - 1 else n
    ensures IsSubtree(n, lo, hi)
    decreases h
  {
    if lo + Pow2(h) <= hi {
      assert Spans(n, lo, hi, h, i);
    } else {
      Truncated(n, lo, hi, h - 1, 2 * i);
    }
  }

  /** `ibst_right_child`: the root of the entries after a node, if there are any. */
  method IbstRightChild(x: nat, n: nat, ghost lo: nat, ghost hi: nat) returns (r: Option<nat>)
    requires lo < hi && IsSubtree(n, lo, hi) && x == RootOf(lo, hi)
    ensures x < hi
    ensures r == if x + 1 < hi then Some(RootOf(x + 1, hi)) else None
    ensures x + 1 < hi ==> IsSubtree(n, x + 1, hi)
  {
    ghost var k: nat, j: nat :| Spans(n, lo, hi, k, j);
    SpanRoot(n, lo, hi, k, j);
    IdCoordinates(k, j);
    if Level(x) == 0 {
      return None;
    }
    RightSpan(n, lo, hi, k, j);
    var y := FullRightChild(x);
    ghost var h: nat, i: nat := k - 1, 2 * j + 1;
    while y >= n
      invariant y == Id(h, i) && First(h + 1, i) == x + 1 && h < k
      invariant hi == if x + Pow2(h + 1) <= n then x + Pow2(h + 1) else n
      decreases h
    {
      IdCoordinates(h, i);
      IdSpan(h, i);
      if Level(y) == 0 {
        return None;
      }
      ChildrenAreBelow(h, i);
      assert Pow2(h + 1) == 2 * Pow2(h);
      y := LeftChild(y);
      h, i := h - 1, 2 * i;
    }
    IdSpan(h, i);
    assert Spans(n, x + 1, hi, h, i);
    SpanRoot(n, x + 1, hi, h, i);
    return Some(y);
  }

  /** The root of the entries from lo up to hi, where there are any. */
  ghost predicate IsChild(child: Option<nat>, n: nat, lo: nat, hi: nat) {
    child == (if lo < hi then Some(RootOf(lo, hi)) else None) && (lo < hi ==> IsSubtree(n, lo, hi))
  }

  /** The two children of an entry, as far as it has them. */
  method Children(x: nat, n: nat, ghost lo: nat, ghost hi: nat) returns (left: Option<nat>, right: Option<nat>)
    requires lo < hi && IsSubtree(n, lo, hi) && x == RootOf(lo, hi)
    ensures lo <= x < hi <= n && IsChild(left, n, lo, x) && IsChild(right, n, x + 1, hi)
  {
    LeftIsInterval(n, lo, hi, x);
    if IsLeaf(x) {
      LeafIsLast(n, lo, hi, x);
      return None, None;
    }
    left := Some(LeftChild(x));
    right := IbstRightChild(x, n, lo, hi);
  }

  // ---- the frontier ----

  /** Going right from the root to the last entry. */
  function Frontier(lo: nat, hi: nat): (xs: seq<nat>)
    decreases hi - lo, lo
  {
    if lo >= hi then [] else [RootOf(lo, hi)] + Frontier(RootOf(lo, hi) + 1, hi)
  }

  /** The list rises strictly, from lo on, up to the last entry before hi. */
  predicate RisesTo(xs: seq<nat>, lo: nat, hi: nat) {
    && |xs| > 0 && xs[|xs| - 1] == hi - 1 && (forall i :: 0 <= i < |xs| ==> lo <= xs[i] < hi)
    && forall i, j :: 0 <= i < j < |xs| ==> xs[i] < xs[j]
  }

  lemma RisesFrom(r: nat, rest: seq<nat>, lo: nat, hi: nat)
    requires lo <= r < hi && if r + 1 == hi then rest == [] else RisesTo(rest, r + 1, hi)
    ensures RisesTo([r] + rest, lo, hi)
  {
    assert forall i :: 0 <= i < |rest| ==> ([r] + rest)[1..][i] == rest[i];
  }

  lemma {:induction false} FrontierRises(lo: nat, hi: nat)
    requires lo < hi
    ensures RisesTo(Frontier(lo, hi), lo, hi)
    decreases hi - lo
  {
    var r := RootOf(lo, hi);
    if r + 1 < hi { FrontierRises(r + 1, hi); }
    RisesFrom(r, Frontier(r + 1, hi), lo, hi);
  }

  /** The frontier of a log that has entries. */
  function FrontierOf(n: nat): (frontier: seq<nat>)
    requires n > 0
    ensures frontier == Frontier(0, n) && RisesTo(frontier, 0, n)
  {
    FrontierRises(0, n);
    Frontier(0, n)
  }

  /** The last entry below a node of the log tree. */
  function LastBelow(p: Node): int {
    First(p.level, p.index + 1) - 1
  }

  function LastsBelow(nodes: seq<Node>): (xs: seq<int>)
    ensures |xs| == |nodes| && forall i :: 0 <= i < |xs| ==> xs[i] == LastBelow(nodes[i])
  {
    seq(|nodes|, i requires 0 <= i < |nodes| => LastBelow(nodes[i]))
  }

  lemma {:induction false} FrontierBelow(n: nat, h: nat)
    requires Rem(n, h) <= n
    ensures Frontier(n - Rem(n, h), n) == LastsBelow(Low(n, h))
    decreases Rem(n, h)
  {
    if Rem(n, h) > 0 {
      var t := NextPeak(n, h);
      RemSplit(n, t);
      FirstStep(t, Shift(n, t) - 1);
      FrontierBelow(n, t);
      assert RootOf(n - Rem(n, h), n) + 1 == n - Rem(n, t);
      assert LastsBelow([Node(t, Shift(n, t) - 1)] + Low(n, t)) ==
          [LastBelow(Node(t, Shift(n, t) - 1))] + LastsBelow(Low(n, t));
    } else {
      NoLow(n, h);
    }
  }

  /** Each frontier entry ends a full subtree of the log: one less than a prefix sum of n's binary digits. */
  lemma FrontierEndsPeaks(n: nat)
    ensures Frontier(0, n) == LastsBelow(Peaks(n, 0))
  {
    var h := BitLength(n);
    if n > 0 { BitLengthBounds(n); }
    ShiftPastEnd(n, h);
    RemSplit(n, h);
    FirstFormula(h, 0);
    PeaksSplit(n, h);
    FrontierBelow(n, h);
    FromStart(n, h, Shift(n, h));
  }

  /** The frontier below a peak at the start of the log, where `none` entries lie before it. */
  lemma FromStart(n: nat, h: nat, none: nat)
    requires none == 0 == Shift(n, h) && Rem(n, h) == n && Peaks(n, none) == Peaks(none, h) + Low(n, h)
    ensures Frontier(none, n) == Frontier(n - Rem(n, h), n) && Peaks(n, none) == Low(n, h)
  {
    assert Peaks(none, h) == [];
  }

  /** The entries after the root of an interval need one binary digit less. */
  lemma RightIsLower(lo: nat, hi: nat, root: nat)
    requires lo < hi && root == RootOf(lo, hi) && root + 1 < hi
    ensures Log2(hi - (root + 1)) < Log2(hi - lo)
  {
    var size := hi - lo - Pow2(Log2(hi - lo));
    BitLengthBounds(hi - lo);
    BitLengthBounds(size);
    if Log2(size) >= Log2(hi - lo) { Pow2Monotone(Log2(hi - lo), Log2(size)); }
  }

  lemma {:induction false} Pow2Monotone(a: nat, b: nat)
    requires a <= b
    ensures Pow2(a) <= Pow2(b)
    decreases b - a
  {
    if a < b { Pow2Monotone(a, b - 1); }
  }

  lemma FrontierStep(before: seq<nat>, lo: nat, hi: nat, root: nat)
    requires lo < hi && root == RootOf(lo, hi)
    ensures before + Frontier(lo, hi) == before + [root] + Frontier(root + 1, hi)
  {
  }

  /** One round of the frontier: from an entry to the root of those right of it, in a lower tree. */
  lemma FrontierRound(before: seq<nat>, all: seq<nat>, n: nat, lo: nat, curr: nat, next: nat)
    requires lo < n && IsSubtree(n, lo, n) && curr == RootOf(lo, n) && curr + 1 < n && next == RootOf(curr + 1, n)
    requires before + Frontier(curr + 1, n) == all
    ensures lo <= curr && Log2(n - (curr + 1)) < Log2(n - lo) && before + [next] + Frontier(next + 1, n) == all
  {
    LeftIsInterval(n, lo, n, curr);
    RightIsLower(lo, n, curr);
    FrontierStep(before, curr + 1, n, next);
  }

  /** `get_frontier`; the loop's guard against a hundred rounds never ends it. */
  method GetFrontier(n: nat) returns (frontier: seq<nat>)
    requires Log2(n) < 64
    ensures frontier == Frontier(0, n)
  {
    frontier := [];
    if n == 0 {
      return;
    }
    WholeTree(n);
    var curr := IbstRoot(n);
    frontier := frontier + [curr];
    var rightmost := n - 1;
    var safeguard := 0;
    ghost var lo, all := 0, Frontier(0, n);
    while curr != rightmost && safeguard < 100
      invariant lo < n && IsSubtree(n, lo, n) && curr == RootOf(lo, n)
      invariant frontier + Frontier(curr + 1, n) == all
      invariant safeguard + Log2(n - lo) <= Log2(n)
      decreases n - lo
    {
      var r := IbstRightChild(curr, n, lo, n);
      if r.None? {
        break;
      }
      FrontierRound(frontier, all, n, lo, curr, r.value);
      lo, curr := curr + 1, r.value;
      frontier := frontier + [curr];
      safeguard := safeguard + 1;
    }
    assert frontier + [] == frontier;
  }

  // ---- paths ----

  /** The ancestors of an entry, from the root of an interval down. */
  function PathDown(lo: nat, hi: nat, target: nat): (path: seq<nat>)
    decreases hi - lo, target
  {
    if lo >= hi || target == RootOf(lo, hi) then []
    else [RootOf(lo, hi)] + if target < RootOf(lo, hi) then PathDown(lo, RootOf(lo, hi), target)
                            else PathDown(RootOf(lo, hi) + 1, hi, target)
  }

  function Reversed(xs: seq<nat>): (ys: seq<nat>)
    ensures |ys| == |xs| && forall i :: 0 <= i < |xs| ==> ys[i] == xs[|xs| - 1 - i]
  {
    seq(|xs|, i requires 0 <= i < |xs| => xs[|xs| - 1 - i])
  }

  /** `ibst_direct_path`: the ancestors of an entry, upwards. */
  method IbstDirectPath(target: nat, n: nat) returns (path: seq<nat>)
    ensures path == Reversed(PathDown(0, n, target))
  {
    path := [];
    var size: nat, offset: nat := n, 0;
    ghost var hi, all := n, PathDown(0, n, target);
    while size > 0
      invariant hi == offset + size && path + PathDown(offset, hi, target) == all
      decreases size
    {
      var leftSize := Pow2(Log2(size)) - 1;
      var root := offset + leftSize;
      RootInside(offset, size, hi, leftSize);
      if target == root {
        break;
      }
      PathStep(path, offset, hi, root, target);
      path := path + [root];
      if target < root {
        size, hi := leftSize, root;
        assert path + PathDown(offset, hi, target) == all;
      } else {
        offset, size := root + 1, size - leftSize - 1;
        assert path + PathDown(offset, hi, target) == all;
      }
    }
    PathEnds(path, offset, hi, target);
    path := Reversed(path);
  }

  lemma PathEnds(path: seq<nat>, lo: nat, hi: nat, target: nat)
    requires lo >= hi || target == RootOf(lo, hi)
    ensures path + PathDown(lo, hi, target) == path
  {
  }

  lemma RootInside(offset: nat, size: nat, hi: nat, leftSize: int)
    requires size > 0 && hi - offset == size && leftSize == IbstRoot(size)
    ensures 0 <= leftSize < size && offset + leftSize == RootOf(offset, hi)
  {
    var root := RootOf(offset, hi);
    assert root == offset + IbstRoot(hi - offset);
  }

  lemma PathStep(before: seq<nat>, lo: nat, hi: nat, root: nat, target: nat)
    requires lo < hi && root == RootOf(lo, hi) && target != root
    ensures before + PathDown(lo, hi, target) ==
            before + [root] + if target < root then PathDown(lo, root, target) else PathDown(root + 1, hi, target)
  {
  }

  /**
   * The search-tree order: going down to an entry of the interval, the ancestors before it rise
   * and those after it fall, each closer to it than the one before.
   */
  predicate Searches(path: seq<nat>, lo: nat, hi: nat, target: nat) {
    && (forall i :: 0 <= i < |path| ==> lo <= path[i] < hi && path[i] != target)
    && (forall i, j :: 0 <= i < j < |path| && path[i] < target ==> path[i] < path[j])
    && (forall i, j :: 0 <= i < j < |path| && path[i] > target ==> path[i] > path[j])
  }

  lemma {:induction false} PathIsSearch(lo: nat, hi: nat, target: nat)
    requires lo <= target < hi
    ensures Searches(PathDown(lo, hi, target), lo, hi, target)
    decreases hi - lo
  {
    var r := RootOf(lo, hi);
    if target < r {
      PathIsSearch(lo, r, target);
      SearchFrom(r, PathDown(lo, r, target), lo, hi, target);
    } else if target > r {
      PathIsSearch(r + 1, hi, target);
      SearchFrom(r, PathDown(r + 1, hi, target), lo, hi, target);
    }
  }

  lemma SearchFrom(r: nat, rest: seq<nat>, lo: nat, hi: nat, target: nat)
    requires lo <= r < hi && r != target
    requires if target < r then Searches(rest, lo, r, target) else Searches(rest, r + 1, hi, target)
    ensures Searches([r] + rest, lo, hi, target)
  {
    var path := [r] + rest;
    assert path[0] == r && path[1..] == rest;
    assert forall i :: 0 < i < |path| ==> path[i] == path[1..][i - 1];
  }

  /** The ancestors before an entry, upwards. */
  function Before(path: seq<nat>, start: nat): (xs: seq<nat>)
    ensures forall x :: x in xs <==> x in path && x < start
    decreases path
  {
    if path == [] then []
    else if path[|path| - 1] < start then [path[|path| - 1]] + Before(path[..|path| - 1], start)
    else Before(path[..|path| - 1], start)
  }

  /** `owner_init_list`: the start entry, then its ancestors to its left. */
  method OwnerInitList(start: nat, n: nat) returns (list: seq<nat>)
    ensures list == [start] + Before(PathDown(0, n, start), start)
  {
    list := [start];
    var up := IbstDirectPath(start, n);
    ghost var down, all := PathDown(0, n, start), [start] + Before(PathDown(0, n, start), start);
    assert down[..|down|] == down;
    for i := 0 to |up|
      invariant list + Before(down[..|down| - i], start) == all
    {
      BeforeStep(list, down, |down| - i, start);
      if up[i] < start {
        list := list + [up[i]];
      }
    }
  }

  lemma BeforeStep(list: seq<nat>, path: seq<nat>, k: nat, start: nat)
    requires 0 < k <= |path|
    ensures list + Before(path[..k], start) ==
            (if path[k - 1] < start then list + [path[k - 1]] else list) + Before(path[..k - 1], start)
  {
    assert path[..k][..k - 1] == path[..k - 1];
  }

  predicate Falling(xs: seq<nat>) {
    forall i, j :: 0 <= i < j < |xs| ==> xs[i] > xs[j]
  }

  lemma FallingFrom(x: nat, xs: seq<nat>)
    requires Falling(xs) && forall y :: y in xs ==> y < x
    ensures Falling([x] + xs)
  {
    assert forall i :: 0 < i <= |xs| ==> ([x] + xs)[i] == xs[i - 1] && xs[i - 1] in xs;
  }

  lemma {:induction false} BeforeFalls(path: seq<nat>, start: nat)
    requires forall i, j :: 0 <= i < j < |path| && path[i] < start ==> path[i] < path[j]
    ensures Falling(Before(path, start))
    decreases path
  {
    if path != [] {
      var front, last := path[..|path| - 1], path[|path| - 1];
      BeforeFalls(front, start);
      forall x | x in Before(front, start)
        ensures x < last
      {
        var i :| 0 <= i < |front| && front[i] == x;
        assert path[i] < path[|path| - 1];
      }
      FallingFrom(last, Before(front, start));
    }
  }

  /** The owner's list falls strictly from the start entry. */
  lemma OwnerInitFalls(start: nat, n: nat)
    requires start < n
    ensures Falling([start] + Before(PathDown(0, n, start), start))
  {
    PathIsSearch(0, n, start);
    BeforeFalls(PathDown(0, n, start), start);
    FallingFrom(start, Before(PathDown(0, n, start), start));
  }

  /** Following the root, left and right children towards an entry passes exactly its ancestors. */
  method FollowTo(target: nat, n: nat) returns (path: seq<nat>)
    requires target < n
    ensures path == PathDown(0, n, target)
  {
    path := [];
    WholeTree(n);
    var curr := IbstRoot(n);
    ghost var lo: nat, hi: nat := 0, n;
    ghost var all := PathDown(0, n, target);
    while curr != target
      invariant lo <= target < hi && IsSubtree(n, lo, hi) && curr == RootOf(lo, hi)
      invariant path + PathDown(lo, hi, target) == all
      decreases hi - lo
    {
      LeftIsInterval(n, lo, hi, curr);
      PathStep(path, lo, hi, curr, target);
      path := path + [curr];
      if target < curr {
        hi := curr;
        curr := LeftChild(curr);
      } else {
        var right := IbstRightChild(curr, n, lo, hi);
        lo := curr + 1;
        curr := right.value;
      }
    }
    assert path == all;
  }
}
