/**
 * Distinguished log entries (src/tree/credential.rs, section 6.1 of draft-ietf-keytrans-protocol-05)
 * and the walk that decides them (src/tree/traversal.rs, src/client/core.rs).
 */
module DistinguishedEntries {
  import opened LogMath
  import opened Ibst
  import opened CombinedProof

  type Timestamps = seq<nat>

  /** Timestamps do not fall from one entry to the next. */
  ghost predicate Rising(ts: Timestamps) {
    forall i, j :: 0 <= i <= j < |ts| ==> ts[i] <= ts[j]
  }

  /** saturating_sub */
  function Minus(a: nat, b: nat): nat {
    if a >= b then a - b else 0
  }

  /** The distinguished entries from lo up to hi, between these timestamps. */
  function Chosen(ts: Timestamps, rmw: nat, lo: nat, hi: nat, left: nat, right: nat): (xs: set<nat>)
    requires hi <= |ts|
    decreases hi - lo, ts
  {
    if lo >= hi || Minus(right, left) < rmw then {}
    else
      var x := RootOf(lo, hi);
      {x} + Chosen(ts, rmw, lo, x, left, ts[x]) + Chosen(ts, rmw, x + 1, hi, ts[x], right)
  }

  /** `find_distinguished_nodes`, as a set. */
  function Distinguished(ts: Timestamps, rmw: nat, n: nat): (xs: set<nat>)
    requires 0 < n <= |ts|
  {
    Chosen(ts, rmw, 0, n, 0, ts[n - 1])
  }

  lemma {:induction false} ChosenInside(ts: Timestamps, rmw: nat, lo: nat, hi: nat, left: nat, right: nat)
    requires hi <= |ts|
    ensures forall x :: x in Chosen(ts, rmw, lo, hi, left, right) ==> lo <= x < hi
    decreases hi - lo
  {
    if lo < hi {
      var r := RootOf(lo, hi);
      ChosenInside(ts, rmw, lo, r, left, ts[r]);
      ChosenInside(ts, rmw, r + 1, hi, ts[r], right);
    }
  }

  /** The list has the entries of the set, each once. */
  ghost predicate ListsOnce(nodes: seq<nat>, xs: set<nat>) {
    (forall y :: y in nodes <==> y in xs) && forall i, j :: 0 <= i < j < |nodes| ==> nodes[i] != nodes[j]
  }

  lemma ListsBoth(a: seq<nat>, xs: set<nat>, b: seq<nat>, ys: set<nat>)
    requires ListsOnce(a, xs) && ListsOnce(b, ys) && xs !! ys
    ensures ListsOnce(a + b, xs + ys)
  {
    forall y
      ensures y in a + b <==> y in xs + ys
    {
    }
    forall i, j | 0 <= i < j < |a + b|
      ensures (a + b)[i] != (a + b)[j]
    {
      if i < |a| <= j { assert a[i] in xs && b[j - |a|] in ys; }
    }
  }

  /** `recursive_distinguished_wrapper`. */
  method FindBelow(ts: Timestamps, rmw: nat, x: nat, left: nat, right: nat, n: nat, ghost lo: nat, ghost hi: nat)
    returns (nodes: seq<nat>)
    requires lo < hi && IsSubtree(n, lo, hi) && x == RootOf(lo, hi) && n <= |ts|
    ensures hi <= n && ListsOnce(nodes, Chosen(ts, rmw, lo, hi, left, right))
    decreases hi - lo
  {
    LeftIsInterval(n, lo, hi, x);
    if Minus(right, left) < rmw {
      return [];
    }
    nodes := [x];
    ghost var onLeft, onRight := Chosen(ts, rmw, lo, x, left, ts[x]), Chosen(ts, rmw, x + 1, hi, ts[x], right);
    ChosenInside(ts, rmw, lo, x, left, ts[x]);
    ChosenInside(ts, rmw, x + 1, hi, ts[x], right);
    if !IsLeaf(x) {
      var l := LeftChild(x);
      if l < n {
        var below := FindBelow(ts, rmw, l, left, ts[x], n, lo, x);
        ListsBoth(nodes, {x}, below, onLeft);
        nodes := nodes + below;
      }
    }
    assert ListsOnce(nodes, {x} + onLeft);
    if !IsLeaf(x) {
      var r := IbstRightChild(x, n, lo, hi);
      if r.Some? && r.value < n && r.value != x {
        var below := FindBelow(ts, rmw, r.value, ts[x], right, n, x + 1, hi);
        ListsBoth(nodes, {x} + onLeft, below, onRight);
        nodes := nodes + below;
      }
    } else {
      LeafIsLast(n, lo, hi, x);
    }
  }

  lemma {:induction false} IncreasingParts(a: seq<nat>, x: nat, b: seq<nat>)
    requires Increasing(a) && Increasing(b)
    requires (forall i :: 0 <= i < |a| ==> a[i] < x) && forall i :: 0 <= i < |b| ==> x < b[i]
    ensures Increasing(a + [x] + b)
  {}

  lemma {:induction false} FromLeast(b: seq<nat>, x: nat)
    requires Increasing(b) && (b != [] ==> x < b[0])
    ensures forall i :: 0 <= i < |b| ==> x < b[i]
  {
    assert forall i :: 0 < i < |b| ==> b[0] < b[i];
  }

  /** An increasing list with one more entry in its place. */
  method InsertSorted(xs: seq<nat>, x: nat) returns (ys: seq<nat>)
    requires Increasing(xs) && x !in xs
    ensures Increasing(ys) && forall y :: y in ys <==> y == x || y in xs
  {
    var k := 0;
    while k < |xs| && xs[k] < x
      invariant k <= |xs| && forall i :: 0 <= i < k ==> xs[i] < x
    {
      k := k + 1;
    }
    var a, b := xs[..k], xs[k..];
    assert xs == a + b;
    FromLeast(b, x);
    IncreasingParts(a, x, b);
    return a + [x] + b;
  }

  /** Sorting a list without repeated entries. */
  method Sorted(found: seq<nat>, n: nat, ghost xs: set<nat>) returns (nodes: seq<nat>)
    requires ListsOnce(found, xs) && forall x :: x in xs ==> x < n
    ensures nodes == Listed(xs, n)
  {
    nodes := [];
    for i := 0 to |found|
      invariant Increasing(nodes) && forall y :: y in nodes <==> y in found[..i]
    {
      assert found[..i + 1] == found[..i] + [found[i]];
      nodes := InsertSorted(nodes, found[i]);
    }
    assert found[..|found|] == found;
    IncreasingUnique(nodes, Listed(xs, n));
  }

  /** `find_distinguished_nodes`: each distinguished entry is found once, so sorting lists them in order. */
  method FindDistinguished(ts: Timestamps, rmw: nat, n: nat) returns (nodes: seq<nat>)
    requires 0 < n <= |ts|
    ensures nodes == Listed(Distinguished(ts, rmw, n), n)
  {
    WholeTree(n);
    var found := FindBelow(ts, rmw, IbstRoot(n), 0, ts[n - 1], n, 0, n);
    ChosenInside(ts, rmw, 0, n, 0, ts[n - 1]);
    nodes := Sorted(found, n, Distinguished(ts, rmw, n));
  }

  // ---- ancestors ----

  /** The ancestors of a distinguished entry are distinguished. */
  lemma {:induction false} AncestorsChosen(ts: Timestamps, rmw: nat, lo: nat, hi: nat, left: nat, right: nat, x: nat)
    requires hi <= |ts| && x in Chosen(ts, rmw, lo, hi, left, right)
    ensures lo <= x < hi && forall a :: a in PathDown(lo, hi, x) ==> a in Chosen(ts, rmw, lo, hi, left, right)
    decreases hi - lo
  {
    var r := RootOf(lo, hi);
    if x in Chosen(ts, rmw, lo, r, left, ts[r]) {
      AncestorsChosen(ts, rmw, lo, r, left, ts[r], x);
    } else if x in Chosen(ts, rmw, r + 1, hi, ts[r], right) {
      AncestorsChosen(ts, rmw, r + 1, hi, ts[r], right, x);
    }
  }

  lemma AncestorsDistinguished(ts: Timestamps, rmw: nat, n: nat, x: nat, a: nat)
    requires 0 < n <= |ts| && x in Distinguished(ts, rmw, n) && a in PathDown(0, n, x)
    ensures a in Distinguished(ts, rmw, n)
  {
    AncestorsChosen(ts, rmw, 0, n, 0, ts[n - 1], x);
  }

  // ---- the closed form ----

  /** The timestamp to the left of the entries from lo on, and to the right of those before hi. */
  function LeftBound(ts: Timestamps, lo: nat): nat
    requires lo <= |ts|
  {
    if lo == 0 then 0 else ts[lo - 1]
  }

  function RightBound(ts: Timestamps, n: nat, hi: nat): nat
    requires 0 < n <= |ts|
  {
    if hi < n then ts[hi] else ts[n - 1]
  }

  /** The interval of which an entry is the root. */
  function SpanAt(lo: nat, hi: nat, x: nat): (span: (nat, nat))
    requires lo <= x < hi
    ensures lo <= span.0 <= x < span.1 <= hi
    decreases hi - lo, x
  {
    if x == RootOf(lo, hi) then (lo, hi)
    else if x < RootOf(lo, hi) then SpanAt(lo, RootOf(lo, hi), x)
    else SpanAt(RootOf(lo, hi) + 1, hi, x)
  }

  /** The interval of an entry is long enough in time. */
  predicate Wide(ts: Timestamps, rmw: nat, n: nat, lo: nat, hi: nat)
    requires 0 < n <= |ts| && lo <= n
  {
    Minus(RightBound(ts, n, hi), LeftBound(ts, lo)) >= rmw
  }

  lemma {:induction false} ChosenIsWide(ts: Timestamps, rmw: nat, n: nat, lo: nat, hi: nat, x: nat)
    requires Rising(ts) && 0 < n <= |ts| && lo <= x < hi <= n
    ensures x in Chosen(ts, rmw, lo, hi, LeftBound(ts, lo), RightBound(ts, n, hi)) <==>
            Wide(ts, rmw, n, SpanAt(lo, hi, x).0, SpanAt(lo, hi, x).1)
    decreases hi - lo
  {
    var r := RootOf(lo, hi);
    if Minus(RightBound(ts, n, hi), LeftBound(ts, lo)) >= rmw {
      ChosenSplit(ts, rmw, lo, hi, r, LeftBound(ts, lo), RightBound(ts, n, hi));
      if x < r {
        ChosenIsWide(ts, rmw, n, lo, r, x);
      } else if x > r {
        ChosenIsWide(ts, rmw, n, r + 1, hi, x);
      }
    } else {
      NarrowInside(ts, rmw, n, lo, hi, SpanAt(lo, hi, x).0, SpanAt(lo, hi, x).1);
    }
  }

  /** An interval inside one that is too short in time is too short. */
  lemma NarrowInside(ts: Timestamps, rmw: nat, n: nat, lo: nat, hi: nat, lo': nat, hi': nat)
    requires Rising(ts) && 0 < n <= |ts| && lo <= lo' <= hi' <= hi <= n && !Wide(ts, rmw, n, lo, hi)
    ensures !Wide(ts, rmw, n, lo', hi')
  {
    assert LeftBound(ts, lo) <= LeftBound(ts, lo');
    assert RightBound(ts, n, hi') <= RightBound(ts, n, hi);
  }

  /** That interval is the span of the entry's node. */
  lemma {:induction false} SpanAtIs(n: nat, lo: nat, hi: nat, x: nat)
    requires lo <= x < hi && IsSubtree(n, lo, hi)
    ensures Spans(n, SpanAt(lo, hi, x).0, SpanAt(lo, hi, x).1, Level(x), IndexOf(x))
    decreases hi - lo
  {
    var r := RootOf(lo, hi);
    if x == r {
      var k: nat, j: nat :| Spans(n, lo, hi, k, j);
      SpanRoot(n, lo, hi, k, j);
      IdCoordinates(k, j);
    } else if x < r {
      LeftIsInterval(n, lo, hi, r);
      SpanAtIs(n, lo, r, x);
    } else {
      RightIsInterval(n, lo, hi, r);
      SpanAtIs(n, r + 1, hi, x);
    }
  }

  /** The start and the end of an entry's span in a tree of n entries. */
  function SpanStart(x: nat): nat {
    First(Level(x) + 1, IndexOf(x))
  }

  function SpanEnd(n: nat, x: nat): int {
    if SpanStart(x) + Pow2(Level(x) + 1) - 1 <= n then SpanStart(x) + Pow2(Level(x) + 1) - 1 else n
  }

  /**
   * An entry is distinguished exactly when the timestamps around its span are at least the
   * reasonable monitoring window apart.
   */
  lemma DistinguishedIsWide(ts: Timestamps, rmw: nat, n: nat, x: nat)
    requires Rising(ts) && x < n <= |ts|
    ensures SpanStart(x) <= x < SpanEnd(n, x) <= n
    ensures x in Distinguished(ts, rmw, n) <==> Wide(ts, rmw, n, SpanStart(x), SpanEnd(n, x))
  {
    WholeTree(n);
    SpanAtIs(n, 0, n, x);
    ChosenIsWide(ts, rmw, n, 0, n, x);
  }

  /** An entry once distinguished stays so as the tree grows, whatever happens to its shape. */
  lemma DistinguishedStays(ts: Timestamps, rmw: nat, n: nat, n': nat, x: nat)
    requires Rising(ts) && 0 < n <= n' <= |ts| && x in Distinguished(ts, rmw, n)
    ensures x in Distinguished(ts, rmw, n')
  {
    ChosenInside(ts, rmw, 0, n, 0, ts[n - 1]);
    DistinguishedIsWide(ts, rmw, n, x);
    DistinguishedIsWide(ts, rmw, n', x);
  }

  // ---- the walk ----

  /** Where a walk towards an entry stands: the choice among the entries left is still to make. */
  ghost predicate Walking(ts: Timestamps, rmw: nat, n: nat, pos: nat, curr: nat, lo: nat, hi: nat, left: nat,
                          right: nat)
    requires 0 < n <= |ts|
  {
    && lo <= pos < hi <= n && IsSubtree(n, lo, hi) && curr == RootOf(lo, hi)
    && (forall y: nat :: lo <= y < hi ==>
         (y in Distinguished(ts, rmw, n) <==> y in Chosen(ts, rmw, lo, hi, left, right)))
  }

  lemma WalkLeft(ts: Timestamps, rmw: nat, n: nat, pos: nat, curr: nat, lo: nat, hi: nat, left: nat, right: nat)
    requires 0 < n <= |ts| && Walking(ts, rmw, n, pos, curr, lo, hi, left, right)
    requires Minus(right, left) >= rmw && pos < curr
    ensures curr in Distinguished(ts, rmw, n)
    ensures Walking(ts, rmw, n, pos, LeftChild(curr), lo, curr, left, ts[curr])
  {
    LeftIsInterval(n, lo, hi, curr);
    ChosenSplit(ts, rmw, lo, hi, curr, left, right);
  }

  /** The entries chosen on the two sides of a distinguished entry. */
  lemma ChosenSplit(ts: Timestamps, rmw: nat, lo: nat, hi: nat, x: nat, left: nat, right: nat)
    requires lo < hi <= |ts| && x == RootOf(lo, hi) && Minus(right, left) >= rmw
    ensures x in Chosen(ts, rmw, lo, hi, left, right)
    ensures forall y: nat :: lo <= y < x ==>
              (y in Chosen(ts, rmw, lo, hi, left, right) <==> y in Chosen(ts, rmw, lo, x, left, ts[x]))
    ensures forall y: nat :: x < y < hi ==>
              (y in Chosen(ts, rmw, lo, hi, left, right) <==> y in Chosen(ts, rmw, x + 1, hi, ts[x], right))
  {
    ChosenInside(ts, rmw, lo, x, left, ts[x]);
    ChosenInside(ts, rmw, x + 1, hi, ts[x], right);
  }

  lemma WalkRight(ts: Timestamps, rmw: nat, n: nat, pos: nat, curr: nat, lo: nat, hi: nat, left: nat, right: nat)
    requires 0 < n <= |ts| && Walking(ts, rmw, n, pos, curr, lo, hi, left, right)
    requires Minus(right, left) >= rmw && pos > curr
    ensures curr in Distinguished(ts, rmw, n)
    ensures Walking(ts, rmw, n, pos, RootOf(curr + 1, hi), curr + 1, hi, ts[curr], right)
  {
    RightIsInterval(n, lo, hi, curr);
    ChosenSplit(ts, rmw, lo, hi, curr, left, right);
  }

  /** What a walk has found out. */
  ghost predicate Found(ts: Timestamps, rmw: nat, n: nat, ancestorDist: map<nat, bool>, requested: seq<nat>)
    requires 0 < n <= |ts|
  {
    && (forall a :: a in ancestorDist <==> a in requested)
    && (forall a :: a in ancestorDist ==> (ancestorDist[a] <==> a in Distinguished(ts, rmw, n)))
  }

  /** One entry met on the way: whether it is distinguished. */
  method MeetEntry(ts: Timestamps, rmw: nat, n: nat, pos: nat, curr: nat, bounds: (nat, nat),
                   ancestorDist: map<nat, bool>, ghost lo: nat, ghost hi: nat, ghost requested: seq<nat>)
    returns (dist: bool, ancestorDist': map<nat, bool>)
    requires 0 < n <= |ts| && Walking(ts, rmw, n, pos, curr, lo, hi, bounds.0, bounds.1)
    requires Found(ts, rmw, n, ancestorDist, requested)
    ensures dist <==> Minus(bounds.1, bounds.0) >= rmw
    ensures Found(ts, rmw, n, ancestorDist', requested + [curr])
    ensures !dist ==> forall y: nat :: lo <= y < hi ==> y !in Distinguished(ts, rmw, n)
  {
    dist := Minus(bounds.1, bounds.0) >= rmw;
    ancestorDist' := ancestorDist[curr := dist];
    assert curr in Chosen(ts, rmw, lo, hi, bounds.0, bounds.1) <==> dist;
  }

  /** One step towards an entry, from a distinguished entry on the way. */
  method StepTowards(ts: Timestamps, rmw: nat, n: nat, pos: nat, curr: nat, bounds: (nat, nat), ghost lo: nat,
                     ghost hi: nat)
    returns (curr': nat, bounds': (nat, nat), ghost lo': nat, ghost hi': nat)
    requires 0 < n <= |ts| && Walking(ts, rmw, n, pos, curr, lo, hi, bounds.0, bounds.1)
    requires Minus(bounds.1, bounds.0) >= rmw && pos != curr
    ensures Walking(ts, rmw, n, pos, curr', lo', hi', bounds'.0, bounds'.1)
    ensures if pos < curr then lo' == lo && hi' == curr < hi else lo' == curr + 1 && hi' == hi && lo < lo' < hi
  {
    if pos < curr {
      WalkLeft(ts, rmw, n, pos, curr, lo, hi, bounds.0, bounds.1);
      return LeftChild(curr), (bounds.0, ts[curr]), lo, curr;
    } else {
      WalkRight(ts, rmw, n, pos, curr, lo, hi, bounds.0, bounds.1);
      var right := IbstRightChild(curr, n, lo, hi);
      return right.value, (ts[curr], bounds.1), curr + 1, hi;
    }
  }

  /**
   * The walk from the root towards an entry that tracks the timestamps around it, stopping at an
   * entry that is not distinguished: it decides whether the entry is distinguished, and for each
   * ancestor it meets; no distinguished ancestor is left out.
   */
  method DecideDistinguished(ts: Timestamps, rmw: nat, n: nat, pos: nat)
    returns (posDist: bool, ancestorDist: map<nat, bool>, requested: seq<nat>, ghost rest: seq<nat>)
    requires pos < n <= |ts|
    ensures posDist <==> pos in Distinguished(ts, rmw, n)
    ensures Found(ts, rmw, n, ancestorDist, requested)
    ensures requested + rest == PathDown(0, n, pos) && forall a :: a in rest ==> a !in Distinguished(ts, rmw, n)
  {
    var bounds := (0, ts[n - 1]);
    ancestorDist, requested := map[], [];
    WholeTree(n);
    var curr := IbstRoot(n);
    ghost var lo: nat, hi: nat, all := 0, n, PathDown(0, n, pos);
    while curr != pos
      invariant Walking(ts, rmw, n, pos, curr, lo, hi, bounds.0, bounds.1)
      invariant requested + PathDown(lo, hi, pos) == all
      invariant Found(ts, rmw, n, ancestorDist, requested)
      decreases hi - lo
    {
      var dist;
      dist, ancestorDist := MeetEntry(ts, rmw, n, pos, curr, bounds, ancestorDist, lo, hi, requested);
      if !dist {
        PathStep(requested, lo, hi, curr, pos);
        NotFurther(Distinguished(ts, rmw, n), lo, hi, curr, pos);
        rest := if pos < curr then PathDown(lo, curr, pos) else PathDown(curr + 1, hi, pos);
        return false, ancestorDist, requested + [curr], rest;
      }
      var met := curr;
      ghost var from: nat, to: nat := lo, hi;
      curr, bounds, lo, hi := StepTowards(ts, rmw, n, pos, curr, bounds, lo, hi);
      PathGoesOn(requested, from, to, met, pos, lo, hi);
      requested := requested + [met];
    }
    rest := [];
    posDist := Minus(bounds.1, bounds.0) >= rmw;
  }

  lemma PathGoesOn(before: seq<nat>, lo: nat, hi: nat, root: nat, target: nat, lo': nat, hi': nat)
    requires lo < hi && root == RootOf(lo, hi) && target != root
    requires if target < root then lo' == lo && hi' == root else lo' == root + 1 && hi' == hi
    ensures before + PathDown(lo, hi, target) == before + [root] + PathDown(lo', hi', target)
  {
    PathStep(before, lo, hi, root, target);
  }

  /** Where an interval has nothing chosen, nor has the rest of a path into it. */
  lemma NotFurther(chosen: set<nat>, lo: nat, hi: nat, curr: nat, pos: nat)
    requires lo <= pos < hi && lo <= curr < hi && pos != curr && forall y: nat :: lo <= y < hi ==> y !in chosen
    ensures forall a :: a in (if pos < curr then PathDown(lo, curr, pos) else PathDown(curr + 1, hi, pos)) ==>
            a !in chosen
  {
    if pos < curr { PathIsSearch(lo, curr, pos); } else { PathIsSearch(curr + 1, hi, pos); }
  }
}
