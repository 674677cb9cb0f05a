/**
 * The owner's walk over distinguished entries (section 8.3 of draft-ietf-keytrans-protocol-05):
 * what it asks for, and the server's list of actions (src/tree/traversal.rs).
 */
module OwnerWalk {
  import opened Digests
  import opened Ibst
  import opened DistinguishedEntries
  import opened CombinedProof
  import opened ProofReader

  /** What the walk asks for among the entries from lo up to hi. */
  function OwnerRequests(ts: Timestamps, rmw: nat, start: nat, lo: nat, hi: nat, left: nat, right: nat)
    : (rs: seq<Request>)
    requires hi <= |ts|
    decreases hi - lo, ts
  {
    if lo >= hi || Minus(right, left) < rmw then []
    else
      var x := RootOf(lo, hi);
      var after := OwnerRequests(ts, rmw, start, x + 1, hi, ts[x], right);
      if x <= start then [Stamp(x)] + after
      else [Stamp(x)] + OwnerRequests(ts, rmw, start, lo, x, left, ts[x]) + [Proof(x)] + after
  }

  /** What the walk asks for at an entry between the entry's timestamp and its right side. */
  function MiddleRequests(ts: Timestamps, rmw: nat, start: nat, lo: nat, x: nat, left: nat): (rs: seq<Request>)
    requires x < |ts|
  {
    if x <= start then [] else OwnerRequests(ts, rmw, start, lo, x, left, ts[x]) + [Proof(x)]
  }

  lemma OwnerParts(ts: Timestamps, rmw: nat, start: nat, lo: nat, hi: nat, left: nat, right: nat, x: nat)
    requires lo < hi <= |ts| && x == RootOf(lo, hi) && Minus(right, left) >= rmw
    ensures OwnerRequests(ts, rmw, start, lo, hi, left, right) ==
            [Stamp(x)] + MiddleRequests(ts, rmw, start, lo, x, left)
            + OwnerRequests(ts, rmw, start, x + 1, hi, ts[x], right)
  {
    var inner := OwnerRequests(ts, rmw, start, lo, x, left, ts[x]);
    assert [Stamp(x)] + (inner + [Proof(x)]) == [Stamp(x)] + inner + [Proof(x)];
    assert [Stamp(x)] + [] == [Stamp(x)];
  }

  /** The entries whose proofs are asked for, in order. */
  function Laddered(rs: seq<Request>): (xs: seq<nat>)
    decreases |rs|
  {
    if rs == [] then [] else (if rs[0].wantsProof then [rs[0].pos] else []) + Laddered(rs[1..])
  }

  lemma {:induction false} LadderedSum(a: seq<Request>, b: seq<Request>)
    ensures Laddered(a + b) == Laddered(a) + Laddered(b)
    decreases |a|
  {
    if a == [] {
      assert a + b == b;
    } else {
      LadderedSum(a[1..], b);
      assert (a + b)[1..] == a[1..] + b;
    }
  }

  lemma LadderedParts(x: nat, before: seq<Request>, after: seq<Request>)
    ensures Laddered([Stamp(x)] + after) == Laddered(after)
    ensures Laddered([Stamp(x)] + before + [Proof(x)] + after) == Laddered(before) + [x] + Laddered(after)
  {
    LadderedSum([Stamp(x)], after);
    LadderedSum([Stamp(x)], before);
    LadderedProof([Stamp(x)] + before, x, after);
  }

  lemma LadderedProof(before: seq<Request>, x: nat, after: seq<Request>)
    ensures Laddered(before + [Proof(x)] + after) == Laddered(before) + [x] + Laddered(after)
  {
    LadderedSum(before + [Proof(x)], after);
    LadderedSum(before, [Proof(x)]);
  }

  /** Increasing, from a up to b. */
  predicate IncreasingIn(xs: seq<nat>, a: nat, b: nat) {
    Increasing(xs) && forall i :: 0 <= i < |xs| ==> a <= xs[i] < b
  }

  lemma IncreasingJoin(xs: seq<nat>, x: nat, ys: seq<nat>, a: nat, b: nat)
    requires IncreasingIn(xs, a, x) && IncreasingIn(ys, x + 1, b) && a <= x < b
    ensures IncreasingIn(xs + [x] + ys, a, b)
  {
  }

  /** The entries asked for are the chosen ones after the start, in increasing order. */
  lemma {:induction false} LadderedAreChosen(ts: Timestamps, rmw: nat, start: nat, lo: nat, hi: nat, left: nat,
                                             right: nat, xs: seq<nat>)
    requires hi <= |ts| && xs == Laddered(OwnerRequests(ts, rmw, start, lo, hi, left, right))
    ensures IncreasingIn(xs, lo, hi)
    ensures forall x :: x in xs <==> x in Chosen(ts, rmw, lo, hi, left, right) && x > start
    decreases hi - lo
  {
    if lo < hi && Minus(right, left) >= rmw {
      var x := RootOf(lo, hi);
      var before := OwnerRequests(ts, rmw, start, lo, x, left, ts[x]);
      var after := OwnerRequests(ts, rmw, start, x + 1, hi, ts[x], right);
      LadderedParts(x, before, after);
      LadderedAreChosen(ts, rmw, start, x + 1, hi, ts[x], right, Laddered(after));
      ChosenInside(ts, rmw, lo, x, left, ts[x]);
      if x > start {
        LadderedAreChosen(ts, rmw, start, lo, x, left, ts[x], Laddered(before));
        IncreasingJoin(Laddered(before), x, Laddered(after), lo, hi);
      }
    }
  }

  /** The walk asks for a ladder at exactly the distinguished entries right of the start, in order. */
  lemma OwnerLadders(ts: Timestamps, rmw: nat, start: nat, n: nat)
    requires 0 < n <= |ts|
    ensures var xs := Laddered(OwnerRequests(ts, rmw, start, 0, n, 0, ts[n - 1]));
            Increasing(xs) && forall x :: x in xs <==> x in Distinguished(ts, rmw, n) && x > start
  {
    LadderedAreChosen(ts, rmw, start, 0, n, 0, ts[n - 1], Laddered(OwnerRequests(ts, rmw, start, 0, n, 0, ts[n - 1])));
  }

  // ---- the server ----

  /** An action: `target` is the greatest version of a ladder at the entry, none a timestamp only. */
  datatype Action = Action(pos: nat, target: Option<nat>)

  function RequestOf(a: Action): Request {
    Request(a.pos, a.target.Some?)
  }

  function RequestsOf(actions: seq<Action>): (rs: seq<Request>)
    ensures |rs| == |actions| && forall i :: 0 <= i < |rs| ==> rs[i] == RequestOf(actions[i])
  {
    seq(|actions|, i requires 0 <= i < |actions| => RequestOf(actions[i]))
  }

  /** The ladder of an action targets the greatest version there; an absent label counts as version 0. */
  predicate GoodAction(a: Action, greatest: seq<Option<nat>>) {
    a.target.Some? ==> a.pos < |greatest| && a.target.value == if greatest[a.pos].Some? then greatest[a.pos].value
        else 0
  }

  lemma MoreRequests(out: seq<Action>, a: Action, r: Request, before: seq<Request>, part: seq<Request>)
    requires RequestsOf(out) == before + part && r == RequestOf(a)
    ensures RequestsOf(out + [a]) == before + (part + [r])
  {
    assert RequestsOf(out + [a]) == RequestsOf(out) + [r];
  }

  /** `owner_walk_actions`, appending to `out`. */
  method OwnerWalkActions(ts: Timestamps, greatest: seq<Option<nat>>, node: nat, left: nat, right: nat, start: nat,
                          n: nat, rmw: nat, before: seq<Action>, ghost lo: nat, ghost hi: nat)
    returns (out: seq<Action>)
    requires lo < hi && IsSubtree(n, lo, hi) && node == RootOf(lo, hi) && n <= |ts| == |greatest|
    requires forall a :: a in before ==> GoodAction(a, greatest)
    ensures hi <= n && forall a :: a in out ==> GoodAction(a, greatest)
    ensures RequestsOf(out) == RequestsOf(before) + OwnerRequests(ts, rmw, start, lo, hi, left, right)
    decreases hi - lo, 0
  {
    var leftChild, rightChild := Children(node, n, lo, hi);
    out := before;
    if Minus(right, left) < rmw {
      return;
    }
    var nodeTs := ts[node];
    ghost var had, part := RequestsOf(before), [Stamp(node)];
    MoreRequests(out, Action(node, None), Stamp(node), had, []);
    out := out + [Action(node, None)];
    if node > start {
      out := ChildActions(ts, greatest, leftChild, left, nodeTs, start, n, rmw, out, lo, node);
      var a := Action(node, Some(if greatest[node].Some? then greatest[node].value else 0));
      MoreRequests(out, a, Proof(node), had, part + OwnerRequests(ts, rmw, start, lo, node, left, nodeTs));
      out := out + [a];
    }
    part := part + MiddleRequests(ts, rmw, start, lo, node, left);
    MiddleJoins([Stamp(node)], ts, rmw, start, lo, node, left);
    out := ChildActions(ts, greatest, rightChild, nodeTs, right, start, n, rmw, out, node + 1, hi);
    OwnerParts(ts, rmw, start, lo, hi, left, right, node);
    JoinThree(had, part, OwnerRequests(ts, rmw, start, node + 1, hi, nodeTs, right));
  }

  lemma JoinThree(a: seq<Request>, b: seq<Request>, c: seq<Request>)
    ensures a + b + c == a + (b + c)
  {
  }

  lemma MiddleJoins(before: seq<Request>, ts: Timestamps, rmw: nat, start: nat, lo: nat, x: nat, left: nat)
    requires x < |ts|
    ensures before + MiddleRequests(ts, rmw, start, lo, x, left) ==
            if x <= start then before else before + OwnerRequests(ts, rmw, start, lo, x, left, ts[x]) + [Proof(x)]
  {
  }

  method ChildActions(ts: Timestamps, greatest: seq<Option<nat>>, child: Option<nat>, left: nat, right: nat, start: nat,
                      n: nat, rmw: nat, before: seq<Action>, ghost lo: nat, ghost hi: nat)
    returns (out: seq<Action>)
    requires lo <= hi <= n <= |ts| == |greatest| && IsChild(child, n, lo, hi)
    requires forall a :: a in before ==> GoodAction(a, greatest)
    ensures forall a :: a in out ==> GoodAction(a, greatest)
    ensures RequestsOf(out) == RequestsOf(before) + OwnerRequests(ts, rmw, start, lo, hi, left, right)
    decreases hi - lo, 1
  {
    out := before;
    if child.Some? {
      out := OwnerWalkActions(ts, greatest, child.value, left, right, start, n, rmw, out, lo, hi);
    }
  }
}
