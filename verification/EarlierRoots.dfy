/**
 * Roots of earlier sizes read from the chunks of a longer log (src/tree/log.rs, get_root; src/tree/audit.rs).
 */
module EarlierRoots {
  import opened Digests
  import opened LogMath
  import opened LogTree
  import opened StoredLog

  /** The leaves below a value of the log tree. */
  function Weight(d: Digest): (w: nat) {
    match d
    case LogLeaf(_, _) => 1
    case LogNode(l, _, r, _) => Weight(l) + Weight(r)
    case _ => 0
  }

  ghost predicate AllLeaves(leaves: Leaves) {
    forall i :: 0 <= i < |leaves| ==> leaves[i].LogLeaf?
  }

  /** How the leaves below a node are those below its children. */
  lemma {:induction false} ChildrenSpan(k: nat, j: nat, n: nat)
    requires k > 0
    ensures First(k, j) == First(k - 1, 2 * j) && First(k - 1, 2 * j + 1) == First(k, j) + Pow2(k - 1)
    ensures Complete(k, j, n) <==> Complete(k - 1, 2 * j + 1, n)
    ensures Present(k - 1, 2 * j + 1, n) <==> First(k - 1, 2 * j + 1) < n
    ensures Complete(k - 1, 2 * j, n) <==> First(k - 1, 2 * j + 1) <= n
    ensures Complete(k, j, n) ==> Present(k - 1, 2 * j + 1, n)
    ensures Pow2(k) == 2 * Pow2(k - 1)
  {
    FirstStep(k - 1, 2 * j + 1);
    FirstStep(k - 1, 2 * j);
    CompleteFirst(k, j, n);
    CompleteFirst(k - 1, 2 * j, n);
    CompleteFirst(k - 1, 2 * j + 1, n);
    PresentFirst(k - 1, 2 * j + 1, n);
  }

  /** A node's value tells how many leaves it covers. */
  lemma {:induction false} WeightOfNode(leaves: Leaves, k: nat, j: nat)
    requires AllLeaves(leaves) && Present(k, j, |leaves|)
    ensures First(k, j) < |leaves|
    ensures Weight(NodeValue(leaves, k, j)) ==
            if Complete(k, j, |leaves|) then Pow2(k) else |leaves| - First(k, j)
    decreases k
  {
    PresentFirst(k, j, |leaves|);
    if k > 0 {
      PresentLeft(k, j, |leaves|);
      WeightOfNode(leaves, k - 1, 2 * j);
      ChildrenSpan(k, j, |leaves|);
      if Present(k - 1, 2 * j + 1, |leaves|) { WeightOfNode(leaves, k - 1, 2 * j + 1); }
    }
  }

  /** A node that n leaves complete is read with its value. */
  lemma {:induction false} CompleteRead(leaves: Leaves, n: nat, k: nat, j: nat)
    requires n <= |leaves| && Complete(k, j, n)
    ensures Present(k, j, n) && Read(leaves, n, k, j) == Ok(NodeValue(leaves[..n], k, j))
    decreases k
  {
    CompleteIsPresent(k, j, n);
    CompleteGrows(k, j, n, |leaves|);
    if k <= 3 {
      ValueStable(leaves[..n], leaves, k, j);
    } else {
      CompleteChildren(k, j, n);
      CompleteRead(leaves, n, k - 1, 2 * j);
      CompleteRead(leaves, n, k - 1, 2 * j + 1);
    }
  }

  /** The node over the last of n leaves at a level of the chunks was not complete then, and is now. */
  ghost predicate Completed(n: nat, size: nat, k: nat)
    requires n > 0
  {
    k <= 3 && !Complete(k, Shift(n - 1, k), n) && Complete(k, Shift(n - 1, k), size)
  }

  /** Reading the last node of a level: right, or of too many leaves if one on the way down has been completed. */
  ghost predicate LastRead(leaves: Leaves, n: nat, k: nat)
    requires 0 < n <= |leaves|
  {
    var r, v := Read(leaves, n, k, Shift(n - 1, k)), NodeValue(leaves[..n], k, Shift(n - 1, k));
    && r.Ok?
    && (if exists l :: 0 <= l <= k && Completed(n, |leaves|, l) then Weight(r.value) > Weight(v) else r.value == v)
  }

  lemma LastComplete(n: nat, k: nat, l: nat)
    requires n > 0 && l <= k && Complete(k, Shift(n - 1, k), n)
    ensures Complete(l, Shift(n - 1, l), n)
    decreases k - l
  {
    if l < k {
      ShiftSplit(n - 1, l);
      ShiftSplit(n, l);
      LastComplete(n, k, l + 1);
    }
  }

  lemma {:induction false} LastOfComplete(leaves: Leaves, n: nat, k: nat)
    requires 0 < n <= |leaves| && Complete(k, Shift(n - 1, k), n)
    ensures LastRead(leaves, n, k)
  {
    CompleteRead(leaves, n, k, Shift(n - 1, k));
    forall l | 0 <= l <= k
      ensures !Completed(n, |leaves|, l)
    {
      LastComplete(n, k, l);
    }
  }

  /** A node completed since has the leaves that came later as well. */
  lemma {:induction false} LastOfCompleted(leaves: Leaves, n: nat, k: nat)
    requires AllLeaves(leaves) && 0 < n <= |leaves| && Completed(n, |leaves|, k)
    ensures LastRead(leaves, n, k)
  {
    var j := Shift(n - 1, k);
    CompleteIsPresent(k, j, |leaves|);
    WeightOfNode(leaves, k, j);
    WeightOfNode(leaves[..n], k, j);
    CompleteFirst(k, j, n);
    FirstStep(k, j);
  }

  lemma {:induction false} CompletedBelow(n: nat, size: nat, k: nat)
    requires n > 0 && k > 0 && !Completed(n, size, k)
    ensures (exists l :: 0 <= l <= k && Completed(n, size, l)) <==> exists l :: 0 <= l <= k - 1 && Completed(n, size, l)
  {}

  /** Otherwise its last child decides. */
  lemma {:induction false} LastOfChild(leaves: Leaves, n: nat, k: nat, j: nat)
    requires 0 < n <= |leaves| && k > 0 && j == Shift(n - 1, k)
    requires !Complete(k, j, n) && !Completed(n, |leaves|, k) && LastRead(leaves, n, k - 1)
    ensures LastRead(leaves, n, k)
  {
    ShiftSplit(n - 1, k - 1);
    PresentLeft(k, j, n);
    CompletedBelow(n, |leaves|, k);
    ReadInner(leaves, n, k, j);
    if Present(k - 1, 2 * j + 1, n) {
      ShiftSmaller(n, k - 1);
      CompleteRead(leaves, n, k - 1, 2 * j);
    }
  }

  /** Nodes left of the last one are complete. */
  lemma {:induction false} ShiftSmaller(n: nat, k: nat)
    requires n > 0
    ensures forall j: nat :: j < Shift(n - 1, k) ==> Complete(k, j, n)
  {
    ShiftMonotone(n - 1, n, k);
  }

  lemma {:induction false} LastIsRead(leaves: Leaves, n: nat, k: nat)
    requires AllLeaves(leaves) && 0 < n <= |leaves|
    ensures LastRead(leaves, n, k)
    decreases k
  {
    if Complete(k, Shift(n - 1, k), n) {
      LastOfComplete(leaves, n, k);
    } else if Completed(n, |leaves|, k) {
      LastOfCompleted(leaves, n, k);
    } else {
      LastIsRead(leaves, n, k - 1);
      LastOfChild(leaves, n, k, Shift(n - 1, k));
    }
  }

  // ---- the root ----

  /**
   * The subtree over the last of n entries at level k, if it is one that chunks keep, was not full then but is in
   * the log of this size.
   */
  predicate Outgrown(n: nat, size: nat, k: nat) {
    k <= 3 && k <= Height(n) && Rem(n, k) != 0 && Shift(n, k) < Shift(size, k)
  }

  predicate Overwritten(n: nat, size: nat) {
    exists k :: 0 <= k <= 3 && Outgrown(n, size, k)
  }

  lemma {:induction false} LastSubtree(n: nat, k: nat)
    requires n > 0
    ensures Rem(n, k) == 0 <==> Shift(n - 1, k) < Shift(n, k)
    ensures Rem(n, k) != 0 ==> Shift(n - 1, k) == Shift(n, k)
  {
    var a := Shift(n - 1, k);
    RemSplit(n, k);
    RemSplit(n - 1, k);
    ShiftMonotone(n - 1, n, k);
    CompleteFirst(k, a, n);
    CompleteFirst(k, a + 1, n);
    FirstStep(k, a);
    FirstStep(k, a + 1);
  }

  lemma {:induction false} OutgrownIsCompleted(n: nat, size: nat, k: nat)
    requires 0 < n <= size && k <= Height(n)
    ensures Outgrown(n, size, k) <==> Completed(n, size, k)
  {
    LastSubtree(n, k);
  }

  /** What `get_root` reads for n entries of a longer log. */
  function ServedRoot(leaves: Leaves, n: nat): (r: Result<Digest>) {
    if n == 0 then Ok(Zero) else Read(leaves, n, Height(n), 0)
  }

  /** `get_root` gives the root of the first n entries if and only if none of their subtrees has been overwritten. */
  lemma {:induction false} EarlierRoot(leaves: Leaves, n: nat)
    requires AllLeaves(leaves) && 0 < n <= |leaves|
    ensures ServedRoot(leaves, n).Ok?
    ensures ServedRoot(leaves, n).value == LogRoot(leaves[..n]) <==> !Overwritten(n, |leaves|)
  {
    var h := Height(n);
    RootPresent(n);
    LastIsRead(leaves, n, h);
    forall k: nat | k <= h
      ensures Outgrown(n, |leaves|, k) <==> Completed(n, |leaves|, k)
    {
      OutgrownIsCompleted(n, |leaves|, k);
    }
  }
}
