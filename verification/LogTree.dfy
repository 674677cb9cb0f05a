/**
 * Values of the log tree over a sequence of leaf values, and the peak accumulator that keeps
 * them (src/tree/log.rs, resolve_node_simple; src/client/verifier.rs, LogAccumulator).
 */
module LogTree {
  import opened Digests
  import opened LogMath

  type Leaves = seq<Digest>

  lemma PresentLeft(k: nat, j: nat, n: nat)
    requires k > 0
    ensures Present(k, j, n) <==> Present(k - 1, 2 * j, n)
    ensures Present(k - 1, 2 * j + 1, n) ==> Present(k, j, n)
  {
    if n > 0 { ShiftSplit(n - 1, k - 1); }
  }

  /** The value of a node; a node whose right side is absent takes its left child's value. */
  function NodeValue(leaves: Leaves, k: nat, j: nat): (v: Digest)
    requires Present(k, j, |leaves|)
    decreases k, leaves
  {
    if k == 0 then leaves[j]
    else
      PresentLeft(k, j, |leaves|);
      var left := NodeValue(leaves, k - 1, 2 * j);
      if Present(k - 1, 2 * j + 1, |leaves|)
      then LogNode(left, k == 1, NodeValue(leaves, k - 1, 2 * j + 1), k == 1)
      else left
  }

  /** The height of the tree over n leaves. */
  function Height(n: nat): (k: nat) {
    if n <= 1 then 0 else BitLength(n - 1)
  }

  lemma RootPresent(n: nat)
    requires n > 0
    ensures Present(Height(n), 0, n) && Shift(n - 1, Height(n)) == 0
  {
    if n > 1 {
      BitLengthBounds(n - 1);
      ShiftPastEnd(n - 1, Height(n));
    }
  }

  function LogRoot(leaves: Leaves): (root: Digest) {
    if leaves == [] then Zero
    else RootPresent(|leaves|); NodeValue(leaves, Height(|leaves|), 0)
  }

  lemma CompleteIsPresent(k: nat, j: nat, n: nat)
    requires Complete(k, j, n)
    ensures Present(k, j, n)
  {
    CompleteFirst(k, j, n);
    FirstStep(k, j);
    PresentFirst(k, j, n);
  }

  lemma CompleteChildren(k: nat, j: nat, n: nat)
    requires k > 0 && Complete(k, j, n)
    ensures Complete(k - 1, 2 * j, n) && Complete(k - 1, 2 * j + 1, n)
  {
    ShiftSplit(n, k - 1);
  }

  lemma CompleteGrows(k: nat, j: nat, n: nat, n': nat)
    requires n <= n' && Complete(k, j, n)
    ensures Complete(k, j, n')
  {
    ShiftMonotone(n, n', k);
  }

  /** A complete subtree keeps its value while the log grows. */
  lemma {:induction false} ValueStable(leaves: Leaves, leaves': Leaves, k: nat, j: nat)
    requires leaves <= leaves' && Complete(k, j, |leaves|)
    ensures Present(k, j, |leaves|) && Present(k, j, |leaves'|)
    ensures NodeValue(leaves, k, j) == NodeValue(leaves', k, j)
    decreases k
  {
    CompleteGrows(k, j, |leaves|, |leaves'|);
    CompleteIsPresent(k, j, |leaves|);
    CompleteIsPresent(k, j, |leaves'|);
    if k > 0 {
      CompleteChildren(k, j, |leaves|);
      ValueStable(leaves, leaves', k - 1, 2 * j);
      ValueStable(leaves, leaves', k - 1, 2 * j + 1);
    }
  }

  // ---- the accumulator ----

  type Peak = (nat, Digest)

  /** The values of the full subtrees at level h and above, left to right; q is at most n >> h. */
  function PeakValues(leaves: Leaves, q: nat, h: nat): (peaks: seq<Peak>)
    requires q <= Shift(|leaves|, h)
    ensures |peaks| == |Peaks(q, h)| && forall i :: 0 <= i < |peaks| ==> peaks[i].0 == Peaks(q, h)[i].level
    decreases q, leaves
  {
    ShiftSplit(|leaves|, h);
    if q == 0 then []
    else if q % 2 == 1 then
      CompleteIsPresent(h, q - 1, |leaves|);
      PeakValues(leaves, q / 2, h + 1) + [(h, NodeValue(leaves, h, q - 1))]
    else PeakValues(leaves, q / 2, h + 1)
  }

  /** The peaks with a node of height h added on the right: equal heights merge. */
  function MergeInto(prefix: seq<Peak>, h: nat, v: Digest): (merged: seq<Peak>)
    decreases |prefix|
  {
    var n := |prefix|;
    if n > 0 && prefix[n - 1].0 == h
    then MergeInto(prefix[..n - 1], h + 1, LogNode(prefix[n - 1].1, h == 0, v, h == 0))
    else prefix + [(h, v)]
  }

  /** The root over peaks: the last one is folded under the ones to its left. */
  function FoldPeaks(peaks: seq<Peak>): (root: Digest)
    requires peaks != []
    decreases |peaks|
  {
    if |peaks| == 1 then peaks[0].1
    else LogNode(peaks[0].1, peaks[0].0 == 0, FoldPeaks(peaks[1..]), false)
  }

  lemma {:induction false} PeakValuesStable(leaves: Leaves, leaves': Leaves, q: nat, h: nat)
    requires leaves <= leaves' && q <= Shift(|leaves|, h)
    ensures q <= Shift(|leaves'|, h) && PeakValues(leaves, q, h) == PeakValues(leaves', q, h)
    decreases q
  {
    ShiftMonotone(|leaves|, |leaves'|, h);
    ShiftSplit(|leaves|, h);
    if q > 0 {
      PeakValuesStable(leaves, leaves', q / 2, h + 1);
      if q % 2 == 1 { ValueStable(leaves, leaves', h, q - 1); }
    }
  }

  lemma {:induction false} PeaksAbove(q: nat, h: nat)
    ensures forall i :: 0 <= i < |Peaks(q, h)| ==> Peaks(q, h)[i].level >= h
    ensures q % 2 == 0 ==> forall i :: 0 <= i < |Peaks(q, h)| ==> Peaks(q, h)[i].level > h
    decreases q
  {
    if q > 0 { PeaksAbove(q / 2, h + 1); }
  }

  lemma MergeStep(prefix: seq<Peak>, h: nat, l: Digest, r: Digest)
    ensures MergeInto(prefix + [(h, l)], h, r) == MergeInto(prefix, h + 1, LogNode(l, h == 0, r, h == 0))
  {
    assert (prefix + [(h, l)])[..|prefix|] == prefix;
  }

  /** A node with both children complete hashes them. */
  lemma CompleteValue(leaves: Leaves, k: nat, j: nat)
    requires Complete(k + 1, j, |leaves|)
    ensures Present(k + 1, j, |leaves|) && Present(k, 2 * j, |leaves|) && Present(k, 2 * j + 1, |leaves|)
    ensures NodeValue(leaves, k + 1, j) ==
            LogNode(NodeValue(leaves, k, 2 * j), k == 0, NodeValue(leaves, k, 2 * j + 1), k == 0)
  {
    CompleteChildren(k + 1, j, |leaves|);
    CompleteIsPresent(k + 1, j, |leaves|);
    CompleteIsPresent(k, 2 * j, |leaves|);
    CompleteIsPresent(k, 2 * j + 1, |leaves|);
  }

  /** Merging in a new node at level h next to the full subtrees above it. */
  lemma {:induction false} MergeIsNext(leaves: Leaves, x: Digest, q: nat, h: nat)
    requires q == Shift(|leaves|, h) && q + 1 == Shift(|leaves| + 1, h)
    ensures Present(h, q, |leaves| + 1)
    ensures MergeInto(PeakValues(leaves, q, h), h, NodeValue(leaves + [x], h, q)) == PeakValues(leaves + [x], q + 1, h)
    decreases q
  {
    CompleteIsPresent(h, q, |leaves| + 1);
    ShiftSplit(|leaves|, h);
    ShiftSplit(|leaves| + 1, h);
    if q % 2 == 1 {
      MergeIsNext(leaves, x, q / 2, h + 1);
      MergeOdd(leaves, x, q, h);
    } else {
      MergeEven(leaves, x, q, h);
    }
  }

  lemma MergeEven(leaves: Leaves, x: Digest, q: nat, h: nat)
    requires q == Shift(|leaves|, h) && q + 1 == Shift(|leaves| + 1, h) && q % 2 == 0
    requires Present(h, q, |leaves| + 1)
    ensures MergeInto(PeakValues(leaves, q, h), h, NodeValue(leaves + [x], h, q)) == PeakValues(leaves + [x], q + 1, h)
  {
    PeaksAbove(q, h);
    PeakValuesStable(leaves, leaves + [x], q, h);
    PeakValuesEven(leaves + [x], q, h);
  }

  lemma PeakValuesEven(leaves: Leaves, q: nat, h: nat)
    requires q % 2 == 0 && q + 1 <= Shift(|leaves|, h)
    ensures Present(h, q, |leaves|)
    ensures PeakValues(leaves, q + 1, h) == PeakValues(leaves, q, h) + [(h, NodeValue(leaves, h, q))]
  {
    CompleteIsPresent(h, q, |leaves|);
    ShiftSplit(|leaves|, h);
  }

  lemma OddPeaks(leaves: Leaves, q: nat, h: nat)
    requires q % 2 == 1 && q <= Shift(|leaves|, h)
    ensures Present(h, q - 1, |leaves|) && q / 2 <= Shift(|leaves|, h + 1)
    ensures PeakValues(leaves, q, h) == PeakValues(leaves, q / 2, h + 1) + [(h, NodeValue(leaves, h, q - 1))]
  {
    ShiftSplit(|leaves|, h);
    CompleteIsPresent(h, q - 1, |leaves|);
  }

  lemma EvenPeaks(leaves: Leaves, q: nat, half: nat, h: nat)
    requires q == 2 * half && q <= Shift(|leaves|, h)
    ensures half <= Shift(|leaves|, h + 1) && PeakValues(leaves, q, h) == PeakValues(leaves, half, h + 1)
  {
    ShiftSplit(|leaves|, h);
  }

  /** A new node completes a pair with the full subtree to its left. */
  lemma OddNode(leaves: Leaves, x: Digest, q: nat, h: nat)
    requires q == Shift(|leaves|, h) && q % 2 == 1 && q / 2 + 1 == Shift(|leaves| + 1, h + 1)
    requires Present(h, q, |leaves| + 1) && Present(h + 1, q / 2, |leaves| + 1) && Present(h, q - 1, |leaves|)
    ensures NodeValue(leaves + [x], h + 1, q / 2) ==
            LogNode(NodeValue(leaves, h, q - 1), h == 0, NodeValue(leaves + [x], h, q), h == 0)
  {
    ValueStable(leaves, leaves + [x], h, q - 1);
    CompleteValue(leaves + [x], h, q / 2);
  }

  lemma MergeOdd(leaves: Leaves, x: Digest, q: nat, h: nat)
    requires q == Shift(|leaves|, h) && q + 1 == Shift(|leaves| + 1, h) && q % 2 == 1
    requires q / 2 == Shift(|leaves|, h + 1) && q / 2 + 1 == Shift(|leaves| + 1, h + 1)
    requires Present(h, q, |leaves| + 1) && Present(h + 1, q / 2, |leaves| + 1)
    requires MergeInto(PeakValues(leaves, q / 2, h + 1), h + 1, NodeValue(leaves + [x], h + 1, q / 2)) ==
             PeakValues(leaves + [x], q / 2 + 1, h + 1)
    ensures MergeInto(PeakValues(leaves, q, h), h, NodeValue(leaves + [x], h, q)) == PeakValues(leaves + [x], q + 1, h)
  {
    OddPeaks(leaves, q, h);
    EvenPeaks(leaves + [x], q + 1, q / 2 + 1, h);
    OddNode(leaves, x, q, h);
    MergeStep(PeakValues(leaves, q / 2, h + 1), h, NodeValue(leaves, h, q - 1), NodeValue(leaves + [x], h, q));
  }

  /** Appending a leaf to the accumulator gives the peaks of the longer log. */
  lemma AppendIsNext(leaves: Leaves, x: Digest)
    ensures MergeInto(PeakValues(leaves, |leaves|, 0), 0, x) == PeakValues(leaves + [x], |leaves| + 1, 0)
  {
    MergeIsNext(leaves, x, |leaves|, 0);
  }

  /** The values of the full subtrees below level h. */
  function LowValues(leaves: Leaves, h: nat): (peaks: seq<Peak>)
    ensures (peaks == [] <==> Rem(|leaves|, h) == 0) && forall i :: 0 <= i < |peaks| ==> peaks[i].0 < h
    decreases h, leaves
  {
    if h == 0 then []
    else if Shift(|leaves|, h - 1) % 2 == 1 then
      CompleteIsPresent(h - 1, Shift(|leaves|, h - 1) - 1, |leaves|);
      [(h - 1, NodeValue(leaves, h - 1, Shift(|leaves|, h - 1) - 1))] + LowValues(leaves, h - 1)
    else LowValues(leaves, h - 1)
  }

  lemma {:induction false} PeakValuesSplit(leaves: Leaves, h: nat)
    ensures PeakValues(leaves, |leaves|, 0) == PeakValues(leaves, Shift(|leaves|, h), h) + LowValues(leaves, h)
    decreases h
  {
    if h > 0 {
      PeakValuesSplit(leaves, h - 1);
      ShiftSplit(|leaves|, h - 1);
    }
  }

  /** Where leaves remain past the complete nodes of a level, there is one partial node more. */
  lemma PartialPresent(n: nat, h: nat)
    ensures Present(h, Shift(n, h), n) <==> Rem(n, h) > 0
    ensures !Present(h, Shift(n, h) + 1, n)
  {
    RemSplit(n, h);
    PresentFirst(h, Shift(n, h), n);
    NothingPastPartial(n, h);
  }

  lemma NothingPastPartial(n: nat, h: nat)
    ensures !Present(h, Shift(n, h) + 1, n)
  {
    if n > 0 { ShiftMonotone(n - 1, n, h); }
  }

  lemma FoldCons(p: Peak, rest: seq<Peak>)
    ensures FoldPeaks([p] + rest) == if rest == [] then p.1 else LogNode(p.1, p.0 == 0, FoldPeaks(rest), false)
  {
    assert ([p] + rest)[1..] == rest;
  }

  /** The partial node at the right edge of a level is the fold of the peaks below the level. */
  lemma {:induction false} LowFoldsToEdge(leaves: Leaves, h: nat)
    requires Rem(|leaves|, h) > 0
    ensures Present(h, Shift(|leaves|, h), |leaves|)
    ensures FoldPeaks(LowValues(leaves, h)) == NodeValue(leaves, h, Shift(|leaves|, h))
    decreases h
  {
    var n := |leaves|;
    PartialPresent(n, h);
    PartialPresent(n, h - 1);
    ShiftSplit(n, h - 1);
    if Rem(n, h - 1) > 0 { LowFoldsToEdge(leaves, h - 1); }
    var q := Shift(n, h - 1);
    if q % 2 == 1 {
      CompleteIsPresent(h - 1, q - 1, n);
      FoldCons((h - 1, NodeValue(leaves, h - 1, q - 1)), LowValues(leaves, h - 1));
    }
  }

  /** The accumulator's root is the tree's root. */
  lemma FoldIsLogRoot(leaves: Leaves)
    requires leaves != []
    ensures PeakValues(leaves, |leaves|, 0) != []
    ensures FoldPeaks(PeakValues(leaves, |leaves|, 0)) == LogRoot(leaves)
  {
    RootPresent(|leaves|);
    PeakValuesSplit(leaves, Height(|leaves|));
    FoldSpanning(leaves, Height(|leaves|), PeakValues(leaves, |leaves|, 0));
  }

  lemma FoldSpanning(leaves: Leaves, k: nat, peaks: seq<Peak>)
    requires leaves != [] && Present(k, 0, |leaves|) && Shift(|leaves| - 1, k) == 0
    requires peaks == PeakValues(leaves, Shift(|leaves|, k), k) + LowValues(leaves, k)
    ensures peaks != [] && FoldPeaks(peaks) == NodeValue(leaves, k, 0)
  {
    if Rem(|leaves|, k) > 0 {
      PartialRoot(leaves, k);
      assert peaks == LowValues(leaves, k);
    } else {
      FullRoot(|leaves|, k);
      CompleteRoot(leaves, k);
    }
  }

  lemma PartialRoot(leaves: Leaves, k: nat)
    requires leaves != [] && Shift(|leaves| - 1, k) == 0 && Rem(|leaves|, k) > 0
    ensures Shift(|leaves|, k) == 0 && Present(k, 0, |leaves|)
    ensures FoldPeaks(LowValues(leaves, k)) == NodeValue(leaves, k, 0)
    ensures PeakValues(leaves, 0, k) == []
  {
    PartialPresent(|leaves|, k);
    LowFoldsToEdge(leaves, k);
  }

  lemma CompleteRoot(leaves: Leaves, k: nat)
    requires Shift(|leaves|, k) == 1 && Rem(|leaves|, k) == 0
    ensures Present(k, 0, |leaves|)
    ensures PeakValues(leaves, 1, k) == [(k, NodeValue(leaves, k, 0))] && LowValues(leaves, k) == []
  {
    CompleteIsPresent(k, 0, |leaves|);
    ShiftSplit(|leaves|, k);
    assert PeakValues(leaves, 0, k + 1) == [];
  }

  /** A tree whose height spans exactly its leaves is one full subtree. */
  lemma FullRoot(n: nat, k: nat)
    requires n > 0 && Shift(n - 1, k) == 0 && Rem(n, k) == 0
    ensures Shift(n, k) == 1
  {
    RemSplit(n, k);
    FirstZero(k);
    FirstBound(k, 1, n - 1);
    FirstBound(k, 2, n);
    FirstStep(k, 0);
    FirstStep(k, 1);
  }

  lemma {:induction false} FirstZero(k: nat)
    ensures First(k, 0) == 0
  {
    if k > 0 { FirstZero(k - 1); }
  }
}
