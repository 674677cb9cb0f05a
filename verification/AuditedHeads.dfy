/** What an accepted auditor's head covers (src/client/core.rs, verify_auditor_tree_head). */
module AuditedHeads {
  import opened Digests
  import opened LogMath
  import opened LogTree
  import opened LogProofs
  import opened LogLaws
  import opened ClientState

  /** Captured values of full subtrees that are the log's own are those of the earlier log. */
  lemma {:induction false} CapturedPeaks(leaves: Leaves, size: nat, captured: Values, q: nat, h: nat)
    requires size <= |leaves| && TrueNodes(leaves, captured) && q == Shift(size, h)
    requires forall k: nat, j: nat :: k >= h && IsPeak(size, k, j) ==> Id(k, j) in captured
    ensures q <= Shift(|leaves[..size]|, h) && PeaksOf(captured, q, h) == PeakValues(leaves[..size], q, h)
    decreases q
  {
    ShiftSplit(size, h);
    if q > 0 {
      CapturedPeaks(leaves, size, captured, q / 2, h + 1);
      if q % 2 == 1 { CapturedPeak(leaves, size, captured, h, q - 1); }
    }
  }

  lemma CapturedPeak(leaves: Leaves, size: nat, captured: Values, k: nat, j: nat)
    requires size <= |leaves| && TrueNodes(leaves, captured) && IsPeak(size, k, j) && Id(k, j) in captured
    ensures Present(k, j, |leaves[..size]|) && At(captured, Id(k, j)) == NodeValue(leaves[..size], k, j)
  {
    ValueStable(leaves[..size], leaves, k, j);
    assert TrueNode(leaves, k, j, captured[Id(k, j)]);
  }

  /** The root folded from captured values of the log is the root of the earlier log. */
  lemma CapturedRoot(leaves: Leaves, size: nat, captured: Values)
    requires size <= |leaves| && TrueNodes(leaves, captured) && PeakIds(size) <= captured.Keys
    ensures RootAt(size, captured) == LogRoot(leaves[..size])
  {
    if size > 0 {
      forall k: nat, j: nat | IsPeak(size, k, j) ensures Id(k, j) in captured { PeakIdsAre(size, k, j); }
      CapturedPeaks(leaves, size, captured, size, 0);
      FoldIsLogRoot(leaves[..size]);
    }
  }

  /**
   * Whatever the proof: once the candidate root is that of a log, an auditor's head that is accepted
   * signs the root of the same log at the auditor's own size.
   */
  lemma AuditorSignsEarlierRoot(client: KtClient, ath: AuditorTreeHead, th: TreeHead, q: Query, proof: seq<Digest>,
                                leaves: Leaves)
    requires leaves != [] && q.n == |leaves| == th.treeSize && forall i :: i in q.provided ==> i < q.n
    requires CalculatedRoot(q, proof).Ok? && CalculatedRoot(q, proof).value.0 == LogRoot(leaves)
    requires client.AuditorAccepted(ath, th, q.n, CalculatedRoot(q, proof).value.0, CalculatedRoot(q, proof).value.1)
    ensures ath.treeSize <= |leaves|
    ensures ath.signature == (ath.treeSize, ath.timestamp, LogRoot(leaves[..ath.treeSize]))
  {
    ReconstructionBinds(leaves, q, proof);
    if ath.treeSize == q.n {
      assert leaves[..q.n] == leaves;
    } else {
      CapturedRoot(leaves, ath.treeSize, CalculatedRoot(q, proof).value.1);
    }
  }
}
