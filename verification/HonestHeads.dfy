/**
 * Heads of an honest operator and an auditor that follows it (src/client/core.rs, verify_head_and_commit,
 * verify_auditor_tree_head): the client accepts them, and then follows the log.
 */
module HonestHeads {
  import opened Digests
  import opened LogMath
  import opened LogTree
  import opened LogProofs
  import opened LogServer
  import opened LogLaws
  import opened LogExtension
  import opened EarlierRoots
  import opened ClientState
  import opened AuditedHeads

  // ---- what a reconstruction captures ----

  /** A reconstruction loses no captured value, and captures its own node if wanted. */
  lemma {:induction false} CapturesMore(q: Query, k: nat, j: nat, proof: seq<Digest>, used: nat, captured: Values)
    requires Rebuild(q, k, j, proof, used, captured).Ok?
    ensures captured.Keys <= Rebuild(q, k, j, proof, used, captured).value.captured.Keys
    ensures Id(k, j) in q.wanted ==> Id(k, j) in Rebuild(q, k, j, proof, used, captured).value.captured
    decreases k
  {
    if k > 0 && Visited(q.provided.Keys, k, j) {
      CapturesMore(q, k - 1, 2 * j, proof, used, captured);
      if RightIndex(k - 1, j, q.n) != 2 * j {
        var l := Rebuild(q, k - 1, 2 * j, proof, used, captured).value;
        CapturesMore(q, k - 1, 2 * j + 1, proof, l.used, l.captured);
      }
    }
  }

  /** A wanted node next to a provided leaf is captured. */
  lemma {:induction false} CapturesReached(q: Query, k: nat, j: nat, proof: seq<Digest>, used: nat, captured: Values,
                                           h: nat, i: nat)
    requires Rebuild(q, k, j, proof, used, captured).Ok? && Present(h, i, q.n) && h <= k && Shift(i, k - h) == j
    requires Id(h, i) in q.wanted && (h == k || Visited(q.provided.Keys, h + 1, i / 2))
    ensures Id(h, i) in Rebuild(q, k, j, proof, used, captured).value.captured
    decreases k
  {
    CapturesMore(q, k, j, proof, used, captured);
    if h < k {
      ShiftOnce(i, k - h);
      VisitedAbove(q.provided.Keys, h + 1, i / 2, k);
      PresentAbove(q.n, h, i, k - 1);
      ShiftSplit(i, k - 1 - h);
      var c := Shift(i, k - 1 - h);
      var l := Rebuild(q, k - 1, 2 * j, proof, used, captured).value;
      if c == 2 * j {
        CapturesReached(q, k - 1, 2 * j, proof, used, captured, h, i);
      } else {
        CapturesReached(q, k - 1, 2 * j + 1, proof, l.used, l.captured, h, i);
      }
      if RightIndex(k - 1, j, q.n) != 2 * j { CapturesMore(q, k - 1, 2 * j + 1, proof, l.used, l.captured); }
    }
  }

  /** With the last leaf of an earlier log in a provided pair, all its full subtrees are next to provided leaves. */
  lemma {:induction false} PeakIsReached(n: nat, s: nat, positions: set<nat>, h: nat, i: nat)
    requires 0 < s < n && IsPeak(s, h, i) && Visited(positions, 1, Shift(s - 1, 1))
    ensures h < Height(n) && Present(h, i, n) && Shift(i, Height(n) - h) == 0 && Visited(positions, h + 1, i / 2)
  {
    PeakIsLow(s, n, h, i);
    ShiftMonotone(s, n, h);
    CompleteIsPresent(h, i, n);
    RootPresent(n);
    PresentAbove(n, h, i, Height(n));
    LastSubtree(s, h + 1);
    ShiftSplit(s, h);
    ShiftOnce(s - 1, h + 1);
    VisitedAbove(positions, 1, Shift(s - 1, 1), h + 1);
  }

  /** So an auditor's full subtrees are captured. */
  lemma {:induction false} AuditorPeaksCaptured(q: Query, proof: seq<Digest>, s: nat)
    requires 0 < s < q.n && PeakIds(s) <= q.wanted && Visited(q.provided.Keys, 1, Shift(s - 1, 1))
    requires CalculatedRoot(q, proof).Ok?
    ensures PeakIds(s) <= CalculatedRoot(q, proof).value.1.Keys
  {
    forall x | x in PeakIds(s)
      ensures x in CalculatedRoot(q, proof).value.1
    {
      CoordinatesId(x);
      var h, i := Level(x), IndexOf(x);
      PeakIdsAre(s, h, i);
      PeakIsReached(q.n, s, q.provided.Keys, h, i);
      CapturesReached(q, Height(q.n), 0, proof, 0, map[], h, i);
    }
  }

  // ---- the auditor's head ----

  /** The head of an auditor that follows the log, at its own size and not too far behind. */
  ghost predicate HonestAuditor(config: Config, ath: AuditorTreeHead, th: TreeHead, leaves: Leaves) {
    && ath.treeSize <= |leaves| == th.treeSize
    && ath.timestamp <= th.timestamp && th.timestamp - ath.timestamp <= config.maxAuditorLag
    && ath.signature == (ath.treeSize, ath.timestamp, LogRoot(leaves[..ath.treeSize]))
  }

  /** It is accepted if and only if it is level with the log or its full subtrees are captured. */
  lemma {:induction false} HonestAuditorAccepted(client: KtClient, ath: AuditorTreeHead, th: TreeHead, leaves: Leaves,
                                                 captured: Values)
    requires HonestAuditor(client.config, ath, th, leaves) && TrueNodes(leaves, captured)
    ensures client.AuditorAccepted(ath, th, |leaves|, LogRoot(leaves), captured) <==>
            ath.treeSize == |leaves| || PeakIds(ath.treeSize) <= captured.Keys
  {
    assert leaves[..|leaves|] == leaves;
    if PeakIds(ath.treeSize) <= captured.Keys { CapturedRoot(leaves, ath.treeSize, captured); }
  }

  // ---- the client's state ----

  /** The client trusts this log: its size and root, with the log's own values of the full subtrees. */
  ghost predicate FollowsLog(client: KtClient, leaves: Leaves)
    reads client
  {
    && client.Valid()
    && if leaves == [] then client.state.None?
       else client.Trusts(|leaves|, LogRoot(leaves)) && TrueNodes(leaves, client.retainedSubtrees)
  }

  lemma {:induction false} FollowerRetains(client: KtClient, leaves: Leaves)
    requires FollowsLog(client, leaves)
    ensures client.retainedSubtrees.Keys == PeakIds(|leaves|) && TrueNodes(leaves, client.retainedSubtrees)
  {}

  /**
   * The operator's head over its log: the same one for a client that has it, or an updated one that is signed and,
   * where the client asks for it, comes with an auditor's head whose boundary leaf or the other leaf of its pair is
   * read.
   */
  ghost predicate HonestHead(client: KtClient, fth: FullTreeHead, updated: bool, before: Leaves, leaves: Leaves,
                             positions: set<nat>)
    reads client
  {
    if updated then
      && fth.treeHead.Some? && fth.treeHead.value.treeSize == |leaves|
      && (|leaves|, LogRoot(leaves)) in fth.treeHead.value.signatures
      && (client.config.auditing ==>
            && fth.auditorTreeHead.Some?
            && HonestAuditor(client.config, fth.auditorTreeHead.value, fth.treeHead.value, leaves)
            && (client.auditorHead.Some? ==> client.config.auditorStartPos <= client.auditorHead.value.0)
            && BoundaryRead(fth.auditorTreeHead.value.treeSize, |leaves|, positions))
    else before == leaves
  }

  predicate BoundaryRead(s: nat, n: nat, positions: set<nat>) {
    0 < s < n ==> Visited(positions, 1, Shift(s - 1, 1))
  }

  /** What the operator sends, and what the client has read, for a log of which the client has the first entries. */
  ghost predicate HonestReading(before: Leaves, leaves: Leaves, positions: seq<nat>, hashes: seq<Digest>,
                                proof: seq<Digest>, bounds: set<nat>)
    requires Provides(positions, |leaves|)
  {
    && before <= leaves && |hashes| == |positions|
    && (forall i :: 0 <= i < |positions| ==> hashes[i] == leaves[positions[i]])
    && PairsProvided(SetOf(positions), bounds)
    && proof == BatchProof(leaves, SetOf(positions), bounds, PeakIds(|before|))
  }

  function SetOf(positions: seq<nat>): (s: set<nat>) {
    set x | x in positions
  }

  lemma {:induction false} PairsAreLeaves(leaves: Leaves, positions: seq<nat>, hashes: seq<Digest>, n: nat)
    requires n <= |positions| == |hashes| && forall i :: 0 <= i < |positions| ==>
               positions[i] < |leaves| && hashes[i] == leaves[positions[i]]
    ensures forall x :: x in Pairs(positions, hashes, n) <==> x in positions[..n]
    ensures forall x :: x in Pairs(positions, hashes, n) ==>
              x < |leaves| && Pairs(positions, hashes, n)[x] == leaves[x]
    decreases n
  {
    PairsAt(positions, hashes, n);
    if n > 0 { PairsAreLeaves(leaves, positions, hashes, n - 1); }
  }

  /** The reconstruction succeeds with the log's root, true values, and the auditor's full subtrees among them. */
  lemma {:induction false} HonestOutcome(client: KtClient, fth: FullTreeHead, before: Leaves, leaves: Leaves,
                                         positions: seq<nat>, hashes: seq<Digest>, proof: seq<Digest>,
                                         bounds: set<nat>, extra: set<nat>)
    requires FollowsLog(client, before) && leaves != [] && Provides(positions, |leaves|)
    requires HonestReading(before, leaves, positions, hashes, proof, bounds)
    ensures var r := client.HeadOutcome(fth, |leaves|, positions, hashes, proof, extra);
            && r.Ok? && r.value.0 == LogRoot(leaves) && TrueNodes(leaves, r.value.1)
            && (client.config.auditing && fth.auditorTreeHead.Some? && 0 < fth.auditorTreeHead.value.treeSize < |leaves|
                && BoundaryRead(fth.auditorTreeHead.value.treeSize, |leaves|, SetOf(positions)) ==>
                  PeakIds(fth.auditorTreeHead.value.treeSize) <= r.value.1.Keys)
  {
    var wanted := client.WantedNodes(|leaves|, extra, fth);
    FollowerRetains(client, before);
    PairsAreLeaves(leaves, positions, hashes, |positions|);
    assert positions[..|positions|] == positions;
    assert leaves[..|before|] == before;
    var q := Query(|leaves|, Pairs(positions, hashes, |positions|), client.retainedSubtrees, wanted);
    assert q == Asked(leaves, SetOf(positions), client.retainedSubtrees, wanted);
    RoundTrip(leaves, SetOf(positions), bounds, |before|, client.retainedSubtrees, wanted);
    if client.config.auditing && fth.auditorTreeHead.Some? && 0 < fth.auditorTreeHead.value.treeSize < |leaves| {
      if BoundaryRead(fth.auditorTreeHead.value.treeSize, |leaves|, SetOf(positions)) {
        AuditorPeaksCaptured(q, proof, fth.auditorTreeHead.value.treeSize);
      }
    }
  }

  /** So the client may trust the head. */
  lemma {:induction false} HonestHeadFits(client: KtClient, fth: FullTreeHead, updated: bool, before: Leaves,
                                          leaves: Leaves, positions: seq<nat>, hashes: seq<Digest>,
                                          proof: seq<Digest>, bounds: set<nat>, extra: set<nat>)
    requires FollowsLog(client, before) && leaves != [] && Provides(positions, |leaves|)
    requires HonestReading(before, leaves, positions, hashes, proof, bounds)
    requires HonestHead(client, fth, updated, before, leaves, SetOf(positions))
    ensures var r := client.HeadOutcome(fth, |leaves|, positions, hashes, proof, extra);
            && r.Ok? && r.value.0 == LogRoot(leaves) && TrueNodes(leaves, r.value.1)
            && client.HeadFits(fth, |leaves|, updated, r.value.0, r.value.1)
  {
    HonestOutcome(client, fth, before, leaves, positions, hashes, proof, bounds, extra);
    if updated && client.config.auditing {
      var captured := client.HeadOutcome(fth, |leaves|, positions, hashes, proof, extra).value.1;
      HonestAuditorAccepted(client, fth.auditorTreeHead.value, fth.treeHead.value, leaves, captured);
    }
  }

  /** The end of an honest operation: the client commits to the operator's log, and follows it. */
  method FollowHead(client: KtClient, fth: FullTreeHead, n: nat, ts: Option<nat>, updated: bool, positions: seq<nat>,
                    hashes: seq<Digest>, proof: seq<Digest>, extra: set<nat>, ghost before: Leaves,
                    ghost leaves: Leaves, ghost bounds: set<nat>)
    returns (r: Result<Values>)
    requires FollowsLog(client, before) && n == |leaves| > 0 && Provides(positions, n)
    requires HonestReading(before, leaves, positions, hashes, proof, bounds)
    requires HonestHead(client, fth, updated, before, leaves, SetOf(positions))
    modifies client
    ensures r.Ok? && FollowsLog(client, leaves)
  {
    HonestHeadFits(client, fth, updated, before, leaves, positions, hashes, proof, bounds, extra);
    r := client.VerifyHeadAndCommit(fth, n, ts, updated, positions, hashes, proof, extra);
  }
}
