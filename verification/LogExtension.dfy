/**
 * Whether a reconstruction shows that a log extends an earlier one (src/client/verifier.rs, recursive_hash, with
 * the full subtrees that src/client/core.rs, verify_head_and_commit, retains): a retained value is compared
 * only where its node is taken as given.
 */
module LogExtension {
  import opened Digests
  import opened LogMath
  import opened LogTree
  import opened LogProofs
  import opened LogServer
  import opened LogLaws
  import opened ClientState

  // ---- what the retained values show ----

  /** Equal values of a complete subtree have equal leaves. */
  lemma {:induction false} CompleteBinds(leaves: Leaves, leaves': Leaves, k: nat, j: nat, i: nat)
    requires Complete(k, j, |leaves|) && Complete(k, j, |leaves'|) && Shift(i, k) == j
    requires Present(k, j, |leaves|) && Present(k, j, |leaves'|) && NodeValue(leaves, k, j) == NodeValue(leaves', k, j)
    ensures i < |leaves| && i < |leaves'| && leaves[i] == leaves'[i]
    decreases k
  {
    if k > 0 {
      CompleteChildren(k, j, |leaves|);
      CompleteChildren(k, j, |leaves'|);
      CompleteValue(leaves, k - 1, j);
      CompleteValue(leaves', k - 1, j);
      ShiftSplit(i, k - 1);
      CompleteBinds(leaves, leaves', k - 1, Shift(i, k - 1), i);
    }
  }

  /**
   * A client that retains the full subtrees of one log and reconstructs the root of another has
   * proved that the leaves below every retained value it folded in are the same in both.
   */
  lemma RetainedLeavesUnchanged(before: Leaves, after: Leaves, q: Query, proof: seq<Digest>, h: nat, p: nat, i: nat)
    requires after != [] && q.n == |after| && |before| <= |after| && forall x :: x in q.provided ==> x < q.n
    requires q.retained.Keys == PeakIds(|before|) && TrueNodes(before, q.retained)
    requires CalculatedRoot(q, proof).Ok? && CalculatedRoot(q, proof).value.0 == LogRoot(after)
    requires h <= Height(q.n) && IsPeak(|before|, h, p) && Taken(q, h, p) && Shift(i, h) == p
    ensures i < |before| && before[i] == after[i]
  {
    PeakIdsAre(|before|, h, p);
    ReconstructionBinds(after, q, proof);
    CompleteGrows(h, p, |before|, |after|);
    assert TrueNode(before, h, p, q.retained[Id(h, p)]);
    CompleteBinds(before, after, h, p, i);
  }

  /** Every leaf lies below one full subtree. */
  lemma {:induction false} PeakOver(m: nat, i: nat) returns (h: nat)
    requires i < m
    ensures IsPeak(m, h, Shift(i, h))
    decreases m
  {
    if m % 2 == 1 && i == m - 1 {
      h := 0;
    } else {
      var t := PeakOver(m / 2, i / 2);
      h := t + 1;
    }
  }

  /** The full subtrees of a smaller log are below the height of the larger one. */
  lemma PeakIsLow(m: nat, n: nat, h: nat, p: nat)
    requires m < n && IsPeak(m, h, p)
    ensures h < Height(n)
  {
    RootPresent(n);
    ShiftMonotone(m, n - 1, Height(n));
    if h >= Height(n) { NothingHigher(m, Height(n), h); }
  }

  /** A full subtree of the earlier log is next to provided leaves, and has none below it. */
  predicate Compared(positions: set<nat>, h: nat, p: nat) {
    !Visited(positions, h, p) && Visited(positions, h + 1, p / 2)
  }

  /** All full subtrees of a log of m entries are. */
  ghost predicate AllCompared(m: nat, positions: set<nat>) {
    forall h: nat, p: nat :: IsPeak(m, h, p) ==> Compared(positions, h, p)
  }

  lemma ComparedExtends(before: Leaves, after: Leaves, q: Query, proof: seq<Digest>)
    requires |before| < |after| == q.n && forall x :: x in q.provided ==> x < q.n
    requires q.retained.Keys == PeakIds(|before|) && TrueNodes(before, q.retained)
    requires CalculatedRoot(q, proof).Ok? && CalculatedRoot(q, proof).value.0 == LogRoot(after)
    requires AllCompared(|before|, q.provided.Keys)
    ensures before <= after
  {
    forall i | 0 <= i < |before| ensures before[i] == after[i] {
      var h := PeakOver(|before|, i);
      var p := Shift(i, h);
      assert Compared(q.provided.Keys, h, p);
      PeakIsLow(|before|, q.n, h, p);
      CompleteGrows(h, p, |before|, q.n);
      CompleteIsPresent(h, p, q.n);
      RetainedLeavesUnchanged(before, after, q, proof, h, p, i);
    }
  }

  // ---- and where they show nothing ----

  /** Two clients that provide the same and retain the same values where they take them. */
  ghost predicate SameTaken(q: Query, q': Query) {
    && q' == q.(retained := q'.retained) && q'.retained.Keys == q.retained.Keys
    && forall h: nat, i: nat :: Taken(q, h, i) && Id(h, i) in q.retained ==>
         q'.retained[Id(h, i)] == q.retained[Id(h, i)]
  }

  lemma TakenSame(q: Query, q': Query, k: nat, j: nat, proof: seq<Digest>, used: nat, captured: Values)
    requires SameTaken(q, q') && Taken(q, k, j)
    ensures Rebuild(q, k, j, proof, used, captured) == Rebuild(q', k, j, proof, used, captured)
  {
    assert k == 0 && j in q.provided ==> Shift(j, k) == j;
    assert Given(q, Id(k, j), proof, used, captured) == Given(q', Id(k, j), proof, used, captured);
  }

  lemma HashedSame(q: Query, q': Query, k: nat, j: nat, proof: seq<Digest>, used: nat, captured: Values)
    requires q' == q.(retained := q'.retained) && Visited(q.provided.Keys, k, j)
    requires k > 0 ==>
               Rebuild(q, k - 1, 2 * j, proof, used, captured) == Rebuild(q', k - 1, 2 * j, proof, used, captured)
    requires k > 0 && RightIndex(k - 1, j, q.n) != 2 * j && Rebuild(q, k - 1, 2 * j, proof, used, captured).Ok? ==>
               var l := Rebuild(q, k - 1, 2 * j, proof, used, captured).value;
               Rebuild(q, k - 1, 2 * j + 1, proof, l.used, l.captured) ==
               Rebuild(q', k - 1, 2 * j + 1, proof, l.used, l.captured)
    ensures Rebuild(q, k, j, proof, used, captured) == Rebuild(q', k, j, proof, used, captured)
  {}

  /** Retained values of nodes that are not taken as given change nothing. */
  lemma {:induction false} OnlyTakenCount(q: Query, q': Query, k: nat, j: nat, proof: seq<Digest>, used: nat,
                                          captured: Values)
    requires SameTaken(q, q')
    requires Present(k, j, q.n) && (k >= Height(q.n) || Visited(q.provided.Keys, k + 1, j / 2))
    ensures Rebuild(q, k, j, proof, used, captured) == Rebuild(q', k, j, proof, used, captured)
    decreases k
  {
    if !Visited(q.provided.Keys, k, j) {
      TakenSame(q, q', k, j, proof, used, captured);
    } else {
      if k > 0 {
        PresentLeft(k, j, q.n);
        OnlyTakenCount(q, q', k - 1, 2 * j, proof, used, captured);
        var l := Rebuild(q, k - 1, 2 * j, proof, used, captured);
        if l.Ok? && Present(k - 1, 2 * j + 1, q.n) {
          OnlyTakenCount(q, q', k - 1, 2 * j + 1, proof, l.value.used, l.value.captured);
        }
      }
      HashedSame(q, q', k, j, proof, used, captured);
    }
  }

  /** Changing a leaf changes no value of a complete subtree that it is not below. */
  lemma {:induction false} ElsewhereSame(leaves: Leaves, leaves': Leaves, k: nat, j: nat, i: nat)
    requires |leaves| == |leaves'| && forall x :: 0 <= x < |leaves| && x != i ==> leaves[x] == leaves'[x]
    requires Present(k, j, |leaves|) && Shift(i, k) != j
    ensures NodeValue(leaves, k, j) == NodeValue(leaves', k, j)
    decreases k
  {
    if k > 0 {
      PresentLeft(k, j, |leaves|);
      ShiftSplit(i, k - 1);
      ElsewhereSame(leaves, leaves', k - 1, 2 * j, i);
      if Present(k - 1, 2 * j + 1, |leaves|) { ElsewhereSame(leaves, leaves', k - 1, 2 * j + 1, i); }
    }
  }

  lemma PeakPresent(n: nat, x: nat)
    requires x in PeakIds(n)
    ensures Complete(Level(x), IndexOf(x), n) && Present(Level(x), IndexOf(x), n)
    ensures IsPeak(n, Level(x), IndexOf(x))
  {
    CoordinatesId(x);
    PeakIdsAre(n, Level(x), IndexOf(x));
    CompleteIsPresent(Level(x), IndexOf(x), n);
  }

  /** The values of a log's full subtrees by id. */
  function PeakMap(leaves: Leaves): (values: Values)
    ensures values.Keys == PeakIds(|leaves|)
  {
    map x | x in PeakIds(|leaves|) :: PeakPresent(|leaves|, x); NodeValue(leaves, Level(x), IndexOf(x))
  }

  lemma PeakMapAt(leaves: Leaves, k: nat, j: nat)
    requires Id(k, j) in PeakMap(leaves)
    ensures IsPeak(|leaves|, k, j) && Present(k, j, |leaves|) && PeakMap(leaves)[Id(k, j)] == NodeValue(leaves, k, j)
  {
    PeakPresent(|leaves|, Id(k, j));
    IdCoordinates(k, j);
  }

  lemma PeakMapTrue(leaves: Leaves)
    ensures TrueNodes(leaves, PeakMap(leaves))
  {
    forall k: nat, j: nat | Id(k, j) in PeakMap(leaves)
      ensures TrueNode(leaves, k, j, PeakMap(leaves)[Id(k, j)])
    {
      PeakMapAt(leaves, k, j);
    }
  }

  /** A client that retains the full subtrees of one log has reconstructed the root of another. */
  ghost predicate Accepted(before: Leaves, after: Leaves, q: Query, proof: seq<Digest>) {
    && q.n == |after| && q.retained.Keys == PeakIds(|before|) && TrueNodes(before, q.retained)
    && CalculatedRoot(q, proof).Ok? && CalculatedRoot(q, proof).value.0 == LogRoot(after)
  }

  /** Where they are compared, the logs have the same values. */
  ghost predicate SameCompared(before: Leaves, after: Leaves, positions: set<nat>) {
    forall h: nat, p: nat :: IsPeak(|before|, h, p) && Compared(positions, h, p) ==> SamePeak(before, after, h, p)
  }

  ghost predicate SamePeak(before: Leaves, after: Leaves, h: nat, p: nat) {
    && Present(h, p, |before|) && Present(h, p, |after|)
    && NodeValue(before, h, p) == NodeValue(after, h, p)
  }

  /** Logs that agree only where they are compared are accepted with the server's honest proof of the second. */
  lemma UncomparedAccepted(before: Leaves, after: Leaves, positions: set<nat>, wanted: set<nat>)
    requires |before| < |after| && (forall x :: x in positions ==> x < |after|)
    requires SameCompared(before, after, positions)
    ensures Accepted(before, after, Asked(after, positions, PeakMap(before), wanted),
                     BatchProof(after, positions, {}, PeakIds(|before|)))
  {
    var m, n := |before|, |after|;
    var proof := BatchProof(after, positions, {}, PeakIds(m));
    var own := PeakMap(after[..m]);
    PeakMapTrue(before);
    PeakMapTrue(after[..m]);
    RoundTrip(after, positions, {}, m, own, wanted);
    var q, q' := Asked(after, positions, PeakMap(before), wanted), Asked(after, positions, own, wanted);
    forall h: nat, p: nat | Taken(q, h, p) && Id(h, p) in q.retained
      ensures q'.retained[Id(h, p)] == q.retained[Id(h, p)]
    {
      SameRetained(before, after, q, h, p);
    }
    RootPresent(n);
    OnlyTakenCount(q, q', Height(n), 0, proof, 0, map[]);
  }

  lemma SameRetained(before: Leaves, after: Leaves, q: Query, h: nat, p: nat)
    requires |before| < |after| == q.n && q.retained == PeakMap(before)
    requires SameCompared(before, after, q.provided.Keys) && Taken(q, h, p) && Id(h, p) in q.retained
    ensures Id(h, p) in PeakMap(after[..|before|]) && PeakMap(after[..|before|])[Id(h, p)] == q.retained[Id(h, p)]
  {
    var m := |before|;
    PeakMapAt(before, h, p);
    PeakMapAt(after[..m], h, p);
    PeakIsLow(m, q.n, h, p);
    assert Compared(q.provided.Keys, h, p) && SamePeak(before, after, h, p);
    ValueStable(after[..m], after, h, p);
  }

  /** A log leaf other than this one. */
  function OtherLeaf(d: Digest): (other: Digest)
    ensures other != d
  {
    if d == LogLeaf(0, Zero) then LogLeaf(1, Zero) else LogLeaf(0, Zero)
  }

  /** A log that continues another but for entry i. */
  function Forged(before: Leaves, n: nat, i: nat): (after: Leaves)
    requires i < |before| < n
    ensures |after| == n && after[i] != before[i]
    ensures forall x :: 0 <= x < |before| && x != i ==> after[x] == before[x]
  {
    before[i := OtherLeaf(before[i])] + seq(n - |before|, _ => LogLeaf(0, Zero))
  }

  lemma {:induction false} AbovePeak(m: nat, h: nat, i: nat, k: nat)
    requires IsPeak(m, h, Shift(i, h)) && h < k
    ensures Shift(i, k) == Shift(m, k)
    decreases k
  {
    ShiftSplit(i, k - 1);
    ShiftSplit(m, k - 1);
    if h < k - 1 { AbovePeak(m, h, i, k - 1); }
  }

  /** A leaf is below one full subtree only. */
  lemma OnePeakOver(m: nat, h: nat, h': nat, i: nat)
    requires IsPeak(m, h, Shift(i, h)) && IsPeak(m, h', Shift(i, h'))
    ensures h == h'
  {
    if h < h' { AbovePeak(m, h, i, h'); }
    if h' < h { AbovePeak(m, h', i, h); }
  }

  /** A full subtree that is not compared hides a changed entry. */
  lemma HiddenChange(before: Leaves, n: nat, positions: set<nat>, h: nat, p: nat, i: nat)
    requires |before| < n && IsPeak(|before|, h, p) && !Compared(positions, h, p) && Shift(i, h) == p && i < |before|
    ensures SameCompared(before, Forged(before, n, i), positions)
  {
    var after := Forged(before, n, i);
    var m := |before|;
    forall h': nat, p': nat | IsPeak(m, h', p') && Compared(positions, h', p')
      ensures SamePeak(before, after, h', p')
    {
      if Shift(i, h') == p' { OnePeakOver(m, h, h', i); }
      CompleteIsPresent(h', p', m);
      ElsewhereSame(before, after[..m], h', p', i);
      ValueStable(after[..m], after, h', p');
    }
  }

  lemma LeafBelow(m: nat, h: nat, p: nat) returns (i: nat)
    requires Complete(h, p, m)
    ensures i < m && Shift(i, h) == p
  {
    i := First(h, p);
    FirstBound(h, p, i);
    FirstBound(h, p + 1, i);
    FirstStep(h, p);
    CompleteFirst(h, p, m);
  }

  /** Every accepted reconstruction of a log of n entries, with these provided, has the log extend an earlier one. */
  ghost predicate ProvesExtension(before: Leaves, n: nat, positions: set<nat>) {
    forall after: Leaves, q: Query, proof: seq<Digest> ::
      |after| == n && q.provided.Keys == positions && Accepted(before, after, q, proof) ==> before <= after
  }

  /**
   * A client that grows from one log to n entries has proved that the new log extends the old one exactly
   * when every full subtree of the old one has no provided leaf below it but one below its sibling.
   */
  lemma ExtensionIsProved(before: Leaves, n: nat, positions: set<nat>)
    requires |before| < n && forall x :: x in positions ==> x < n
    ensures ProvesExtension(before, n, positions) <==> AllCompared(|before|, positions)
  {
    if AllCompared(|before|, positions) {
      forall after: Leaves, q: Query, proof: seq<Digest>
        | |after| == n && q.provided.Keys == positions && Accepted(before, after, q, proof)
        ensures before <= after
      {
        ComparedExtends(before, after, q, proof);
      }
    } else {
      var h: nat, p: nat :| IsPeak(|before|, h, p) && !Compared(positions, h, p);
      var i := LeafBelow(|before|, h, p);
      var after := Forged(before, n, i);
      HiddenChange(before, n, positions, h, p, i);
      UncomparedAccepted(before, after, positions, {});
      assert after[i] != before[i];
    }
  }

  /** The size that grows from two to three over its frontier: no other log of three entries is rejected. */
  lemma AnyThirdEntryAccepted(before: Leaves, after: Leaves, wanted: set<nat>)
    requires |before| == 2 && |after| == 3
    ensures Accepted(before, after, Asked(after, {1, 2}, PeakMap(before), wanted),
                     BatchProof(after, {1, 2}, {}, PeakIds(2)))
  {
    forall h: nat, p: nat | IsPeak(2, h, p) ensures !Compared({1, 2}, h, p) {
      PeakOfTwo(h, p);
      assert 1 in {1, 2} && Shift(1, 1) == 0;
    }
    UncomparedAccepted(before, after, {1, 2}, wanted);
  }

  lemma PeakOfTwo(h: nat, p: nat)
    requires IsPeak(2, h, p)
    ensures h == 1 && p == 0
  {
    assert Shift(2, 0) == 2 && Shift(2, 1) == 1 && Shift(2, 2) == 0;
    if h > 2 { NothingHigher(2, 2, h); }
  }

  /** So a client's commit of a signed log extends the log it retained, where all its full subtrees are compared. */
  lemma CommitExtends(client: KtClient, before: Leaves, after: Leaves, positions: seq<nat>, hashes: seq<Digest>,
                      proof: seq<Digest>, retained: Values)
    requires |before| < |after| && Provides(positions, |after|)
    requires retained.Keys == PeakIds(|before|) && TrueNodes(before, retained)
    requires client.Reconstructed(LogRoot(after), positions, hashes, |after|, proof, retained)
    requires AllCompared(|before|, set x | x in positions)
    ensures before <= after
  {
    var n := |after|;
    var wanted :| var r := CalculatedRoot(Query(n, Pairs(positions, hashes, |positions|), retained, wanted), proof);
      r.Ok? && r.value.0 == LogRoot(after);
    var provided := Pairs(positions, hashes, |positions|);
    PairsAt(positions, hashes, |positions|);
    assert provided.Keys == set x | x in positions;
    ComparedExtends(before, after, Query(n, provided, retained, wanted), proof);
  }
}
