/** What a reconstructed log root says: round trip, binding, and the full subtrees it leaves behind. */
module LogLaws {
  import opened Digests
  import opened LogMath
  import opened LogTree
  import opened LogProofs
  import opened LogServer

  // ---- round trip ----

  /** The client's values are those of the log. */
  ghost predicate TrueLeaves(leaves: Leaves, provided: Values) {
    forall i :: i in provided ==> i < |leaves| && provided[i] == leaves[i]
  }

  /** Values by id are those of the log's nodes. */
  ghost predicate TrueNodes(leaves: Leaves, values: Values) {
    forall k: nat, j: nat :: Id(k, j) in values ==> TrueNode(leaves, k, j, values[Id(k, j)])
  }

  ghost predicate TrueNode(leaves: Leaves, k: nat, j: nat, v: Digest) {
    Present(k, j, |leaves|) && v == NodeValue(leaves, k, j)
  }

  /** The elements of a proof from one place on begin with the values of these nodes. */
  ghost predicate Offers(leaves: Leaves, proof: seq<Digest>, used: nat, nodes: seq<Node>) {
    && used + |nodes| <= |proof|
    && forall i :: 0 <= i < |nodes| ==> TrueNode(leaves, nodes[i].level, nodes[i].index, proof[used + i])
  }

  lemma NoteTrue(leaves: Leaves, q: Query, k: nat, j: nat, v: Digest, used: nat, captured: Values)
    requires TrueNodes(leaves, captured) && TrueNode(leaves, k, j, v)
    ensures TrueNodes(leaves, Note(q, Id(k, j), v, used, captured).captured)
  {
    forall h: nat, i: nat | Id(h, i) in Note(q, Id(k, j), v, used, captured).captured
      ensures TrueNode(leaves, h, i, Note(q, Id(k, j), v, used, captured).captured[Id(h, i)])
    {
      IdCoordinates(h, i);
      IdCoordinates(k, j);
    }
  }

  lemma OffersSplit(leaves: Leaves, proof: seq<Digest>, used: nat, a: seq<Node>, b: seq<Node>)
    requires Offers(leaves, proof, used, a + b)
    ensures Offers(leaves, proof, used, a) && Offers(leaves, proof, used + |a|, b)
  {
    assert forall i :: 0 <= i < |a| ==> (a + b)[i] == a[i];
    assert forall i :: 0 <= i < |b| ==> (a + b)[|a| + i] == b[i];
  }

  /** A reconstruction that ends in the true value, having used these elements and captured true values. */
  ghost predicate Succeeds(leaves: Leaves, k: nat, j: nat, r: Result<Reading>, used: nat) {
    r.Ok? && TrueNode(leaves, k, j, r.value.value) && r.value.used == used && TrueNodes(leaves, r.value.captured)
  }

  lemma {:induction false} RebuildIsTrue(
      leaves: Leaves, q: Query, k: nat, j: nat, proof: seq<Digest>, used: nat, captured: Values, nodes: seq<Node>)
    requires q.n == |leaves| && Present(k, j, q.n)
    requires TrueLeaves(leaves, q.provided) && TrueNodes(leaves, q.retained) && TrueNodes(leaves, captured)
    requires nodes == Needed(q.n, q.provided.Keys, {}, q.retained.Keys, k, j) && Offers(leaves, proof, used, nodes)
    ensures Succeeds(leaves, k, j, Rebuild(q, k, j, proof, used, captured), used + |nodes|)
    decreases k
  {
    if !Visited(q.provided.Keys, k, j) {
      GivenIsTrue(leaves, q, k, j, proof, used, captured);
    } else if k == 0 {
      NoteTrue(leaves, q, k, j, leaves[j], used, captured);
    } else {
      PresentLeft(k, j, q.n);
      var l := Needed(q.n, q.provided.Keys, {}, q.retained.Keys, k - 1, 2 * j);
      var r := Needed(q.n, q.provided.Keys, {}, q.retained.Keys, k - 1, 2 * j + 1);
      var first := Rebuild(q, k - 1, 2 * j, proof, used, captured);
      if !Present(k - 1, 2 * j + 1, q.n) {
        RebuildIsTrue(leaves, q, k - 1, 2 * j, proof, used, captured, l);
        NoteTrue(leaves, q, k, j, first.value.value, first.value.used, first.value.captured);
      } else {
        OffersSplit(leaves, proof, used, l, r);
        RebuildIsTrue(leaves, q, k - 1, 2 * j, proof, used, captured, l);
        RebuildIsTrue(leaves, q, k - 1, 2 * j + 1, proof, used + |l|, first.value.captured, r);
        var second := Rebuild(q, k - 1, 2 * j + 1, proof, used + |l|, first.value.captured);
        NoteTrue(leaves, q, k, j, NodeValue(leaves, k, j), second.value.used, second.value.captured);
      }
    }
  }

  lemma GivenIsTrue(leaves: Leaves, q: Query, k: nat, j: nat, proof: seq<Digest>, used: nat, captured: Values)
    requires TrueNodes(leaves, q.retained) && TrueNodes(leaves, captured)
    requires Offers(leaves, proof, used, if Id(k, j) in q.retained then [] else [Node(k, j)])
    ensures Succeeds(leaves, k, j, Given(q, Id(k, j), proof, used, captured), used + if Id(k, j) in q.retained then 0
            else 1)
  {
    if Id(k, j) in q.retained {
      NoteTrue(leaves, q, k, j, q.retained[Id(k, j)], used, captured);
    } else {
      assert [Node(k, j)][0] == Node(k, j);
      NoteTrue(leaves, q, k, j, proof[used], used + 1, captured);
    }
  }

  // ---- the full subtrees left behind ----

  predicate IsPeak(n: nat, k: nat, j: nat) {
    Shift(n, k) % 2 == 1 && j == Shift(n, k) - 1
  }

  lemma {:induction false} PeaksAre(n: nat, q: nat, h: nat, k: nat, j: nat)
    requires q == Shift(n, h)
    ensures Node(k, j) in Peaks(q, h) <==> k >= h && IsPeak(n, k, j)
    decreases q
  {
    ShiftSplit(n, h);
    if q > 0 {
      PeaksAre(n, q / 2, h + 1, k, j);
    } else if k >= h {
      NothingHigher(n, h, k);
    }
  }

  lemma {:induction false} NothingHigher(n: nat, h: nat, k: nat)
    requires Shift(n, h) == 0 && h <= k
    ensures Shift(n, k) == 0
    decreases k - h
  {
    if h < k {
      ShiftSplit(n, h);
      NothingHigher(n, h + 1, k);
    }
  }

  /** The ids of the full subtrees are those of the nodes at the end of the odd levels. */
  lemma PeakIdsAre(n: nat, k: nat, j: nat)
    ensures Id(k, j) in PeakIds(n) <==> IsPeak(n, k, j)
  {
    PeaksAre(n, n, 0, k, j);
    IdsInjective(Peaks(n, 0), k, j);
  }

  lemma IdsInjective(nodes: seq<Node>, k: nat, j: nat)
    ensures Id(k, j) in Ids(nodes) <==> Node(k, j) in nodes
  {
    if Id(k, j) in Ids(nodes) {
      var i :| 0 <= i < |nodes| && Ids(nodes)[i] == Id(k, j);
      IdCoordinates(k, j);
      IdCoordinates(nodes[i].level, nodes[i].index);
      assert nodes[i] == Node(k, j);
    }
    if Node(k, j) in nodes {
      var i :| 0 <= i < |nodes| && nodes[i] == Node(k, j);
      assert Ids(nodes)[i] == Id(k, j);
    }
  }

  /** Below a complete node only the node itself can be a full subtree of the whole. */
  lemma {:induction false} CompleteCaptures(q: Query, k: nat, j: nat, proof: seq<Digest>, used: nat, captured: Values)
    requires q.wanted == PeakIds(q.n) && Complete(k, j, q.n) && Rebuild(q, k, j, proof, used, captured).Ok?
    ensures var r := Rebuild(q, k, j, proof, used, captured).value;
            r.captured == if IsPeak(q.n, k, j) then captured[Id(k, j) := r.value] else captured
    decreases k
  {
    PeakIdsAre(q.n, k, j);
    if Visited(q.provided.Keys, k, j) && k > 0 {
      CompleteChildren(k, j, q.n);
      ShiftSplit(q.n, k - 1);
      var l := Rebuild(q, k - 1, 2 * j, proof, used, captured).value;
      CompleteCaptures(q, k - 1, 2 * j, proof, used, captured);
      if RightIndex(k - 1, j, q.n) != 2 * j {
        CompleteCaptures(q, k - 1, 2 * j + 1, proof, l.used, l.captured);
      }
    }
  }

  function At(values: Values, x: nat): Digest {
    if x in values then values[x] else Zero
  }

  /** The full subtrees below level h with these values. */
  function LowOf(values: Values, n: nat, h: nat): (peaks: seq<Peak>)
    ensures peaks == [] <==> Rem(n, h) == 0
    decreases h, values
  {
    if h == 0 then []
    else if Shift(n, h - 1) % 2 == 1 then [(h - 1, At(values, Id(h - 1, Shift(n, h - 1) - 1)))] + LowOf(values, n,
        h - 1)
    else LowOf(values, n, h - 1)
  }

  /** The full subtrees at level h and above with these values; q is n >> h. */
  function PeaksOf(values: Values, q: nat, h: nat): (peaks: seq<Peak>)
    decreases q, values
  {
    if q == 0 then []
    else if q % 2 == 1 then PeaksOf(values, q / 2, h + 1) + [(h, At(values, Id(h, q - 1)))]
    else PeaksOf(values, q / 2, h + 1)
  }

  lemma {:induction false} PeaksOfSplit(values: Values, n: nat, h: nat)
    ensures PeaksOf(values, n, 0) == PeaksOf(values, Shift(n, h), h) + LowOf(values, n, h)
    decreases h
  {
    if h > 0 {
      PeaksOfSplit(values, n, h - 1);
      ShiftSplit(n, h - 1);
    }
  }

  /** The right edge of a level: partial, and above the last leaf. */
  lemma EdgeVisited(n: nat, k: nat, positions: set<nat>)
    requires n - 1 in positions && Rem(n, k) > 0
    ensures k > 0 && Present(k, Shift(n, k), n) && Visited(positions, k, Shift(n, k))
  {
    PartialPresent(n, k);
    LastLeaf(n, k, Shift(n, k));
  }

  lemma LastLeaf(n: nat, k: nat, e: nat)
    requires Present(k, e, n) && e == Shift(n, k)
    ensures Shift(n - 1, k) == e
  {
    ShiftMonotone(n - 1, n, k);
  }

  /** The values captured below the right edge, where level k has one, fold to its value. */
  ghost predicate EdgeFolds(n: nat, k: nat, r: Reading, captured: Values) {
    && LowOf(r.captured, n, k) != [] && FoldPeaks(LowOf(r.captured, n, k)) == r.value
    && CapturesBelow(n, k, r.captured, captured)
  }

  ghost predicate CapturesBelow(n: nat, k: nat, captured': Values, captured: Values) {
    && (forall t: nat, i: nat :: Id(t, i) in captured' <==> Id(t, i) in captured || (t < k && IsPeak(n, t, i)))
    && (forall t: nat, i: nat :: t >= k ==> At(captured', Id(t, i)) == At(captured, Id(t, i)))
  }

  lemma CaptureOne(captured: Values, t: nat, i: nat, v: Digest)
    ensures forall h: nat, j: nat :: Id(h, j) in captured[Id(t, i) := v] <==> Id(h, j) in captured || (h == t && j == i)
    ensures forall h: nat, j: nat :: At(captured[Id(t, i) := v], Id(h, j)) == if h == t && j == i then v
            else At(captured, Id(h, j))
  {
    forall h: nat, j: nat
      ensures Id(h, j) in captured[Id(t, i) := v] <==> Id(h, j) in captured || (h == t && j == i)
      ensures At(captured[Id(t, i) := v], Id(h, j)) == if h == t && j == i then v else At(captured, Id(h, j))
    {
      IdCoordinates(h, j);
      IdCoordinates(t, i);
    }
  }

  /** The edge is its left child, followed by the rest of the edge where the left child is complete. */
  lemma EdgeUnfold(q: Query, k: nat, e: nat, proof: seq<Digest>, used: nat, captured: Values)
    requires q.wanted == PeakIds(q.n) && q.n - 1 in q.provided && Rem(q.n, k) > 0 && e == Shift(q.n, k)
    requires Rebuild(q, k, e, proof, used, captured).Ok?
    ensures k > 0 && (Shift(q.n, k - 1) == 2 * e || Shift(q.n, k - 1) == 2 * e + 1)
    ensures var l := Rebuild(q, k - 1, 2 * e, proof, used, captured);
            l.Ok? &&
            if Shift(q.n, k - 1) == 2 * e || Rem(q.n, k - 1) == 0 then Rebuild(q, k, e, proof, used, captured) == l
            else
              var r := Rebuild(q, k - 1, 2 * e + 1, proof, l.value.used, l.value.captured);
              r.Ok? && Rebuild(q, k, e, proof, used, captured) ==
                       Ok(Reading(LogNode(l.value.value, k == 1, r.value.value, k == 1), r.value.used,
                                  r.value.captured))
  {
    EdgeVisited(q.n, k, q.provided.Keys);
    PeakIdsAre(q.n, k, e);
    ShiftSplit(q.n, k - 1);
    PartialPresent(q.n, k - 1);
  }

  lemma EdgeLeft(q: Query, k: nat, j: nat, proof: seq<Digest>, used: nat, captured: Values)
    requires q.wanted == PeakIds(q.n) && IsPeak(q.n, k, j) && Rebuild(q, k, j, proof, used, captured).Ok?
    ensures var l := Rebuild(q, k, j, proof, used, captured).value; Captured(l.captured, captured, k, j, l.value)
  {
    CompleteCaptures(q, k, j, proof, used, captured);
    CaptureOne(captured, k, j, Rebuild(q, k, j, proof, used, captured).value.value);
  }

  lemma {:induction false} EdgeIsFold(q: Query, k: nat, e: nat, proof: seq<Digest>, used: nat, captured: Values)
    requires q.wanted == PeakIds(q.n) && q.n - 1 in q.provided && Rem(q.n, k) > 0 && e == Shift(q.n, k)
    requires Rebuild(q, k, e, proof, used, captured).Ok?
    ensures EdgeFolds(q.n, k, Rebuild(q, k, e, proof, used, captured).value, captured)
    decreases k
  {
    EdgeUnfold(q, k, e, proof, used, captured);
    var l := Rebuild(q, k - 1, 2 * e, proof, used, captured).value;
    if Shift(q.n, k - 1) == 2 * e {
      EdgeIsFold(q, k - 1, 2 * e, proof, used, captured);
      EdgeEven(q.n, k, l, captured);
    } else {
      EdgeLeft(q, k - 1, 2 * e, proof, used, captured);
      if Rem(q.n, k - 1) > 0 {
        EdgeIsFold(q, k - 1, 2 * e + 1, proof, l.used, l.captured);
        EdgeMore(q.n, k, l, Rebuild(q, k - 1, 2 * e + 1, proof, l.used, l.captured).value, captured);
      } else {
        EdgeLast(q.n, k, l, captured);
      }
    }
  }

  lemma EdgeEven(n: nat, k: nat, l: Reading, captured: Values)
    requires k > 0 && Shift(n, k - 1) % 2 == 0 && EdgeFolds(n, k - 1, l, captured)
    ensures EdgeFolds(n, k, l, captured)
  {
  }

  /** The value of the full subtree at the end of level k has been captured. */
  ghost predicate Captured(captured': Values, captured: Values, k: nat, j: nat, v: Digest) {
    && (forall h: nat, i: nat :: Id(h, i) in captured' <==> Id(h, i) in captured || (h == k && i == j))
    && (forall h: nat, i: nat :: At(captured', Id(h, i)) == if h == k && i == j then v else At(captured, Id(h, i)))
  }

  /** The full subtree at an odd level is the whole edge. */
  lemma EdgeLast(n: nat, k: nat, l: Reading, captured: Values)
    requires k > 0 && Shift(n, k - 1) % 2 == 1 && Rem(n, k - 1) == 0
    requires Captured(l.captured, captured, k - 1, Shift(n, k - 1) - 1, l.value)
    ensures EdgeFolds(n, k, l, captured)
  {
    NoLowPeaks(n, k - 1);
    assert LowOf(l.captured, n, k) == [(k - 1, l.value)] + LowOf(l.captured, n, k - 1);
  }

  lemma {:induction false} NoLowPeaks(n: nat, k: nat)
    requires Rem(n, k) == 0
    ensures forall t: nat, i: nat :: t < k ==> !IsPeak(n, t, i)
  {
    if k > 0 { NoLowPeaks(n, k - 1); }
  }

  /** The full subtree at an odd level, with the edge going on to its right. */
  lemma EdgeMore(n: nat, k: nat, l: Reading, r: Reading, captured: Values)
    requires k > 0 && Shift(n, k - 1) % 2 == 1 && Rem(n, k - 1) > 0
    requires Captured(l.captured, captured, k - 1, Shift(n, k - 1) - 1, l.value)
    requires EdgeFolds(n, k - 1, r, l.captured)
    ensures EdgeFolds(n, k, Reading(LogNode(l.value, k == 1, r.value, k == 1), r.used, r.captured), captured)
  {
    FoldCons((k - 1, l.value), LowOf(r.captured, n, k - 1));
    assert At(r.captured, Id(k - 1, Shift(n, k - 1) - 1)) == l.value;
  }

  /**
   * Whatever the proof, a reconstruction that provides the last leaf captures exactly the full
   * subtrees of the tree, and their values fold to the root it returns.
   */
  lemma ReconstructionKeepsPeaks(q: Query, proof: seq<Digest>)
    requires q.wanted == PeakIds(q.n) && q.n > 0 && q.n - 1 in q.provided && CalculatedRoot(q, proof).Ok?
    ensures var (root, captured) := CalculatedRoot(q, proof).value;
            captured.Keys == PeakIds(q.n) && PeaksOf(captured, q.n, 0) != []
                && FoldPeaks(PeaksOf(captured, q.n, 0)) == root
  {
    RootPresent(q.n);
    if Rem(q.n, Height(q.n)) > 0 {
      PartialTreePeaks(q, Height(q.n), 0, proof, 0, map[]);
    } else {
      CompleteTreePeaks(q, Height(q.n), 0, proof, 0, map[]);
    }
  }

  ghost predicate HasPeaks(n: nat, r: Reading) {
    r.captured.Keys == PeakIds(n) && PeaksOf(r.captured, n, 0) != [] && FoldPeaks(PeaksOf(r.captured, n, 0)) == r.value
  }

  lemma PartialTreePeaks(q: Query, k: nat, e: nat, proof: seq<Digest>, used: nat, captured: Values)
    requires q.wanted == PeakIds(q.n) && q.n - 1 in q.provided && captured == map[]
    requires Rem(q.n, k) > 0 && Shift(q.n - 1, k) == e == 0 && Rebuild(q, k, e, proof, used, captured).Ok?
    ensures HasPeaks(q.n, Rebuild(q, k, e, proof, used, captured).value)
  {
    PartialPresent(q.n, k);
    EdgeIsFold(q, k, e, proof, used, captured);
    EdgeIsAll(q.n, k, e, Rebuild(q, k, e, proof, used, captured).value);
  }

  lemma EdgeIsAll(n: nat, k: nat, e: nat, r: Reading)
    requires Shift(n, k) == e == 0 && EdgeFolds(n, k, r, map[])
    ensures HasPeaks(n, r)
  {
    PeaksOfSplit(r.captured, n, k);
    SamePeaks(n, k, r.captured, e);
    assert PeaksOf(r.captured, e, k) + LowOf(r.captured, n, k) == LowOf(r.captured, n, k);
  }

  lemma CompleteTreePeaks(q: Query, k: nat, e: nat, proof: seq<Digest>, used: nat, captured: Values)
    requires q.wanted == PeakIds(q.n) && captured == map[]
    requires q.n > 0 && Rem(q.n, k) == 0 && Shift(q.n - 1, k) == e == 0 && Rebuild(q, k, e, proof, used, captured).Ok?
    ensures HasPeaks(q.n, Rebuild(q, k, e, proof, used, captured).value)
  {
    var r := Rebuild(q, k, e, proof, used, captured).value;
    FullRoot(q.n, k);
    EdgeLeft(q, k, e, proof, used, captured);
    NoLowPeaks(q.n, k);
    PeaksOfSplit(r.captured, q.n, k);
    ShiftSplit(q.n, k);
    SamePeaks(q.n, k + 1, r.captured, e);
    OnePeak(r, q.n, k, e);
  }

  lemma OnePeak(r: Reading, n: nat, k: nat, e: nat)
    requires e == 0 && Shift(n, k) == e + 1 && Rem(n, k) == 0 && At(r.captured, Id(k, e)) == r.value
    ensures PeaksOf(r.captured, e + 1, k) + LowOf(r.captured, n, k) == [(k, r.value)]
  {
    assert PeaksOf(r.captured, e, k + 1) == [];
  }

  lemma SamePeaks(n: nat, k: nat, captured: Values, none: nat)
    requires Shift(n, k) == none && none == 0
    requires forall t: nat, i: nat :: Id(t, i) in captured <==> t < k && IsPeak(n, t, i)
    ensures captured.Keys == PeakIds(n)
  {
    forall x: nat
      ensures x in captured <==> x in PeakIds(n)
    {
      CoordinatesId(x);
      PeakIdsAre(n, Level(x), IndexOf(x));
      if Level(x) >= k { NothingHigher(n, k, Level(x)); }
    }
  }

  // ---- the proof of an honest server ----

  function ProvidedAt(leaves: Leaves, positions: set<nat>): (provided: Values)
    requires forall i :: i in positions ==> i < |leaves|
    ensures provided.Keys == positions
  {
    map i | i in positions :: leaves[i]
  }

  /** Every boundary leaf or the other leaf of its pair is provided. */
  predicate PairsProvided(positions: set<nat>, bounds: set<nat>) {
    forall b :: b in bounds ==> Visited(positions, 1, Shift(b, 1))
  }

  lemma {:induction false} ShiftOnce(x: nat, k: nat)
    requires k > 0
    ensures Shift(x, k) == Shift(Shift(x, 1), k - 1)
  {
  }

  lemma MarkedSame(positions: set<nat>, bounds: set<nat>, k: nat, j: nat)
    requires PairsProvided(positions, bounds)
    ensures Marked(positions, bounds, k, j) <==> Visited(positions, k, j)
  {
    if k > 0 && Visited(bounds, k, j) {
      var b :| b in bounds && Shift(b, k) == j;
      var p :| p in positions && Shift(p, 1) == Shift(b, 1);
      ShiftOnce(b, k);
      ShiftOnce(p, k);
    }
  }

  /** Boundary leaves in provided pairs change nothing. */
  lemma {:induction false} NeededSame(n: nat, positions: set<nat>, bounds: set<nat>, retained: set<nat>, k: nat, j: nat)
    requires PairsProvided(positions, bounds)
    ensures Needed(n, positions, bounds, retained, k, j) == Needed(n, positions, {}, retained, k, j)
    decreases k
  {
    MarkedSame(positions, bounds, k, j);
    if k > 0 {
      NeededSame(n, positions, bounds, retained, k - 1, 2 * j);
      NeededSame(n, positions, bounds, retained, k - 1, 2 * j + 1);
    }
  }

  /** With the last leaf provided, only complete subtrees are sent. */
  lemma {:induction false} NeededComplete(n: nat, positions: set<nat>, bounds: set<nat>, retained: set<nat>, k: nat,
                                          j: nat)
    requires n > 0 && n - 1 in positions && Present(k, j, n)
    ensures forall t :: t in Needed(n, positions, bounds, retained, k, j) ==> Complete(t.level, t.index, n)
    decreases k
  {
    if !Marked(positions, bounds, k, j) {
      ShiftMonotone(n - 1, n, k);
    } else if k > 0 {
      PresentLeft(k, j, n);
      NeededComplete(n, positions, bounds, retained, k - 1, 2 * j);
      if Present(k - 1, 2 * j + 1, n) { NeededComplete(n, positions, bounds, retained, k - 1, 2 * j + 1); }
    }
  }

  /** The full subtrees of an earlier log keep their values. */
  lemma RetainedStaysTrue(leaves: Leaves, m: nat, retained: Values)
    requires m <= |leaves| && retained.Keys == PeakIds(m) && TrueNodes(leaves[..m], retained)
    ensures TrueNodes(leaves, retained)
  {
    forall k: nat, j: nat | Id(k, j) in retained
      ensures TrueNode(leaves, k, j, retained[Id(k, j)])
    {
      PeakIdsAre(m, k, j);
      ValueStable(leaves[..m], leaves, k, j);
    }
  }

  lemma OffersAll(leaves: Leaves, nodes: seq<Node>)
    requires forall t :: t in nodes ==> Present(t.level, t.index, |leaves|)
    ensures Offers(leaves, ValuesOf(leaves, nodes), 0, nodes)
  {
  }

  /** What the client asks about when it provides these leaves and retains these values. */
  function Asked(leaves: Leaves, positions: set<nat>, retained: Values, wanted: set<nat>): (q: Query)
    requires forall i :: i in positions ==> i < |leaves|
  {
    Query(|leaves|, ProvidedAt(leaves, positions), retained, wanted)
  }

  /** The honest proof is consumed exactly and gives the true root and true captured values. */
  lemma RoundTrip(leaves: Leaves, positions: set<nat>, bounds: set<nat>, m: nat, retained: Values, wanted: set<nat>)
    requires leaves != [] && forall i :: i in positions ==> i < |leaves|
    requires PairsProvided(positions, bounds)
    requires m <= |leaves| && retained.Keys == PeakIds(m) && TrueNodes(leaves[..m], retained)
    ensures var r := CalculatedRoot(Asked(leaves, positions, retained, wanted),
                                    BatchProof(leaves, positions, bounds, PeakIds(m)));
            r.Ok? && r.value.0 == LogRoot(leaves) && TrueNodes(leaves, r.value.1)
  {
    var n := |leaves|;
    var q := Asked(leaves, positions, retained, wanted);
    RootPresent(n);
    RetainedStaysTrue(leaves, m, retained);
    NeededSame(n, positions, bounds, PeakIds(m), Height(n), 0);
    NeededPresent(n, positions, {}, PeakIds(m), Height(n), 0);
    OffersAll(leaves, Needed(n, positions, {}, PeakIds(m), Height(n), 0));
    RebuildIsTrue(leaves, q, Height(n), 0, BatchProof(leaves, positions, bounds, PeakIds(m)), 0, map[],
                  Needed(n, positions, {}, PeakIds(m), Height(n), 0));
  }

  /** So a client that follows the log always retains the values of its full subtrees. */
  lemma RoundTripRetains(leaves: Leaves, positions: set<nat>, bounds: set<nat>, m: nat, retained: Values)
    requires leaves != [] && |leaves| - 1 in positions && forall i :: i in positions ==> i < |leaves|
    requires PairsProvided(positions, bounds)
    requires m <= |leaves| && retained.Keys == PeakIds(m) && TrueNodes(leaves[..m], retained)
    ensures var r := CalculatedRoot(Asked(leaves, positions, retained, PeakIds(|leaves|)),
                                    BatchProof(leaves, positions, bounds, PeakIds(m)));
            r.Ok? && r.value.1.Keys == PeakIds(|leaves|) && TrueNodes(leaves, r.value.1)
  {
    RoundTrip(leaves, positions, bounds, m, retained, PeakIds(|leaves|));
    ReconstructionKeepsPeaks(Asked(leaves, positions, retained, PeakIds(|leaves|)),
                             BatchProof(leaves, positions, bounds, PeakIds(m)));
  }

  // ---- binding ----

  /** In a reconstruction that ends in the log's value, the children end in theirs. */
  lemma BindsChildren(leaves: Leaves, q: Query, k: nat, j: nat, proof: seq<Digest>, used: nat, captured: Values)
    requires q.n == |leaves| && k > 0 && Present(k, j, q.n) && Visited(q.provided.Keys, k, j)
    requires var r := Rebuild(q, k, j, proof, used, captured); r.Ok? && r.value.value == NodeValue(leaves, k, j)
    ensures Present(k - 1, 2 * j, q.n)
    ensures var l := Rebuild(q, k - 1, 2 * j, proof, used, captured);
            var all := Rebuild(q, k, j, proof, used, captured).value;
            l.Ok? && l.value.value == NodeValue(leaves, k - 1, 2 * j) &&
            if Present(k - 1, 2 * j + 1, q.n) then
              var r := Rebuild(q, k - 1, 2 * j + 1, proof, l.value.used, l.value.captured);
              r.Ok? && r.value.value == NodeValue(leaves, k - 1, 2 * j + 1) &&
              all == Note(q, Id(k, j), all.value, r.value.used, r.value.captured)
            else all == Note(q, Id(k, j), all.value, l.value.used, l.value.captured)
  {
    PresentLeft(k, j, q.n);
  }

  lemma {:induction false} BindsLeaf(leaves: Leaves, q: Query, k: nat, j: nat, proof: seq<Digest>, used: nat,
                                     captured: Values, i: nat)
    requires q.n == |leaves| && Present(k, j, q.n) && i in q.provided && i < q.n && Shift(i, k) == j
    requires var r := Rebuild(q, k, j, proof, used, captured); r.Ok? && r.value.value == NodeValue(leaves, k, j)
    ensures q.provided[i] == leaves[i]
    decreases k
  {
    if k > 0 {
      BindsChildren(leaves, q, k, j, proof, used, captured);
      ShiftSplit(i, k - 1);
      var l := Rebuild(q, k - 1, 2 * j, proof, used, captured);
      if Shift(i, k - 1) == 2 * j {
        BindsLeaf(leaves, q, k - 1, 2 * j, proof, used, captured, i);
      } else {
        ShiftMonotone(i, q.n - 1, k - 1);
        BindsLeaf(leaves, q, k - 1, 2 * j + 1, proof, l.value.used, l.value.captured, i);
      }
    }
  }

  lemma {:induction false} BindsCaptured(leaves: Leaves, q: Query, k: nat, j: nat, proof: seq<Digest>, used: nat,
                                         captured: Values)
    requires q.n == |leaves| && Present(k, j, q.n) && TrueNodes(leaves, captured)
    requires var r := Rebuild(q, k, j, proof, used, captured); r.Ok? && r.value.value == NodeValue(leaves, k, j)
    ensures TrueNodes(leaves, Rebuild(q, k, j, proof, used, captured).value.captured)
    decreases k
  {
    var all := Rebuild(q, k, j, proof, used, captured).value;
    if k > 0 && Visited(q.provided.Keys, k, j) {
      BindsChildren(leaves, q, k, j, proof, used, captured);
      var l := Rebuild(q, k - 1, 2 * j, proof, used, captured).value;
      BindsCaptured(leaves, q, k - 1, 2 * j, proof, used, captured);
      if Present(k - 1, 2 * j + 1, q.n) {
        BindsCaptured(leaves, q, k - 1, 2 * j + 1, proof, l.used, l.captured);
        var r := Rebuild(q, k - 1, 2 * j + 1, proof, l.used, l.captured).value;
        NoteTrue(leaves, q, k, j, all.value, r.used, r.captured);
      } else {
        NoteTrue(leaves, q, k, j, all.value, l.used, l.captured);
      }
    } else {
      NoteTrue(leaves, q, k, j, all.value, all.used, captured);
    }
  }

  /** The node at level h and index i is taken as given: nothing below it is provided, but something next to it is. */
  predicate Taken(q: Query, h: nat, i: nat) {
    Present(h, i, q.n) && !Visited(q.provided.Keys, h, i)
        && (h >= Height(q.n) || Visited(q.provided.Keys, h + 1, i / 2))
  }

  lemma {:induction false} VisitedAbove(positions: set<nat>, h: nat, i: nat, k: nat)
    requires h <= k && Visited(positions, h, i)
    ensures Visited(positions, k, Shift(i, k - h))
    decreases k - h
  {
    if h < k {
      var p :| p in positions && Shift(p, h) == i;
      ShiftSplit(p, h);
      VisitedAbove(positions, h + 1, i / 2, k);
    }
  }

  /** A retained value is used where its node is taken as given. */
  lemma {:induction false} BindsRetained(
      leaves: Leaves, q: Query, k: nat, j: nat, proof: seq<Digest>, used: nat, captured: Values, h: nat, i: nat)
    requires q.n == |leaves| && Present(k, j, q.n) && h <= k <= Height(q.n) && Shift(i, k - h) == j
    requires Taken(q, h, i) && Id(h, i) in q.retained
    requires var r := Rebuild(q, k, j, proof, used, captured); r.Ok? && r.value.value == NodeValue(leaves, k, j)
    ensures q.retained[Id(h, i)] == NodeValue(leaves, h, i)
    decreases k
  {
    if h < k {
      VisitedAbove(q.provided.Keys, h + 1, i / 2, k);
      BindsChildren(leaves, q, k, j, proof, used, captured);
      ShiftSplit(i, k - 1 - h);
      var l := Rebuild(q, k - 1, 2 * j, proof, used, captured);
      if Shift(i, k - 1 - h) == 2 * j {
        BindsRetained(leaves, q, k - 1, 2 * j, proof, used, captured, h, i);
      } else {
        PresentAbove(q.n, h, i, k - 1);
        BindsRetained(leaves, q, k - 1, 2 * j + 1, proof, l.value.used, l.value.captured, h, i);
      }
    }
  }

  lemma {:induction false} PresentAbove(n: nat, h: nat, i: nat, k: nat)
    requires h <= k && Present(h, i, n)
    ensures Present(k, Shift(i, k - h), n)
    decreases k - h
  {
    if h < k {
      ShiftSplit(n - 1, h);
      PresentAbove(n, h + 1, i / 2, k);
    }
  }

  /** A reconstruction that ends in a log's root proves every leaf, captured value and retained value it folded in. */
  lemma ReconstructionBinds(leaves: Leaves, q: Query, proof: seq<Digest>)
    requires leaves != [] && q.n == |leaves| && forall i :: i in q.provided ==> i < q.n
    requires CalculatedRoot(q, proof).Ok? && CalculatedRoot(q, proof).value.0 == LogRoot(leaves)
    ensures TrueLeaves(leaves, q.provided)
    ensures TrueNodes(leaves, CalculatedRoot(q, proof).value.1)
    ensures forall h: nat, i: nat :: h <= Height(q.n) && Taken(q, h, i) && Id(h, i) in q.retained ==>
              q.retained[Id(h, i)] == NodeValue(leaves, h, i)
  {
    RootPresent(q.n);
    BindsAll(leaves, q, Height(q.n), 0, proof, 0, map[]);
  }

  lemma BindsAll(leaves: Leaves, q: Query, k: nat, j: nat, proof: seq<Digest>, used: nat, captured: Values)
    requires q.n == |leaves| > 0 && k == Height(q.n) && j == Shift(q.n - 1, k) == 0
    requires TrueNodes(leaves, captured) && forall i :: i in q.provided ==> i < q.n
    requires var r := Rebuild(q, k, j, proof, used, captured); r.Ok? && r.value.value == NodeValue(leaves, k, j)
    ensures TrueLeaves(leaves, q.provided)
    ensures TrueNodes(leaves, Rebuild(q, k, j, proof, used, captured).value.captured)
    ensures forall h: nat, i: nat :: h <= k && Taken(q, h, i) && Id(h, i) in q.retained ==>
              q.retained[Id(h, i)] == NodeValue(leaves, h, i)
  {
    BindsCaptured(leaves, q, k, j, proof, used, captured);
    forall i | i in q.provided
      ensures q.provided[i] == leaves[i]
    {
      ShiftMonotone(i, q.n - 1, k);
      BindsLeaf(leaves, q, k, j, proof, used, captured, i);
    }
    forall h: nat, i: nat | h <= k && Taken(q, h, i) && Id(h, i) in q.retained
      ensures q.retained[Id(h, i)] == NodeValue(leaves, h, i)
    {
      PresentAbove(q.n, h, i, k);
      BindsRetained(leaves, q, k, j, proof, used, captured, h, i);
    }
  }

  // ---- capturing more ----

  /** The values of one map at the nodes of a set are another map. */
  ghost predicate SameOn(captured: Values, captured': Values, wanted: set<nat>) {
    && (forall x :: x in captured <==> x in captured' && x in wanted)
    && (forall x :: x in captured && x in captured' ==> captured[x] == captured'[x])
  }

  ghost predicate SameReading(a: Result<Reading>, b: Result<Reading>, wanted: set<nat>) {
    a.Ok? == b.Ok? &&
    (a.Ok? && b.Ok? ==> a.value.value == b.value.value && a.value.used == b.value.used
                        && SameOn(a.value.captured, b.value.captured, wanted))
  }

  lemma WantedMoreHere(q: Query, q': Query, k: nat, j: nat, proof: seq<Digest>, used: nat, captured: Values,
                       captured': Values)
    requires q' == q.(wanted := q'.wanted) && q.wanted <= q'.wanted && SameOn(captured, captured', q.wanted)
    requires k == 0 || !Visited(q.provided.Keys, k, j)
    ensures SameReading(Rebuild(q, k, j, proof, used, captured), Rebuild(q', k, j, proof, used, captured'), q.wanted)
  {
  }

  /** Wanting more nodes changes neither the root nor the values of the others. */
  lemma {:induction false} WantedMore(q: Query, q': Query, k: nat, j: nat, proof: seq<Digest>, used: nat,
                                      captured: Values, captured': Values)
    requires q' == q.(wanted := q'.wanted) && q.wanted <= q'.wanted && SameOn(captured, captured', q.wanted)
    ensures SameReading(Rebuild(q, k, j, proof, used, captured), Rebuild(q', k, j, proof, used, captured'), q.wanted)
    decreases k
  {
    if k == 0 || !Visited(q.provided.Keys, k, j) {
      WantedMoreHere(q, q', k, j, proof, used, captured, captured');
    } else {
      WantedMore(q, q', k - 1, 2 * j, proof, used, captured, captured');
      var l, l' := Rebuild(q, k - 1, 2 * j, proof, used, captured), Rebuild(q', k - 1, 2 * j, proof, used, captured');
      if l.Ok? && RightIndex(k - 1, j, q.n) != 2 * j {
        WantedMore(q, q', k - 1, 2 * j + 1, proof, l.value.used, l.value.captured, l'.value.captured);
      }
    }
  }

  /** A client that captures the full subtrees among others can keep exactly those, and they fold to the root. */
  lemma KeptPeaks(q: Query, proof: seq<Digest>, kept: Values)
    requires PeakIds(q.n) <= q.wanted && q.n > 0 && q.n - 1 in q.provided && CalculatedRoot(q, proof).Ok?
    requires SameOn(kept, CalculatedRoot(q, proof).value.1, PeakIds(q.n))
    ensures kept.Keys == PeakIds(q.n) && PeaksOf(kept, q.n, 0) != []
            && FoldPeaks(PeaksOf(kept, q.n, 0)) == CalculatedRoot(q, proof).value.0
  {
    var p := q.(wanted := PeakIds(q.n));
    WantedMore(p, q, Height(q.n), 0, proof, 0, map[], map[]);
    ReconstructionKeepsPeaks(p, proof);
    assert kept == CalculatedRoot(p, proof).value.1;
  }
}
