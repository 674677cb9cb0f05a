/**
 * Inclusion proofs that also descend to boundary leaves (src/tree/log.rs, get_batch_proof_for_nodes,
 * called from src/tree/walker.rs with the size that an auditor has signed).
 */
module LogBoundaries {
  import opened Digests
  import opened LogMath
  import opened LogTree
  import opened LogProofs
  import opened LogServer
  import opened LogLaws

  // ---- how much is sent and how much is used ----

  /** A node above a boundary leaf and no provided one. */
  predicate Opened(positions: set<nat>, bounds: set<nat>, k: nat, j: nat) {
    k > 0 && !Visited(positions, k, j) && Visited(bounds, k, j)
  }

  lemma UnvisitedComplete(n: nat, positions: set<nat>, k: nat, j: nat)
    requires n > 0 && n - 1 in positions && Present(k, j, n) && !Visited(positions, k, j)
    ensures Complete(k, j, n)
  {
    ShiftMonotone(n - 1, n, k);
  }

  lemma BelowOpened(positions: set<nat>, bounds: set<nat>, k: nat, j: nat)
    requires Opened(positions, bounds, k, j)
    ensures !Visited(positions, k - 1, 2 * j) && !Visited(positions, k - 1, 2 * j + 1)
    ensures Visited(bounds, k - 1, 2 * j) || Visited(bounds, k - 1, 2 * j + 1)
  {
    forall p | p in positions ensures Shift(p, k - 1) != 2 * j && Shift(p, k - 1) != 2 * j + 1 { ShiftSplit(p, k - 1); }
    var b :| b in bounds && Shift(b, k) == j;
    ShiftSplit(b, k - 1);
  }

  /** A client never retains all of what the server sends for an opened node. */
  lemma {:induction false} OpenedSendsSome(n: nat, positions: set<nat>, bounds: set<nat>, m: nat, k: nat, j: nat)
    requires Opened(positions, bounds, k, j) && Complete(k, j, n)
    ensures Needed(n, positions, bounds, PeakIds(m), k, j) != []
    decreases k
  {
    BelowOpened(positions, bounds, k, j);
    CompleteChildren(k, j, n);
    CompleteIsPresent(k - 1, 2 * j + 1, n);
    PeakIdsAre(m, k - 1, 2 * j);
    PeakIdsAre(m, k - 1, 2 * j + 1);
    if k > 1 {
      if Visited(bounds, k - 1, 2 * j) {
        OpenedSendsSome(n, positions, bounds, m, k - 1, 2 * j);
      } else {
        OpenedSendsSome(n, positions, bounds, m, k - 1, 2 * j + 1);
      }
    }
  }

  /** The server never sends fewer nodes than the client will use. */
  lemma {:induction false} SendsEnough(n: nat, positions: set<nat>, bounds: set<nat>, m: nat, k: nat, j: nat)
    requires n > 0 && n - 1 in positions && Present(k, j, n)
    ensures |Needed(n, positions, {}, PeakIds(m), k, j)| <= |Needed(n, positions, bounds, PeakIds(m), k, j)|
    decreases k
  {
    if Opened(positions, bounds, k, j) {
      UnvisitedComplete(n, positions, k, j);
      OpenedSendsSome(n, positions, bounds, m, k, j);
    } else if Visited(positions, k, j) && k > 0 {
      PresentLeft(k, j, n);
      SendsEnough(n, positions, bounds, m, k - 1, 2 * j);
      if Present(k - 1, 2 * j + 1, n) { SendsEnough(n, positions, bounds, m, k - 1, 2 * j + 1); }
    }
  }

  /** Whatever the proof, the client uses as many elements as it takes nodes as given. */
  lemma {:induction false} UsesNeeded(q: Query, k: nat, j: nat, proof: seq<Digest>, used: nat, captured: Values)
    requires Rebuild(q, k, j, proof, used, captured).Ok?
    ensures Rebuild(q, k, j, proof, used, captured).value.used ==
            used + |Needed(q.n, q.provided.Keys, {}, q.retained.Keys, k, j)|
    decreases k
  {
    if k == 0 && j in q.provided {
      assert Shift(j, 0) == j;
    } else if Visited(q.provided.Keys, k, j) && k > 0 {
      UsesNeeded(q, k - 1, 2 * j, proof, used, captured);
      var l := Rebuild(q, k - 1, 2 * j, proof, used, captured).value;
      if RightIndex(k - 1, j, q.n) != 2 * j { UsesNeeded(q, k - 1, 2 * j + 1, proof, l.used, l.captured); }
    }
  }

  // ---- a part is not the whole ----

  /** The size of a digest's tree of log nodes. */
  function Weight(d: Digest): (w: nat) {
    match d
    case LogNode(l, _, r, _) => 1 + Weight(l) + Weight(r)
    case _ => 0
  }

  /** What is sent for an opened node weighs less than the node. */
  lemma {:induction false} PartsWeighLess(leaves: Leaves, positions: set<nat>, bounds: set<nat>, retained: set<nat>,
                                          k: nat, j: nat)
    requires !Visited(positions, k, j) && Complete(k, j, |leaves|)
    ensures Present(k, j, |leaves|)
    ensures forall t :: t in Needed(|leaves|, positions, bounds, retained, k, j) ==>
              Present(t.level, t.index, |leaves|) &&
              Weight(NodeValue(leaves, t.level, t.index)) + (if Opened(positions, bounds, k, j) then 1
                  else 0) <= Weight(NodeValue(leaves, k, j))
    decreases k
  {
    CompleteIsPresent(k, j, |leaves|);
    if Opened(positions, bounds, k, j) {
      BelowOpened(positions, bounds, k, j);
      CompleteChildren(k, j, |leaves|);
      CompleteIsPresent(k - 1, 2 * j + 1, |leaves|);
      PartsWeighLess(leaves, positions, bounds, retained, k - 1, 2 * j);
      PartsWeighLess(leaves, positions, bounds, retained, k - 1, 2 * j + 1);
    }
  }

  // ---- accepted only without opened nodes ----

  /** The client ends in the true value over the values that the server sends. */
  ghost predicate Accepts(leaves: Leaves, q: Query, bounds: set<nat>, k: nat, j: nat, proof: seq<Digest>, used: nat,
                          captured: Values)
    requires Present(k, j, |leaves|)
  {
    && Offers(leaves, proof, used, Needed(q.n, q.provided.Keys, bounds, q.retained.Keys, k, j))
    && var r := Rebuild(q, k, j, proof, used, captured); r.Ok? && r.value.value == NodeValue(leaves, k, j)
  }

  /** Using exactly what is sent and ending in the true value, the client has met no opened node. */
  lemma {:induction false} AcceptedUnopened(leaves: Leaves, q: Query, bounds: set<nat>, m: nat, k: nat, j: nat,
                                            proof: seq<Digest>, used: nat, captured: Values, b: nat)
    requires q.n == |leaves| > 0 && q.n - 1 in q.provided && q.retained.Keys == PeakIds(m) && Present(k, j, q.n)
    requires Accepts(leaves, q, bounds, k, j, proof, used, captured)
    requires |Needed(q.n, q.provided.Keys, {}, q.retained.Keys, k, j)| ==
            |Needed(q.n, q.provided.Keys, bounds, q.retained.Keys, k, j)|
    requires b in bounds && b < q.n && k > 0 && Shift(b, k) == j
    ensures Visited(q.provided.Keys, 1, Shift(b, 1))
    decreases k
  {
    var positions := q.provided.Keys;
    if !Visited(positions, k, j) {
      OpenedRejects(leaves, q, bounds, m, k, j, proof, used, captured);
      assert false;
    } else if k > 1 {
      AcceptsChildren(leaves, q, bounds, m, k, j, proof, used, captured);
      ShiftSplit(b, k - 1);
      ShiftMonotone(b, q.n - 1, k - 1);
      var l := Rebuild(q, k - 1, 2 * j, proof, used, captured).value;
      if Shift(b, k - 1) == 2 * j {
        AcceptedUnopened(leaves, q, bounds, m, k - 1, 2 * j, proof, used, captured, b);
      } else {
        AcceptedUnopened(leaves, q, bounds, m, k - 1, 2 * j + 1, proof, l.used, l.captured, b);
      }
    }
  }

  lemma OpenedRejects(leaves: Leaves, q: Query, bounds: set<nat>, m: nat, k: nat, j: nat, proof: seq<Digest>, used: nat,
                      captured: Values)
    requires q.n == |leaves| > 0 && q.n - 1 in q.provided && q.retained.Keys == PeakIds(m) && Present(k, j, q.n)
    requires Opened(q.provided.Keys, bounds, k, j)
    requires |Needed(q.n, q.provided.Keys, {}, q.retained.Keys, k, j)| ==
            |Needed(q.n, q.provided.Keys, bounds, q.retained.Keys, k, j)|
    ensures !Accepts(leaves, q, bounds, k, j, proof, used, captured)
  {
    var positions := q.provided.Keys;
    UnvisitedComplete(q.n, positions, k, j);
    OpenedSendsSome(q.n, positions, bounds, m, k, j);
    PartsWeighLess(leaves, positions, bounds, q.retained.Keys, k, j);
    var sent := Needed(q.n, positions, bounds, q.retained.Keys, k, j);
    assert sent[0] in sent;
  }

  lemma LengthsMatch(n: nat, positions: set<nat>, bounds: set<nat>, m: nat, k: nat, j: nat)
    requires n > 0 && n - 1 in positions && Present(k, j, n) && k > 0 && Visited(positions, k, j)
    requires |Needed(n, positions, {}, PeakIds(m), k, j)| == |Needed(n, positions, bounds, PeakIds(m), k, j)|
    ensures |Needed(n, positions, {}, PeakIds(m), k - 1, 2 * j)| ==
            |Needed(n, positions, bounds, PeakIds(m), k - 1, 2 * j)|
    ensures Present(k - 1, 2 * j + 1, n) ==>
              |Needed(n, positions, {}, PeakIds(m), k - 1, 2 * j + 1)| ==
                  |Needed(n, positions, bounds, PeakIds(m), k - 1, 2 * j + 1)|
  {
    PresentLeft(k, j, n);
    SendsEnough(n, positions, bounds, m, k - 1, 2 * j);
    if Present(k - 1, 2 * j + 1, n) { SendsEnough(n, positions, bounds, m, k - 1, 2 * j + 1); }
  }

  lemma AcceptsChildren(leaves: Leaves, q: Query, bounds: set<nat>, m: nat, k: nat, j: nat, proof: seq<Digest>,
                        used: nat, captured: Values)
    requires q.n == |leaves| > 0 && q.n - 1 in q.provided && q.retained.Keys == PeakIds(m) && Present(k, j, q.n)
    requires Accepts(leaves, q, bounds, k, j, proof, used, captured) && k > 0 && Visited(q.provided.Keys, k, j)
    requires |Needed(q.n, q.provided.Keys, {}, q.retained.Keys, k, j)| ==
            |Needed(q.n, q.provided.Keys, bounds, q.retained.Keys, k, j)|
    ensures Present(k - 1, 2 * j, q.n) && Accepts(leaves, q, bounds, k - 1, 2 * j, proof, used, captured)
    ensures |Needed(q.n, q.provided.Keys, {}, q.retained.Keys, k - 1, 2 * j)| ==
            |Needed(q.n, q.provided.Keys, bounds, q.retained.Keys, k - 1, 2 * j)|
    ensures Present(k - 1, 2 * j + 1, q.n) ==>
              var l := Rebuild(q, k - 1, 2 * j, proof, used, captured).value;
              && Accepts(leaves, q, bounds, k - 1, 2 * j + 1, proof, l.used, l.captured)
              && |Needed(q.n, q.provided.Keys, {}, q.retained.Keys, k - 1, 2 * j + 1)| ==
                 |Needed(q.n, q.provided.Keys, bounds, q.retained.Keys, k - 1, 2 * j + 1)|
  {
    var positions := q.provided.Keys;
    BindsChildren(leaves, q, k, j, proof, used, captured);
    LengthsMatch(q.n, positions, bounds, m, k, j);
    UsesNeeded(q, k - 1, 2 * j, proof, used, captured);
    if Present(k - 1, 2 * j + 1, q.n) {
      OffersSplit(leaves, proof, used, Needed(q.n, positions, bounds, q.retained.Keys, k - 1, 2 * j),
                  Needed(q.n, positions, bounds, q.retained.Keys, k - 1, 2 * j + 1));
    }
  }

  /** The server's proof, with boundary leaves, gives the client the true root. */
  ghost predicate GivesRoot(leaves: Leaves, positions: set<nat>, bounds: set<nat>, m: nat, retained: Values,
                            wanted: set<nat>)
    requires leaves != [] && forall i :: i in positions ==> i < |leaves|
  {
    var r := CalculatedRoot(Asked(leaves, positions, retained, wanted),
                            BatchProof(leaves, positions, bounds, PeakIds(m)));
    r.Ok? && r.value.0 == LogRoot(leaves)
  }

  lemma GivenRootUnopened(leaves: Leaves, positions: set<nat>, bounds: set<nat>, m: nat, retained: Values,
                          wanted: set<nat>, b: nat)
    requires leaves != [] && |leaves| - 1 in positions && forall i :: i in positions ==> i < |leaves|
    requires retained.Keys == PeakIds(m) && b in bounds && b < |leaves|
    requires GivesRoot(leaves, positions, bounds, m, retained, wanted)
    ensures Visited(positions, 1, Shift(b, 1))
  {
    var n := |leaves|;
    var q := Asked(leaves, positions, retained, wanted);
    RootPresent(n);
    if Height(n) == 0 {
      OnlyLeaf(n, positions, b);
    } else {
      UnopenedFrom(leaves, q, bounds, m, Height(n), 0, BatchProof(leaves, positions, bounds, PeakIds(m)), 0, map[], b);
    }
  }

  lemma OnlyLeaf(n: nat, positions: set<nat>, b: nat)
    requires n > 0 && Height(n) == 0 && b < n && n - 1 in positions
    ensures Visited(positions, 1, Shift(b, 1))
  {
    assert b in positions && Shift(b, 1) == Shift(b, 1);
  }

  lemma UnopenedFrom(leaves: Leaves, q: Query, bounds: set<nat>, m: nat, k: nat, j: nat, proof: seq<Digest>, used: nat,
                     captured: Values, b: nat)
    requires q.n == |leaves| > 0 && q.n - 1 in q.provided && q.retained.Keys == PeakIds(m) && Present(k, j, q.n)
    requires k == Height(q.n) > 0 && j == Shift(q.n - 1, k) == 0 && used == 0 && b in bounds && b < q.n
    requires proof == BatchProof(leaves, q.provided.Keys, bounds, PeakIds(m))
    requires var r := Rebuild(q, k, j, proof, used, captured);
            r.Ok? && r.value.value == NodeValue(leaves, k, j) && r.value.used >= |proof|
    ensures Visited(q.provided.Keys, 1, Shift(b, 1))
  {
    NeededPresent(q.n, q.provided.Keys, bounds, PeakIds(m), k, j);
    OffersAll(leaves, Needed(q.n, q.provided.Keys, bounds, PeakIds(m), k, j));
    UsesNeeded(q, k, j, proof, used, captured);
    SendsEnough(q.n, q.provided.Keys, bounds, m, k, j);
    ShiftMonotone(b, q.n - 1, k);
    AcceptedUnopened(leaves, q, bounds, m, k, j, proof, used, captured, b);
  }

  /**
   * With the last leaf provided, the proof that descends to boundary leaves gives the client the true
   * root exactly when every boundary leaf, or the other leaf of its pair, is itself provided.
   */
  lemma BoundariesGiveRoot(leaves: Leaves, positions: set<nat>, bounds: set<nat>, m: nat, retained: Values,
                           wanted: set<nat>)
    requires leaves != [] && |leaves| - 1 in positions && forall i :: i in positions ==> i < |leaves|
    requires (forall b :: b in bounds ==> b < |leaves|)
    requires m <= |leaves| && retained.Keys == PeakIds(m) && TrueNodes(leaves[..m], retained)
    ensures GivesRoot(leaves, positions, bounds, m, retained, wanted) <==> PairsProvided(positions, bounds)
  {
    if PairsProvided(positions, bounds) {
      RoundTrip(leaves, positions, bounds, m, retained, wanted);
    }
    if GivesRoot(leaves, positions, bounds, m, retained, wanted) {
      forall b | b in bounds ensures Visited(positions, 1, Shift(b, 1)) {
        GivenRootUnopened(leaves, positions, bounds, m, retained, wanted, b);
      }
    }
  }

  /** An auditor that has signed two of four entries makes an honest proof for the last entry fail. */
  lemma LaggingAuditorFails(leaves: Leaves, retained: Values, wanted: set<nat>)
    requires |leaves| == 4 && retained == map[]
    ensures !GivesRoot(leaves, {3}, {1}, 0, retained, wanted)
  {
    NothingRetained(leaves, retained);
    BoundariesGiveRoot(leaves, {3}, {1}, 0, retained, wanted);
    assert Shift(1, 1) == 0 && Shift(3, 1) == 1;
    assert 1 in {1} && !Visited({3}, 1, Shift(1, 1));
  }

  lemma NothingRetained(leaves: Leaves, retained: Values)
    requires retained == map[]
    ensures retained.Keys == PeakIds(0) && TrueNodes(leaves[..0], retained)
  {
    forall x: nat ensures x !in PeakIds(0) {
      CoordinatesId(x);
      PeakIdsAre(0, Level(x), IndexOf(x));
      ShiftOfNone(Level(x), 0);
    }
  }

  lemma {:induction false} ShiftOfNone(k: nat, none: nat)
    requires none == 0
    ensures Shift(none, k) == 0
    decreases k
  {
    if k > 0 { ShiftOfNone(k - 1, none); }
  }
}
