/**
 * When an accepted transition is exact, read off the declared keys and the depths of the proof
 * (src/client/verifier.rs, PrefixTransitioner).
 */
module TransitionCondition {
  import opened Digests
  import opened SparseTree
  import opened PrefixProofs
  import opened PartialTree
  import opened Transition
  import opened TransitionExact
  import opened TransitionAssembly
  import opened TransitionHonest

  /** The siblings of the first `n` levels of a path that no other batch key lies below. */
  function BareSiblings(key: Index, n: nat, batch: set<Index>): (paths: set<Path>) {
    set k | 0 <= k < n && k < INDEX_BITS && !CoversBatchKey(batch, key, SiblingPath(key, k)) :: SiblingPath(key, k)
  }

  /** Those of the first `n` declared keys, down to the depths of their outcomes. */
  function AllBareSiblings(items: seq<Leaf>, results: seq<SearchResult>, batch: set<Index>, n: nat): (paths: set<Path>)
    requires n <= |items| == |results|
    decreases n
  {
    if n == 0 then {}
    else AllBareSiblings(items, results, batch, n - 1) + BareSiblings(items[n - 1].vrfOutput, results[n - 1].depth,
        batch)
  }

  /**
   * The condition: above every sibling that a declared key's outcome lists and no declared key lies
   * below, the changed map still holds a key.
   */
  predicate KeepsParents(m': Contents, items: seq<Leaf>, results: seq<SearchResult>, batch: set<Index>)
    requires |items| == |results|
  {
    forall j :: 0 <= j < |items| ==> KeepsParentsOf(m', items[j].vrfOutput, results[j].depth, batch)
  }

  predicate KeepsParentsOf(m': Contents, key: Index, depth: nat, batch: set<Index>) {
    forall k :: 0 <= k < depth && k < INDEX_BITS && !CoversBatchKey(batch, key, SiblingPath(key, k)) ==>
        Occupied(m', key[..k])
  }

  // ---- what is recorded ----

  /** The bare siblings are recorded; anything else recorded is a leaf. */
  ghost predicate Records(nodes: Nodes, bare: set<Path>) {
    && (forall q :: q in bare ==> q in nodes)
    && (forall q :: q in nodes && q !in bare ==> |q| == INDEX_BITS && nodes[q] != Zero)
  }

  lemma {:induction false} SiblingsRecord(a: Assembly, key: Index, elements: seq<Digest>, batch: set<Index>, n: nat,
                                          bare: set<Path>)
    requires n <= |elements| <= INDEX_BITS && Records(a.nodes, bare) && AddSiblings(a, key, elements, batch, n).Ok?
    ensures Records(AddSiblings(a, key, elements, batch, n).value.nodes, bare + BareSiblings(key, n, batch))
    decreases n
  {
    if n == 0 {
      assert bare + BareSiblings(key, 0, batch) == bare;
    } else {
      SiblingsRecord(a, key, elements, batch, n - 1, bare);
      MoreBare(key, n, batch);
    }
  }

  lemma MoreBare(key: Index, n: nat, batch: set<Index>)
    requires 0 < n <= INDEX_BITS
    ensures BareSiblings(key, n, batch) ==
            BareSiblings(key, n - 1, batch) + if CoversBatchKey(batch, key, SiblingPath(key, n - 1)) then {}
                else {SiblingPath(key, n - 1)}
  {
  }

  lemma TerminalRecords(nodes: Nodes, item: Leaf, result: SearchResult, isRemoved: bool, removedKeys: set<Index>,
                        bare: set<Path>)
    requires Records(nodes, bare) && AddTerminal(nodes, item, result, isRemoved, removedKeys).Ok?
    ensures Records(AddTerminal(nodes, item, result, isRemoved, removedKeys).value, bare)
  {
  }

  lemma {:induction false} AssembleRecords(added: seq<Leaf>, removed: seq<Leaf>, proof: PrefixProof, n: nat)
    requires n <= |proof.results| == |added| + |removed| && Assemble(added, removed, proof, n).Ok?
    ensures Records(Assemble(added, removed, proof, n).value.nodes,
                    AllBareSiblings(added + removed, proof.results, Keys(added) + Keys(removed), n))
    decreases n
  {
    if n > 0 {
      AssembleRecords(added, removed, proof, n - 1);
      var items, batch := added + removed, Keys(added) + Keys(removed);
      AbsorbRecords(Assemble(added, removed, proof, n - 1).value, items[n - 1], proof.results[n - 1], n - 1 >= |added|,
                    Keys(removed), batch, proof.elements, AllBareSiblings(items, proof.results, batch, n - 1));
    }
  }

  lemma AbsorbRecords(a: Assembly, item: Leaf, result: SearchResult, isRemoved: bool, removedKeys: set<Index>,
                      batch: set<Index>, elements: seq<Digest>, bare: set<Path>)
    requires Records(a.nodes, bare) && Absorb(a, item, result, isRemoved, removedKeys, batch, elements).Ok?
    ensures Records(Absorb(a, item, result, isRemoved, removedKeys, batch, elements).value.nodes,
                    bare + BareSiblings(item.vrfOutput, result.depth, batch))
  {
    var end := a.offset + result.depth;
    var nodes := AddTerminal(a.nodes, item, result, isRemoved, removedKeys).value;
    TerminalRecords(a.nodes, item, result, isRemoved, removedKeys, bare);
    SiblingsRecord(Assembly(nodes, a.covering, end), item.vrfOutput, elements[a.offset..end], batch, result.depth,
                   bare);
  }

  lemma {:induction false} BareOrigin(items: seq<Leaf>, results: seq<SearchResult>, batch: set<Index>, n: nat, q: Path)
    returns (j: nat, k: nat)
    requires n <= |items| == |results| && q in AllBareSiblings(items, results, batch, n)
    ensures j < n && k < results[j].depth && k < INDEX_BITS && q == SiblingPath(items[j].vrfOutput, k)
    ensures !CoversBatchKey(batch, items[j].vrfOutput, q)
    decreases n
  {
    if q in BareSiblings(items[n - 1].vrfOutput, results[n - 1].depth, batch) {
      j := n - 1;
      k :| 0 <= k < results[j].depth && k < INDEX_BITS && q == SiblingPath(items[j].vrfOutput, k)
           && !CoversBatchKey(batch, items[j].vrfOutput, q);
    } else {
      j, k := BareOrigin(items, results, batch, n - 1, q);
    }
  }

  lemma {:induction false} BareListed(items: seq<Leaf>, results: seq<SearchResult>, batch: set<Index>, n: nat, j: nat,
                                      k: nat)
    requires j < n <= |items| == |results| && k < results[j].depth && k < INDEX_BITS
    requires !CoversBatchKey(batch, items[j].vrfOutput, SiblingPath(items[j].vrfOutput, k))
    ensures SiblingPath(items[j].vrfOutput, k) in AllBareSiblings(items, results, batch, n)
    decreases n
  {
    if j < n - 1 {
      BareListed(items, results, batch, n - 1, j, k);
    } else {
      assert SiblingPath(items[j].vrfOutput, k) in BareSiblings(items[j].vrfOutput, results[j].depth, batch);
    }
  }

  // ---- the condition is enough ----

  /** The parents of the bare siblings are occupied. */
  ghost predicate ParentsKept(m': Contents, bare: set<Path>) {
    forall q :: q in bare ==> |q| > 0 && Occupied(m', q[..|q| - 1])
  }

  lemma KeptParents(m': Contents, items: seq<Leaf>, results: seq<SearchResult>, batch: set<Index>)
    requires |items| == |results| && KeepsParents(m', items, results, batch)
    ensures ParentsKept(m', AllBareSiblings(items, results, batch, |items|))
  {
    forall q | q in AllBareSiblings(items, results, batch, |items|)
      ensures |q| > 0 && Occupied(m', q[..|q| - 1])
    {
      var j, k := BareOrigin(items, results, batch, |items|, q);
      assert KeepsParentsOf(m', items[j].vrfOutput, results[j].depth, batch);
      assert q[..|q| - 1] == items[j].vrfOutput[..k];
    }
  }

  /** The topmost recorded node between `p` and a recorded node below it is one that the old map gives its value. */
  lemma {:induction false} TopRecorded(nodes: Nodes, m: Contents, p: Path, q: Path) returns (r: Path)
    requires Tracks(nodes, m, p) && p !in nodes && q in nodes && Above(p, q) && |p| < |q| <= INDEX_BITS
    ensures r in nodes && Above(p, r) && |p| < |r| && Above(r, q) && Tracks(nodes, m, r)
    decreases |q| - |p|
  {
    var c := p + [q[|p|]];
    AboveChild(p, q[|p|], q);
    TracksChild(nodes, m, p, q[|p|]);
    assert Above(p, c);
    if c in nodes {
      return c;
    }
    assert |c| == |q| ==> c == q;
    r := TopRecorded(nodes, m, c, q);
    AboveTransitive(p, c, r);
  }

  lemma ParentAbove(m': Contents, p: Path, q: Path)
    requires Above(p, q) && |p| < |q| && Occupied(m', q[..|q| - 1])
    ensures Occupied(m', p)
  {
    assert Above(p, q[..|q| - 1]);
    OccupiedAbove(m', p, q[..|q| - 1]);
  }

  /** Where something is still recorded below an unrecorded node, the changed map holds a key. */
  lemma DescendantOccupied(nodes: Nodes, m: Contents, added: seq<Leaf>, removed: seq<Leaf>, bare: set<Path>, p: Path)
    requires Tracks(nodes, m, p) && |p| < INDEX_BITS && p !in nodes
    requires Records(nodes, bare) && ParentsKept(Changed(m, added, removed), bare)
    requires forall q :: q in nodes ==> |q| <= INDEX_BITS
    requires HasDescendant(Apply(nodes, added, removed), p)
    ensures Occupied(Changed(m, added, removed), p)
  {
    var q :| q in Apply(nodes, added, removed) && |q| > |p| && Above(p, q);
    AppliedAt(nodes, m, added, removed, q);
    if q !in Keys(added) {
      var r := TopRecorded(nodes, m, p, q);
      if r in bare {
        ParentAbove(Changed(m, added, removed), p, r);
      } else {
        LeafValue(m, r);
        assert r == q;
      }
    }
  }

  lemma {:induction false} KeptIsTight(nodes: Nodes, m: Contents, added: seq<Leaf>, removed: seq<Leaf>, bare: set<Path>,
                                       p: Path)
    requires Tracks(nodes, m, p) && Records(nodes, bare) && ParentsKept(Changed(m, added, removed), bare)
    requires forall q :: q in nodes ==>
            |q| <= INDEX_BITS && (|q| < INDEX_BITS ==> SpansNone(q, Keys(added) + Keys(removed)))
    ensures Tight(Apply(nodes, added, removed), p)
    decreases INDEX_BITS - |p|
  {
    var nodes' := Apply(nodes, added, removed);
    if p !in nodes' && |p| < INDEX_BITS && HasDescendant(nodes', p) {
      AppliedAt(nodes, m, added, removed, p);
      TracksChild(nodes, m, p, false);
      TracksChild(nodes, m, p, true);
      KeptIsTight(nodes, m, added, removed, bare, p + [false]);
      KeptIsTight(nodes, m, added, removed, bare, p + [true]);
      ExactBelow(nodes, m, added, removed, p + [false]);
      ExactBelow(nodes, m, added, removed, p + [true]);
      DescendantOccupied(nodes, m, added, removed, bare, p);
      OccupiedChildren(Changed(m, added, removed), p);
    }
  }

  // ---- and needed ----

  /** In a tight tree an unrecorded node on a declared key's path with something recorded below is occupied. */
  lemma {:induction false} TightOccupied(nodes: Nodes, m: Contents, added: seq<Leaf>, removed: seq<Leaf>, key: Index,
                                         l: nat, k: nat)
    requires l <= k < INDEX_BITS && Tracks(nodes, m, key[..l]) && Tight(Apply(nodes, added, removed), key[..l])
    requires forall q :: q in nodes && |q| < INDEX_BITS ==> SpansNone(q, Keys(added) + Keys(removed))
    requires key in Keys(added) + Keys(removed) && HasDescendant(Apply(nodes, added, removed), key[..k])
    ensures Occupied(Changed(m, added, removed), key[..k])
    decreases k - l
  {
    Unrecorded(nodes, added, removed, m, key, l);
    if l < k {
      TightChild(nodes, m, added, removed, key, l, k);
      TightOccupied(nodes, m, added, removed, key, l + 1, k);
    } else {
      ExactBelow(nodes, m, added, removed, key[..l]);
      ResolveInner(Apply(nodes, added, removed), key[..l]);
    }
  }

  lemma Unrecorded(nodes: Nodes, added: seq<Leaf>, removed: seq<Leaf>, m: Contents, key: Index, l: nat)
    requires l < INDEX_BITS && key in Keys(added) + Keys(removed)
    requires forall q :: q in nodes && |q| < INDEX_BITS ==> SpansNone(q, Keys(added) + Keys(removed))
    ensures key[..l] !in nodes && key[..l] !in Apply(nodes, added, removed)
  {
    assert Above(key[..l], key);
    AppliedAt(nodes, m, added, removed, key[..l]);
  }

  lemma TightChild(nodes: Nodes, m: Contents, added: seq<Leaf>, removed: seq<Leaf>, key: Index, l: nat, k: nat)
    requires l < k < INDEX_BITS && Tracks(nodes, m, key[..l]) && Tight(Apply(nodes, added, removed), key[..l])
    requires key[..l] !in nodes && key[..l] !in Apply(nodes, added, removed)
    requires HasDescendant(Apply(nodes, added, removed), key[..k])
    ensures Tracks(nodes, m, key[..l + 1]) && Tight(Apply(nodes, added, removed), key[..l + 1])
  {
    var q :| q in Apply(nodes, added, removed) && |q| > k && Above(key[..k], q);
    assert Above(key[..l], key[..k]);
    AboveTransitive(key[..l], key[..k], q);
    TracksChild(nodes, m, key[..l], key[l]);
    assert key[..l] + [key[l]] == key[..l + 1];
  }

  /** The sibling of a declared key that no declared key lies below survives the change. */
  lemma BareSurvives(nodes: Nodes, m: Contents, added: seq<Leaf>, removed: seq<Leaf>, key: Index, k: nat)
    requires k < INDEX_BITS && key in Keys(added) + Keys(removed) && SiblingPath(key, k) in nodes
    requires !CoversBatchKey(Keys(added) + Keys(removed), key, SiblingPath(key, k))
    ensures HasDescendant(Apply(nodes, added, removed), key[..k])
  {
    var s := SiblingPath(key, k);
    AppliedAt(nodes, m, added, removed, s);
    assert Above(s, s) && !Above(s, key);
    assert s !in Keys(added) + Keys(removed);
    assert Above(key[..k], s);
  }

  lemma TightKeeps(nodes: Nodes, m: Contents, added: seq<Leaf>, removed: seq<Leaf>, results: seq<SearchResult>)
    requires |results| == |added + removed| && Tracks(nodes, m, []) && Tight(Apply(nodes, added, removed), [])
    requires forall q :: q in nodes && |q| < INDEX_BITS ==> SpansNone(q, Keys(added) + Keys(removed))
    requires Records(nodes, AllBareSiblings(added + removed, results, Keys(added) + Keys(removed), |results|))
    ensures KeepsParents(Changed(m, added, removed), added + removed, results, Keys(added) + Keys(removed))
  {
    var items, batch := added + removed, Keys(added) + Keys(removed);
    forall j, k | 0 <= j < |items| && 0 <= k < results[j].depth && k < INDEX_BITS
                  && !CoversBatchKey(batch, items[j].vrfOutput, SiblingPath(items[j].vrfOutput, k))
      ensures Occupied(Changed(m, added, removed), items[j].vrfOutput[..k])
    {
      var key := items[j].vrfOutput;
      BareListed(items, results, batch, |results|, j, k);
      KeysOfAll(added, removed);
      BareSurvives(nodes, m, added, removed, key, k);
      assert key[..0] == [];
      TightOccupied(nodes, m, added, removed, key, 0, k);
    }
    forall j | 0 <= j < |items|
      ensures KeepsParentsOf(Changed(m, added, removed), items[j].vrfOutput, results[j].depth, batch)
    {
    }
  }

  /**
   * Whatever the proof: a transition accepted against the root of `m` returns the root of the changed
   * map if and only if, above every sibling that an outcome lists and no declared key lies below, the
   * changed map still holds a key.
   */
  lemma AcceptedIsExactWhenKept(m: Contents, added: seq<Leaf>, removed: seq<Leaf>, proof: PrefixProof)
    requires NextRoot(Root(m), added, removed, proof).Ok?
    ensures NextRoot(Root(m), added, removed, proof).value == Root(Changed(m, added, removed))
            <==> KeepsParents(Changed(m, added, removed), added + removed, proof.results, Keys(added) + Keys(removed))
  {
    var nodes := Assemble(added, removed, proof, |proof.results|).value.nodes;
    var bare := AllBareSiblings(added + removed, proof.results, Keys(added) + Keys(removed), |proof.results|);
    AcceptedTransitionIsExact(m, added, removed, proof);
    AssembleWellPlaced(added, removed, proof, |proof.results|);
    AssembleRecords(added, removed, proof, |proof.results|);
    if KeepsParents(Changed(m, added, removed), added + removed, proof.results, Keys(added) + Keys(removed)) {
      KeptParents(Changed(m, added, removed), added + removed, proof.results, Keys(added) + Keys(removed));
      KeptIsTight(nodes, m, added, removed, bare, []);
    }
    if Tight(Apply(nodes, added, removed), []) {
      TightKeeps(nodes, m, added, removed, proof.results);
    }
  }

  // ---- removals that are not added again ----

  /** The map with two leaves. */
  function TwoLeaves(a: Leaf, b: Leaf): (m: Contents) {
    map[a.vrfOutput := a.commitment, b.vrfOutput := b.commitment]
  }

  /**
   * Why removed keys must be added again: of two keys that agree in their first bit, whatever honest
   * searches the operator sends to remove both, the transition is accepted, and the root that comes
   * out is not that of the empty map.
   */
  lemma {:induction false} TwoRemovalsMissTheRoot(a: Leaf, b: Leaf, answers: seq<ProofResult>, proof: PrefixProof)
    requires a.vrfOutput != b.vrfOutput && a.vrfOutput[0] == b.vrfOutput[0]
    requires AllAnswered(TwoLeaves(a, b), [a, b], answers)
    requires proof == PrefixProof([answers[0].result, answers[1].result], Elements(answers, |answers|))
    ensures var next := NextRoot(Root(TwoLeaves(a, b)), [], [a, b], proof); next.Ok? && next.value != Root(map[])
  {
    RemovalOfBoth(TwoLeaves(a, b), a, b, [a, b], [], answers, proof, map[]);
  }

  lemma {:induction false} RemovalOfBoth(m: Contents, a: Leaf, b: Leaf, removed: seq<Leaf>, none: seq<Leaf>,
                                         answers: seq<ProofResult>, proof: PrefixProof, empty: Contents)
    requires a.vrfOutput != b.vrfOutput && a.vrfOutput[0] == b.vrfOutput[0] && m == TwoLeaves(a, b)
    requires removed == [a, b] && none == [] && empty == map[] && AllAnswered(m, removed, answers)
    requires proof == PrefixProof([answers[0].result, answers[1].result], Elements(answers, |answers|))
    ensures var next := NextRoot(Root(m), none, removed, proof); next.Ok? && next.value != Root(empty)
  {
    assert none + removed == removed;
    HonestBatchAccepted(m, none, removed, answers, proof);
    AcceptedIsExactWhenKept(m, none, removed, proof);
    NothingLeft(m, none, removed);
    ParentsLost(a, b, m, none, removed, answers, proof);
  }

  lemma NothingLeft(m: Contents, none: seq<Leaf>, removed: seq<Leaf>)
    requires none == [] && forall key :: key in m ==> key in Keys(removed)
    ensures Changed(m, none, removed) == map[]
  {
    assert Changed(m, none, removed) == m - Keys(removed);
  }

  lemma ParentsLost(a: Leaf, b: Leaf, m: Contents, none: seq<Leaf>, removed: seq<Leaf>, answers: seq<ProofResult>,
                    proof: PrefixProof)
    requires a.vrfOutput != b.vrfOutput && a.vrfOutput[0] == b.vrfOutput[0] && m == TwoLeaves(a, b)
    requires removed == [a, b] && none == [] && AllAnswered(m, removed, answers)
    requires proof.results == [answers[0].result, answers[1].result]
    requires none + removed == removed
    ensures !KeepsParents(map[], none + removed, proof.results, Keys(none) + Keys(removed))
  {
    assert Keys(none) + Keys(removed) == {a.vrfOutput, b.vrfOutput};
    assert Answers(m, removed[0].vrfOutput, answers[0]);
    SearchedPastFirst(a, b, answers[0]);
    assert !KeepsParentsOf(map[], removed[0].vrfOutput, proof.results[0].depth, {a.vrfOutput, b.vrfOutput});
  }

  /** The search for one of them goes past the first level, where its sibling is empty. */
  lemma {:induction false} SearchedPastFirst(a: Leaf, b: Leaf, r: ProofResult)
    requires a.vrfOutput != b.vrfOutput && a.vrfOutput[0] == b.vrfOutput[0]
    requires Answers(TwoLeaves(a, b), a.vrfOutput, r)
    ensures r.result.depth > 0 && !CoversBatchKey({a.vrfOutput, b.vrfOutput}, a.vrfOutput, SiblingPath(a.vrfOutput, 0))
  {
    var key, other := a.vrfOutput, b.vrfOutput;
    assert SiblingPath(key, 0)[0] != other[0];
    var d := FirstDifference(key, other, 0);
    assert SiblingPath(key, d) == other[..d + 1];
    assert Above(SiblingPath(key, d), other);
  }

  lemma {:induction false} FirstDifference(a: Index, b: Index, from: nat) returns (d: nat)
    requires from <= INDEX_BITS && a != b && a[..from] == b[..from]
    ensures d < INDEX_BITS && a[..d] == b[..d] && a[d] != b[d]
    decreases INDEX_BITS - from
  {
    assert a[..INDEX_BITS] == a && b[..INDEX_BITS] == b;
    if a[from] != b[from] {
      d := from;
    } else {
      assert a[..from + 1] == a[..from] + [a[from]];
      assert b[..from + 1] == b[..from] + [b[from]];
      d := FirstDifference(a, b, from + 1);
    }
  }
}
