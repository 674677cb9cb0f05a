/**
 * The server's own batch of searches (src/tree/write.rs, apply_batch) is always accepted by the
 * auditor's transition, elements that span other batch keys included.
 */
module TransitionHonest {
  import opened Digests
  import opened SparseTree
  import opened PrefixProofs
  import opened PartialTree
  import opened Transition
  import opened TransitionAssembly
  import opened TransitionExact

  /** The true value of every node of the tree over `m`. */
  ghost function TruthOf(m: Contents): (truth: Truth) {
    (p: Path) => if |p| <= INDEX_BITS then NodeHash(m, p) else Zero
  }

  /** The leaves of the map and the siblings that the answers list. */
  ghost function ListedPaths(m: Contents, items: seq<Leaf>, answers: seq<ProofResult>): (paths: set<Path>)
    requires |items| == |answers|
  {
    (set p: Path | p in m.Keys) +
    (set j, k | 0 <= j < |items| && 0 <= k < |answers[j].elements|
        && k < INDEX_BITS :: SiblingPath(items[j].vrfOutput, k))
  }

  ghost predicate AllAnswered(m: Contents, items: seq<Leaf>, answers: seq<ProofResult>) {
    |items| == |answers| && forall j :: 0 <= j < |items| ==> Answers(m, items[j].vrfOutput, answers[j])
  }

  /** The tree assembled from honest answers to all items. */
  ghost predicate HonestTree(nodes: Nodes, m: Contents, items: seq<Leaf>, answers: seq<ProofResult>) {
    && AllAnswered(m, items, answers)
    && Faithful(nodes, TruthOf(m), ListedPaths(m, items, answers))
    && forall j :: 0 <= j < |items| ==> ItemPlaced(nodes, m, items, answers, j)
  }

  /** The leaf of an item that the map has, and the siblings of its path that span no item. */
  ghost predicate ItemPlaced(nodes: Nodes, m: Contents, items: seq<Leaf>, answers: seq<ProofResult>, j: nat)
    requires j < |items| == |answers|
  {
    && (items[j].vrfOutput in m ==> items[j].vrfOutput in nodes)
    && SiblingsRecorded(nodes, items[j].vrfOutput, |answers[j].elements|, Keys(items))
  }

  /** The parent of a sibling that an answer lists holds a key. */
  lemma ListedParentOccupied(m: Contents, key: Index, r: ProofResult, k: nat)
    requires Answers(m, key, r) && k < |r.elements| && k < INDEX_BITS
    ensures Occupied(m, key[..k])
  {
    if key in m {
      PresentIsOccupied(m, key, k);
    } else {
      EmptyBelowFirst(m, key, |r.elements|, k);
    }
  }

  /** A sibling listed below `p` means that the map holds a key at `p`. */
  lemma ListedBelowOccupied(m: Contents, items: seq<Leaf>, answers: seq<ProofResult>, p: Path, q: Path)
    requires AllAnswered(m, items, answers) && q in ListedPaths(m, items, answers) && Above(p, q) && |p| < |q|
    ensures Occupied(m, p)
  {
    if !(|q| == INDEX_BITS && q in m) {
      var j, k :| 0 <= j < |items| && 0 <= k < |answers[j].elements| && k < INDEX_BITS
          && q == SiblingPath(items[j].vrfOutput, k);
      var key := items[j].vrfOutput;
      assert Answers(m, key, answers[j]);
      ListedParentOccupied(m, key, answers[j], k);
      assert q[..k] == key[..k];
      OccupiedAbove(m, p, key[..k]);
    }
  }

  lemma NothingListedBelowEmpty(m: Contents, items: seq<Leaf>, answers: seq<ProofResult>, p: Path, q: Path)
    requires AllAnswered(m, items, answers) && q in ListedPaths(m, items, answers) && !Occupied(m, p)
    ensures !(Above(p, q) && |p| < |q|)
  {
    if Above(p, q) && |p| < |q| { ListedBelowOccupied(m, items, answers, p, q); }
  }

  lemma EmptyResolvesZero(nodes: Nodes, m: Contents, items: seq<Leaf>, answers: seq<ProofResult>, p: Path)
    requires HonestTree(nodes, m, items, answers) && |p| <= INDEX_BITS && !Occupied(m, p)
    ensures Resolve(nodes, p) == Zero
  {
    forall q | q in nodes ensures !(Above(p, q) && |p| < |q|) {
      NothingListedBelowEmpty(m, items, answers, p, q);
    }
  }

  /** On an absent item's path, the sibling below an occupied node is recorded or spans an item. */
  lemma SiblingAccounted(nodes: Nodes, m: Contents, items: seq<Leaf>, answers: seq<ProofResult>, level: nat, j: nat)
    requires HonestTree(nodes, m, items, answers) && j < |items| && level <= INDEX_BITS
    requires Occupied(m, items[j].vrfOutput[..level]) && items[j].vrfOutput !in m
    ensures level < INDEX_BITS
    ensures SiblingPath(items[j].vrfOutput, level) in nodes || Spanned(Keys(items),
            SiblingPath(items[j].vrfOutput, level))
  {
    var key, depth := items[j].vrfOutput, |answers[j].elements|;
    assert Answers(m, key, answers[j]);
    EmptyBelowFirst(m, key, depth, level);
    assert ItemPlaced(nodes, m, items, answers, j);
  }

  /** Below an occupied node on `key`'s path: a recorded sibling, or an occupied child on some item's path. */
  lemma RecordedOrDeeper(nodes: Nodes, m: Contents, items: seq<Leaf>, level: nat, j: nat) returns (q: Path, i: nat)
    requires j < |items| && level < INDEX_BITS && Occupied(m, items[j].vrfOutput[..level])
    requires var s := SiblingPath(items[j].vrfOutput, level); s in nodes || Spanned(Keys(items), s)
    ensures Above(items[j].vrfOutput[..level], q) && |q| == level + 1
    ensures q in nodes || (i < |items| && Occupied(m, q) && Above(q, items[i].vrfOutput))
  {
    var key := items[j].vrfOutput;
    q, i := SiblingPath(key, level), j;
    assert q[..level] == key[..level];
    if q !in nodes {
      OccupiedChildrenOf(m, key, level);
      if Occupied(m, q) {
        i := SpanningItem(items, q);
      } else {
        q := key[..level + 1];
      }
    }
  }

  lemma SpanningItem(items: seq<Leaf>, p: Path) returns (i: nat)
    requires Spanned(Keys(items), p)
    ensures i < |items| && Above(p, items[i].vrfOutput) && items[i].vrfOutput[..|p|] == p
  {
    var other :| other in Keys(items) && Above(p, other);
    i :| 0 <= i < |items| && items[i].vrfOutput == other;
  }

  lemma RecordedBelow(nodes: Nodes, m: Contents, items: seq<Leaf>, answers: seq<ProofResult>, p: Path, j: nat)
    returns (q: Path, i: nat)
    requires HonestTree(nodes, m, items, answers) && j < |items| && items[j].vrfOutput !in m
    requires Occupied(m, p) && Above(p, items[j].vrfOutput)
    ensures Above(p, q) && |q| == |p| + 1 <= INDEX_BITS
    ensures q in nodes || (i < |items| && Occupied(m, q) && Above(q, items[i].vrfOutput))
  {
    assert p == items[j].vrfOutput[..|p|];
    SiblingAccounted(nodes, m, items, answers, |p|, j);
    q, i := RecordedOrDeeper(nodes, m, items, |p|, j);
  }

  /** Below every occupied node on the path of an item something is recorded. */
  lemma {:induction false} SomethingRecorded(
      nodes: Nodes, m: Contents, items: seq<Leaf>, answers: seq<ProofResult>, p: Path, j: nat) returns (q: Path)
    requires HonestTree(nodes, m, items, answers) && j < |items|
    requires Occupied(m, p) && Above(p, items[j].vrfOutput)
    ensures q in nodes && Above(p, q)
    decreases INDEX_BITS - |p|
  {
    if items[j].vrfOutput in m {
      assert ItemPlaced(nodes, m, items, answers, j);
      return items[j].vrfOutput;
    }
    var r, i := RecordedBelow(nodes, m, items, answers, p, j);
    if r in nodes {
      return r;
    }
    q := SomethingRecorded(nodes, m, items, answers, r, i);
    AboveTransitive(p, r, q);
  }

  lemma EmptyBelowFirst(m: Contents, key: Index, depth: nat, level: nat)
    requires FirstEmpty(m, key, depth) && level <= INDEX_BITS
    ensures Occupied(m, key[..level]) <==> level < depth
  {
    if level < depth {
      assert Above(key[..level], key[..depth - 1]);
      OccupiedAbove(m, key[..level], key[..depth - 1]);
    } else if Occupied(m, key[..level]) {
      assert Above(key[..depth], key[..level]);
      OccupiedAbove(m, key[..depth], key[..level]);
    }
  }

  /** The children of a node on the path of `key` are the next node and its sibling. */
  lemma OccupiedChildrenOf(m: Contents, key: Index, level: nat)
    requires level < INDEX_BITS
    ensures Occupied(m, key[..level]) <==> Occupied(m, key[..level + 1]) || Occupied(m, SiblingPath(key, level))
  {
    OccupiedChildren(m, key[..level]);
    assert key[..level] + [key[level]] == key[..level + 1];
  }

  /** Off the paths of all items, the honest tree resolves to the true node. */
  lemma ResolveUnspanned(nodes: Nodes, m: Contents, items: seq<Leaf>, answers: seq<ProofResult>, j: nat, level: nat)
    requires HonestTree(nodes, m, items, answers) && j < |items| && level < INDEX_BITS
    requires Occupied(m, items[j].vrfOutput[..level])
    requires !Spanned(Keys(items), SiblingPath(items[j].vrfOutput, level))
    ensures Resolve(nodes, SiblingPath(items[j].vrfOutput, level)) ==
            NodeHash(m, SiblingPath(items[j].vrfOutput, level))
  {
    var key, depth := items[j].vrfOutput, |answers[j].elements|;
    assert Answers(m, key, answers[j]) && ItemPlaced(nodes, m, items, answers, j);
    var s := SiblingPath(key, level);
    if key !in m { EmptyBelowFirst(m, key, depth, level); }
    if level >= depth {
      assert !Occupied(m, s);
      EmptyResolvesZero(nodes, m, items, answers, s);
    }
  }

  lemma ResolveStep(nodes: Nodes, m: Contents, key: Index, level: nat)
    requires level < INDEX_BITS && key[..level] !in nodes && HasDescendant(nodes, key[..level])
    requires Occupied(m, key[..level])
    requires Resolve(nodes, SiblingPath(key, level)) == NodeHash(m, SiblingPath(key, level))
    requires Resolve(nodes, key[..level + 1]) == NodeHash(m, key[..level + 1])
    ensures Resolve(nodes, key[..level]) == NodeHash(m, key[..level])
  {
    assert key[..level] + [key[level]] == key[..level + 1];
  }

  lemma DescendantRecorded(nodes: Nodes, m: Contents, items: seq<Leaf>, answers: seq<ProofResult>, level: nat, j: nat)
    requires HonestTree(nodes, m, items, answers) && j < |items| && level <= INDEX_BITS
    requires var p := items[j].vrfOutput[..level]; Occupied(m, p) && p !in nodes
    ensures level < INDEX_BITS && HasDescendant(nodes, items[j].vrfOutput[..level])
  {
    var p := items[j].vrfOutput[..level];
    var q := SomethingRecorded(nodes, m, items, answers, p, j);
    assert |q| == level ==> q == p;
    assert |q| <= INDEX_BITS;
  }

  /** On the paths of the items, the honest tree resolves to the true node. */
  lemma {:induction false} ResolveSpanned(
      nodes: Nodes, m: Contents, items: seq<Leaf>, answers: seq<ProofResult>, level: nat, j: nat)
    requires HonestTree(nodes, m, items, answers) && j < |items| && level <= INDEX_BITS
    ensures Resolve(nodes, items[j].vrfOutput[..level]) == NodeHash(m, items[j].vrfOutput[..level])
    decreases INDEX_BITS - level
  {
    var key := items[j].vrfOutput;
    var p := key[..level];
    if !Occupied(m, p) {
      EmptyResolvesZero(nodes, m, items, answers, p);
    } else if p !in nodes {
      DescendantRecorded(nodes, m, items, answers, level, j);
      ResolveSpanned(nodes, m, items, answers, level + 1, j);
      ResolveSibling(nodes, m, items, answers, level, j);
      ResolveStep(nodes, m, key, level);
    }
  }

  lemma {:induction false} ResolveSibling(
      nodes: Nodes, m: Contents, items: seq<Leaf>, answers: seq<ProofResult>, level: nat, j: nat)
    requires HonestTree(nodes, m, items, answers) && j < |items| && level < INDEX_BITS
    requires Occupied(m, items[j].vrfOutput[..level])
    ensures var s := SiblingPath(items[j].vrfOutput, level); Resolve(nodes, s) == NodeHash(m, s)
    decreases INDEX_BITS - level, 0
  {
    var s := SiblingPath(items[j].vrfOutput, level);
    if Spanned(Keys(items), s) {
      var i := SpanningItem(items, s);
      ResolveSpanned(nodes, m, items, answers, level + 1, i);
    } else {
      ResolveUnspanned(nodes, m, items, answers, j, level);
    }
  }

  /** A batch proof made of honest answers: the additions, then the added keys that were there before. */
  ghost predicate HonestBatch(m: Contents, added: seq<Leaf>, removed: seq<Leaf>, answers: seq<ProofResult>,
                              proof: PrefixProof) {
    && AllAnswered(m, added + removed, answers)
    && |proof.results| == |answers| && (forall j :: 0 <= j < |answers| ==> proof.results[j] == answers[j].result)
    && proof.elements == Elements(answers, |answers|)
    && (forall i :: 0 <= i < |added| ==> (added[i].vrfOutput in m ==> added[i].vrfOutput in Keys(removed)))
    && (forall i :: 0 <= i < |removed| ==>
         removed[i].vrfOutput in m && m[removed[i].vrfOutput] == removed[i].commitment)
  }

  lemma HonestItem(m: Contents, added: seq<Leaf>, removed: seq<Leaf>, answers: seq<ProofResult>, proof: PrefixProof,
                   j: nat)
    requires HonestBatch(m, added, removed, answers, proof) && j < |answers|
    ensures TrueItem(added, removed, answers[j], proof.results[j], j, TruthOf(m),
                     ListedPaths(m, added + removed, answers))
  {
    var items, listed := added + removed, ListedPaths(m, added + removed, answers);
    var key, result := items[j].vrfOutput, answers[j].result;
    assert Answers(m, key, answers[j]);
    assert j < |added| ==> items[j] == added[j];
    assert j >= |added| ==> items[j] == removed[j - |added|];
    if key in m {
      NodeHashLeaf(m, key);
    } else if result.leaf.Some? {
      NodeHashLeaf(m, result.leaf.value.vrfOutput);
    }
  }

  lemma KeysOfAll(added: seq<Leaf>, removed: seq<Leaf>)
    ensures Keys(added + removed) == Keys(added) + Keys(removed)
  {}

  lemma AssembledIsHonest(m: Contents, added: seq<Leaf>, removed: seq<Leaf>, answers: seq<ProofResult>,
                          proof: PrefixProof)
    requires HonestBatch(m, added, removed, answers, proof)
    ensures var r := Assemble(added, removed, proof, |answers|);
            && r.Ok? && r.value.offset == |proof.elements|
            && HonestTree(r.value.nodes, m, added + removed, answers)
            && FaithfulCovering(r.value.covering, TruthOf(m), Keys(added + removed))
  {
    var items, listed := added + removed, ListedPaths(m, added + removed, answers);
    forall j | 0 <= j < |answers|
      ensures TrueItem(added, removed, answers[j], proof.results[j], j, TruthOf(m), listed)
    {
      HonestItem(m, added, removed, answers, proof, j);
    }
    AssembleTrueBatch(added, removed, answers, proof, TruthOf(m), listed, |answers|);
    KeysOfAll(added, removed);
    var nodes := Assemble(added, removed, proof, |answers|).value.nodes;
    forall j | 0 <= j < |items| && items[j].vrfOutput in m ensures items[j].vrfOutput in nodes {
      assert j < |added| ==> items[j] == added[j];
      assert j >= |added| ==> items[j] == removed[j - |added|];
      var i :| 0 <= i < |removed| && removed[i].vrfOutput == items[j].vrfOutput;
      assert items[|added| + i] == removed[i];
    }
  }

  /** The auditor accepts any honest batch: its elements agree and rebuild the old root. */
  lemma HonestBatchAccepted(m: Contents, added: seq<Leaf>, removed: seq<Leaf>, answers: seq<ProofResult>,
                            proof: PrefixProof)
    requires HonestBatch(m, added, removed, answers, proof) && |answers| > 0
    ensures NextRoot(Root(m), added, removed, proof).Ok?
  {
    var items := added + removed;
    AssembledIsHonest(m, added, removed, answers, proof);
    AssembleWellPlaced(added, removed, proof, |answers|);
    var a := Assemble(added, removed, proof, |answers|).value;
    CoveringResolves(a, m, items, answers);
    ResolveSpanned(a.nodes, m, items, answers, 0, 0);
    assert items[0].vrfOutput[..0] == [];
  }

  lemma CoveringResolves(a: Assembly, m: Contents, items: seq<Leaf>, answers: seq<ProofResult>)
    requires HonestTree(a.nodes, m, items, answers) && FaithfulCovering(a.covering, TruthOf(m), Keys(items))
    requires forall i :: 0 <= i < |a.covering| ==> |a.covering[i].0| <= INDEX_BITS
    ensures CoveringAgrees(a)
  {
    forall i | 0 <= i < |a.covering| ensures Resolve(a.nodes, a.covering[i].0) == a.covering[i].1 {
      assert FaithfulCover(a.covering[i], TruthOf(m), Keys(items));
      var j := SpanningItem(items, a.covering[i].0);
      ResolveSpanned(a.nodes, m, items, answers, |a.covering[i].0|, j);
    }
  }

  /** The first `n` searched keys that were already in the tree, with their old commitments. */
  function PresentLeaves(leaves: seq<Leaf>, answers: seq<ProofResult>, n: nat): (removed: seq<Leaf>)
    requires n <= |leaves| == |answers|
    decreases n
  {
    if n == 0 then []
    else if answers[n - 1].commitment.None? then PresentLeaves(leaves, answers, n - 1)
    else PresentLeaves(leaves, answers, n - 1) + [Leaf(leaves[n - 1].vrfOutput, answers[n - 1].commitment.value)]
  }

  function PresentAnswers(answers: seq<ProofResult>, n: nat): (present: seq<ProofResult>)
    requires n <= |answers|
    decreases n
  {
    if n == 0 then []
    else if answers[n - 1].commitment.None? then PresentAnswers(answers, n - 1)
    else PresentAnswers(answers, n - 1) + [answers[n - 1]]
  }

  function Lookup(m: Contents, key: Index): (c: Option<Commitment>) {
    if key in m then Some(m[key]) else None
  }

  lemma {:induction false} PresentAnswered(m: Contents, leaves: seq<Leaf>, answers: seq<ProofResult>, n: nat)
    requires AllAnswered(m, leaves, answers) && n <= |leaves|
    ensures AllAnswered(m, PresentLeaves(leaves, answers, n), PresentAnswers(answers, n))
    decreases n
  {
    if n > 0 {
      PresentAnswered(m, leaves, answers, n - 1);
      if answers[n - 1].commitment.Some? {
        var leaf := Leaf(leaves[n - 1].vrfOutput, answers[n - 1].commitment.value);
        JoinAnswered(m, PresentLeaves(leaves, answers, n - 1), [leaf], PresentAnswers(answers, n - 1),
                     [answers[n - 1]]);
      }
    }
  }

  /** The keys declared removed are exactly the added keys that the map had, with what it had. */
  lemma {:induction false} PresentIsLookup(m: Contents, leaves: seq<Leaf>, answers: seq<ProofResult>, n: nat)
    requires n <= |leaves| == |answers|
    requires forall i :: 0 <= i < |leaves| ==> answers[i].commitment == Lookup(m, leaves[i].vrfOutput)
    ensures var removed := PresentLeaves(leaves, answers, n);
            && (forall leaf :: leaf in removed ==> Lookup(m, leaf.vrfOutput) == Some(leaf.commitment))
            && Keys(removed) == (set i | 0 <= i < n && leaves[i].vrfOutput in m :: leaves[i].vrfOutput)
    decreases n
  {
    if n > 0 {
      PresentIsLookup(m, leaves, answers, n - 1);
      var removed := PresentLeaves(leaves, answers, n - 1);
      if answers[n - 1].commitment.Some? {
        var leaf := Leaf(leaves[n - 1].vrfOutput, answers[n - 1].commitment.value);
        KeysOfAll(removed, [leaf]);
        assert leaf in [leaf];
        assert Keys([leaf]) == {leaf.vrfOutput};
      }
    }
  }

  lemma AnswersAreLookups(m: Contents, leaves: seq<Leaf>, answers: seq<ProofResult>)
    requires AllAnswered(m, leaves, answers)
    ensures forall i :: 0 <= i < |leaves| ==> answers[i].commitment == Lookup(m, leaves[i].vrfOutput)
  {
    forall i | 0 <= i < |leaves| ensures answers[i].commitment == Lookup(m, leaves[i].vrfOutput) {
      assert Answers(m, leaves[i].vrfOutput, answers[i]);
    }
  }

  /** Searches repeated for the keys that were there make an honest batch. */
  lemma PresentMakesHonestBatch(m: Contents, leaves: seq<Leaf>, answers: seq<ProofResult>, results: seq<SearchResult>)
    requires AllAnswered(m, leaves, answers)
    requires var all := answers + PresentAnswers(answers, |answers|);
             |results| == |all| && forall j :: 0 <= j < |all| ==> results[j] == all[j].result
    ensures var all := answers + PresentAnswers(answers, |answers|);
            HonestBatch(m, leaves, PresentLeaves(leaves, answers, |leaves|), all,
                        PrefixProof(results, Elements(all, |all|)))
  {
    var removed := PresentLeaves(leaves, answers, |leaves|);
    PresentAnswered(m, leaves, answers, |leaves|);
    JoinAnswered(m, leaves, removed, answers, PresentAnswers(answers, |answers|));
    AnswersAreLookups(m, leaves, answers);
    PresentIsLookup(m, leaves, answers, |leaves|);
  }

  /**
   * The audit part of `apply_batch`: search results of the added keys in order, then once more
   * those of the keys that were there, which are declared removed.
   */
  method BuildAuditProof(leaves: seq<Leaf>, answers: seq<ProofResult>)
    returns (added: seq<Leaf>, removed: seq<Leaf>, proof: PrefixProof)
    requires |leaves| == |answers|
    ensures added == leaves && removed == PresentLeaves(leaves, answers, |leaves|)
    ensures var all := answers + PresentAnswers(answers, |answers|);
            && |proof.results| == |all| && (forall j :: 0 <= j < |all| ==> proof.results[j] == all[j].result)
            && proof.elements == Elements(all, |all|)
  {
    added, removed := [], [];
    var results: seq<SearchResult> := [];
    var elements: seq<Digest> := [];
    var removedResults: seq<ProofResult> := [];
    for i := 0 to |leaves|
      invariant added == leaves[..i]
      invariant removed == PresentLeaves(leaves, answers, i)
      invariant removedResults == PresentAnswers(answers, i)
      invariant |results| == i && forall j :: 0 <= j < i ==> results[j] == answers[j].result
      invariant elements == Elements(answers, i)
    {
      if answers[i].commitment.Some? {
        removed := removed + [Leaf(leaves[i].vrfOutput, answers[i].commitment.value)];
        removedResults := removedResults + [answers[i]];
      }
      results := results + [answers[i].result];
      elements := elements + answers[i].elements;
      added := added + [leaves[i]];
    }
    ghost var all := answers + removedResults;
    ElementsSame(answers, removedResults, |answers|);
    for i := 0 to |removedResults|
      invariant |results| == |answers| + i && forall j :: 0 <= j < |answers| + i ==> results[j] == all[j].result
      invariant elements == Elements(all, |answers| + i)
    {
      assert all[|answers| + i] == removedResults[i];
      results := results + [removedResults[i].result];
      elements := elements + removedResults[i].elements;
    }
    proof := PrefixProof(results, elements);
  }

  /** Whatever map the answers are about: what the server builds, the auditor accepts. */
  lemma BuiltProofAccepted(m: Contents, leaves: seq<Leaf>, answers: seq<ProofResult>, proof: PrefixProof)
    requires AllAnswered(m, leaves, answers) && |leaves| > 0
    requires var all := answers + PresentAnswers(answers, |answers|);
             && |proof.results| == |all| && (forall j :: 0 <= j < |all| ==> proof.results[j] == all[j].result)
             && proof.elements == Elements(all, |all|)
    ensures NextRoot(Root(m), leaves, PresentLeaves(leaves, answers, |leaves|), proof) ==
            Ok(Root(AddAll(m, leaves, |leaves|)))
  {
    var removed, all := PresentLeaves(leaves, answers, |leaves|), answers + PresentAnswers(answers, |answers|);
    PresentMakesHonestBatch(m, leaves, answers, proof.results);
    HonestBatchAccepted(m, leaves, removed, all, proof);
    AnswersAreLookups(m, leaves, answers);
    PresentIsLookup(m, leaves, answers, |leaves|);
    AcceptedTransitionAdds(m, leaves, removed, proof);
  }

  lemma {:induction false} ElementsSame(answers: seq<ProofResult>, more: seq<ProofResult>, n: nat)
    requires n <= |answers|
    ensures Elements(answers + more, n) == Elements(answers, n)
    decreases n
  {
    if n > 0 { ElementsSame(answers, more, n - 1); }
  }

  lemma JoinAnswered(m: Contents, added: seq<Leaf>, removed: seq<Leaf>, a: seq<ProofResult>, b: seq<ProofResult>)
    requires AllAnswered(m, added, a) && AllAnswered(m, removed, b)
    ensures AllAnswered(m, added + removed, a + b)
  {
    forall j | 0 <= j < |added + removed|
      ensures Answers(m, (added + removed)[j].vrfOutput, (a + b)[j])
    {
      if j < |added| {
        assert Answers(m, added[j].vrfOutput, a[j]);
      } else {
        assert Answers(m, removed[j - |added|].vrfOutput, b[j - |added|]);
      }
    }
  }
}
