/** What the updates that an auditor accepts declare (src/client/auditor.rs, process_and_sign). */
module AuditorDeclared {
  import opened Digests
  import opened SparseTree
  import opened PrefixProofs
  import opened PartialTree
  import opened Transition
  import opened TransitionExact
  import opened TransitionDeclared
  import opened LogTree
  import opened Auditor

  ghost predicate DistinctKeys(leaves: seq<Leaf>) {
    forall i, j :: 0 <= i < j < |leaves| ==> leaves[i].vrfOutput != leaves[j].vrfOutput
  }

  lemma {:induction false} NotBelowItself(a: Index, i: nat)
    requires i <= INDEX_BITS
    ensures !Below(a, a, i)
    decreases INDEX_BITS - i
  {
    if i < INDEX_BITS { NotBelowItself(a, i + 1); }
  }

  lemma {:induction false} AscendingBelow(leaves: seq<Leaf>, i: nat, j: nat)
    requires Ascending(leaves) && i < j < |leaves|
    ensures Below(leaves[i].vrfOutput, leaves[j].vrfOutput, 0)
    decreases j
  {
    assert InOrder(leaves, j - 1);
    if i < j - 1 {
      AscendingBelow(leaves, i, j - 1);
      BelowTransitive(leaves[i].vrfOutput, leaves[j - 1].vrfOutput, leaves[j].vrfOutput, 0);
    }
  }

  lemma {:induction false} AscendingIsDistinct(leaves: seq<Leaf>)
    requires Ascending(leaves)
    ensures DistinctKeys(leaves)
  {
    forall i, j | 0 <= i < j < |leaves|
      ensures leaves[i].vrfOutput != leaves[j].vrfOutput
    {
      AscendingBelow(leaves, i, j);
      NotBelowItself(leaves[i].vrfOutput, 0);
    }
  }

  /** A removed key is given the commitment that it is declared with. */
  lemma {:induction false} GivenByRemoval(added: seq<Leaf>, removed: seq<Leaf>, results: seq<SearchResult>, n: nat,
                                          j: nat)
    requires |added| + j < n <= |results| == |added| + |removed| && DistinctKeys(removed)
    requires forall i :: |added| <= i < |results| ==> results[i].resultType == INCLUSION
    ensures GivenTo(added, removed, results, n, removed[j].vrfOutput) == Some(removed[j].commitment)
    decreases n
  {
    if |added| + j < n - 1 { GivenByRemoval(added, removed, results, n - 1, j); }
  }

  /** A key that is not removed is given a commitment only by an outcome that names its leaf. */
  lemma {:induction false} GivenByName(added: seq<Leaf>, removed: seq<Leaf>, results: seq<SearchResult>, n: nat,
                                       key: Index)
    requires n <= |results| == |added| + |removed| && key !in Keys(removed)
    ensures GivenTo(added, removed, results, n, key).Some? <==> exists i :: 0 <= i < n && Names(results[i], key)
    decreases n
  {
    if n > 0 {
      GivenByName(added, removed, results, n - 1, key);
      assert n > |added| ==> (added + removed)[n - 1] == removed[n - 1 - |added|];
    }
  }

  /** Some outcome of the proof names the leaf of this key. */
  ghost predicate Named(results: seq<SearchResult>, key: Index) {
    exists i :: 0 <= i < |results| && Names(results[i], key)
  }

  /** What is removed was in the map with its commitment; what is added and not removed was not, unless it is named. */
  ghost predicate DeclaresTruly(m: Contents, u: AuditorUpdate)
    requires u.proof.Some?
  {
    && DistinctKeys(u.added) && DistinctKeys(u.removed)
    && (forall leaf :: leaf in u.removed ==> leaf.vrfOutput in m && m[leaf.vrfOutput] == leaf.commitment)
    && (forall leaf :: leaf in u.added && leaf.vrfOutput !in Keys(u.removed) ==>
          (leaf.vrfOutput in m <==> Named(u.proof.value.results, leaf.vrfOutput)))
  }

  /** Whatever the operator sends: an update that is accepted from the root of a map declares so. */
  lemma {:induction false} AcceptedDeclaresTruly(m: Contents, last: nat, u: AuditorUpdate)
    requires CheckedUpdate(Root(m), last, u).Ok?
    ensures last <= u.timestamp && u.proof.Some? && DeclaresTruly(m, u)
  {
    var results := u.proof.value.results;
    AscendingIsDistinct(u.added);
    AscendingIsDistinct(u.removed);
    forall leaf | leaf in u.removed
      ensures leaf.vrfOutput in m && m[leaf.vrfOutput] == leaf.commitment
    {
      var j :| 0 <= j < |u.removed| && u.removed[j] == leaf;
      GivenByRemoval(u.added, u.removed, results, |results|, j);
      AcceptedGivesTruth(m, u.added, u.removed, u.proof.value, leaf.vrfOutput);
    }
    forall leaf | leaf in u.added && leaf.vrfOutput !in Keys(u.removed)
      ensures leaf.vrfOutput in m <==> Named(results, leaf.vrfOutput)
    {
      GivenByName(u.added, u.removed, results, |results|, leaf.vrfOutput);
      AcceptedGivesTruth(m, u.added, u.removed, u.proof.value, leaf.vrfOutput);
    }
  }

  /** Every added key that is not declared removed is new. */
  ghost predicate AddsNewKeys(m: Contents, u: AuditorUpdate) {
    forall leaf :: leaf in u.added && leaf.vrfOutput !in Keys(u.removed) ==> leaf.vrfOutput !in m
  }

  /** No outcome names the leaf of an added key that is not declared removed. */
  ghost predicate NamesNoAdded(u: AuditorUpdate)
    requires u.proof.Some?
  {
    forall leaf :: leaf in u.added && leaf.vrfOutput !in Keys(u.removed) ==>
      !Named(u.proof.value.results, leaf.vrfOutput)
  }

  /** So the added keys of an accepted update are new exactly if no outcome names one. */
  lemma {:induction false} AddedKeysAreNew(m: Contents, last: nat, u: AuditorUpdate)
    requires CheckedUpdate(Root(m), last, u).Ok?
    ensures u.proof.Some? && (AddsNewKeys(m, u) <==> NamesNoAdded(u))
  {
    AcceptedDeclaresTruly(m, last, u);
  }

  lemma {:induction false} StepDeclares(s: AuditState, m: Contents, u: AuditorUpdate)
    requires s.prefixRoot == Root(m) && AuditStep(s, u).Ok?
    ensures u.proof.Some? && DeclaresTruly(m, u)
  {
    AcceptedDeclaresTruly(m, s.lastTimestamp, u);
  }

  /** The first n updates add back every key that they remove. */
  ghost predicate AddsBack(updates: seq<AuditorUpdate>, n: nat)
    requires n <= |updates|
  {
    forall i :: 0 <= i < n ==> Keys(updates[i].removed) <= Keys(updates[i].added)
  }

  lemma {:induction false} RootBefore(s: AuditState, m: Contents, leaves: Leaves, updates: seq<AuditorUpdate>, n: nat,
                                      at: AuditState, before: Contents)
    requires Follows(s, m, leaves) && n <= |updates| && AuditRun(s, updates, n) == (at, true)
    requires AddsBack(updates, n) && before == MapAfter(m, updates, n)
    ensures at.prefixRoot == Root(before)
  {
    AcceptedRunFollows(s, m, leaves, updates, n);
  }

  /** Over a run from a followed state: one more update that is accepted declares truly of the map before it. */
  lemma {:induction false} AcceptedRunDeclares(s: AuditState, m: Contents, leaves: Leaves, updates: seq<AuditorUpdate>,
                                               n: nat, at: AuditState, before: Contents, u: AuditorUpdate)
    requires Follows(s, m, leaves) && n < |updates| && AuditRun(s, updates, n) == (at, true) && AddsBack(updates, n)
    requires before == MapAfter(m, updates, n) && u == updates[n] && AuditStep(at, u).Ok?
    ensures u.proof.Some? && DeclaresTruly(before, u)
  {
    RootBefore(s, m, leaves, updates, n, at, before);
    StepDeclares(at, before, u);
  }

  // ---- an overwriting that is not declared ----

  /** Two added keys: the first one's outcome claims an empty node, the second one's names the first one's leaf. */
  function Overwriting(a: Leaf, was: Commitment, b: Leaf, timestamp: nat): (u: AuditorUpdate) {
    var emptyNode := SearchResult(NON_INCLUSION_EMPTY, None, 0);
    var otherLeaf := SearchResult(NON_INCLUSION_LEAF, Some(Leaf(a.vrfOutput, was)), 0);
    AuditorUpdate(timestamp, [a, b], [], Some(PrefixProof([emptyNode, otherLeaf], [])))
  }

  /** A partial tree of one leaf is the tree of the map that has it alone. */
  lemma {:induction false} LoneLeafTracks(nodes: Nodes, m: Contents, key: Index, c: Commitment, k: nat)
    requires nodes == map[key := PrefixLeaf(key, c)] && m == map[key := c] && k <= INDEX_BITS
    ensures Resolve(nodes, key[..k]) == NodeHash(m, key[..k])
    decreases INDEX_BITS - k
  {
    var p := key[..k];
    if k == INDEX_BITS {
      assert p == key;
      LeafValue(m, key);
    } else {
      LoneLeafTracks(nodes, m, key, c, k + 1);
      assert key[..k + 1] == p + [key[k]];
      assert Above(p, key) && key in nodes && |key| > |p|;
      LoneSibling(nodes, m, key, c, p, k);
      ResolveInner(nodes, p);
    }
  }

  lemma {:induction false} LoneSibling(nodes: Nodes, m: Contents, key: Index, c: Commitment, p: Path, k: nat)
    requires nodes == map[key := PrefixLeaf(key, c)] && m == map[key := c] && k < INDEX_BITS && p == key[..k]
    ensures Resolve(nodes, p + [!key[k]]) == Zero && !Occupied(m, p + [!key[k]])
  {
    assert (p + [!key[k]])[k] != key[k];
    assert !Above(p + [!key[k]], key);
  }

  /** What the two outcomes assemble. */
  lemma {:induction false} OverwritingAssembled(a: Leaf, was: Commitment, b: Leaf, timestamp: nat, u: AuditorUpdate)
    requires u == Overwriting(a, was, b, timestamp) && a.vrfOutput != b.vrfOutput
    ensures Assemble(u.added, u.removed, u.proof.value, 2) ==
            Ok(Assembly(map[a.vrfOutput := PrefixLeaf(a.vrfOutput, was)], [], 0))
  {
    assert (u.added + u.removed)[0] == a && (u.added + u.removed)[1] == b;
    assert Assemble(u.added, u.removed, u.proof.value, 1) == Ok(Assembly(map[], [], 0));
  }

  lemma {:induction false} OverwritingStep(m: Contents, a: Leaf, was: Commitment, b: Leaf, timestamp: nat,
                                           u: AuditorUpdate)
    requires m == map[a.vrfOutput := was] && a.vrfOutput != b.vrfOutput && u == Overwriting(a, was, b, timestamp)
    ensures NextRoot(Root(m), u.added, u.removed, u.proof.value) == Ok(Root(AddAll(m, u.added, 2)))
  {
    OverwritingAssembled(a, was, b, timestamp, u);
    LoneLeafTracks(map[a.vrfOutput := PrefixLeaf(a.vrfOutput, was)], m, a.vrfOutput, was, 0);
    assert a.vrfOutput[..0] == [];
    AcceptedTransitionAdds(m, u.added, u.removed, u.proof.value);
  }

  /**
   * An auditor accepts that the only key of a map gets another commitment although the update does not declare it
   * removed: its own outcome may claim an empty node, which nothing checks.
   */
  lemma {:induction false} OverwrittenUndeclared(m: Contents, a: Leaf, was: Commitment, b: Leaf, last: nat,
                                                 timestamp: nat)
    requires m == map[a.vrfOutput := was] && Below(a.vrfOutput, b.vrfOutput, 0) && last <= timestamp
    ensures var u := Overwriting(a, was, b, timestamp);
            CheckedUpdate(Root(m), last, u) == Ok(Root(AddAll(m, u.added, 2))) && !AddsNewKeys(m, u)
  {
    var u := Overwriting(a, was, b, timestamp);
    NotBelowItself(a.vrfOutput, 0);
    OverwritingStep(m, a, was, b, timestamp, u);
    assert InOrder(u.added, 0);
    assert u.added[0] in u.added;
  }
}
