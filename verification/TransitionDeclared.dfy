/**
 * What an accepted batch proof says of the keys it declares (src/client/verifier.rs, verify_and_transition; section
 * 15.2 of draft-ietf-keytrans-protocol-05).
 */
module TransitionDeclared {
  import opened Digests
  import opened SparseTree
  import opened PrefixProofs
  import opened PartialTree
  import opened Transition
  import opened TransitionExact

  /** A non-inclusion outcome that ends at another leaf names that leaf. */
  predicate Names(result: SearchResult, key: Index) {
    result.resultType == NON_INCLUSION_LEAF && result.leaf.Some? && result.leaf.value.vrfOutput == key
  }

  /** What a key is given by one outcome, after what it was given before. */
  function GivenNext(item: Leaf, result: SearchResult, isRemoved: bool, key: Index, before: Option<Commitment>)
    : (c: Option<Commitment>)
  {
    if isRemoved && result.resultType == INCLUSION && item.vrfOutput == key then Some(item.commitment)
    else if Names(result, key) then Some(result.leaf.value.commitment)
    else before
  }

  /** The commitment that the first n outcomes give a key: the last that declares it removed or names its leaf. */
  function GivenTo(added: seq<Leaf>, removed: seq<Leaf>, results: seq<SearchResult>, n: nat, key: Index)
    : (c: Option<Commitment>)
    requires n <= |results| == |added| + |removed|
    decreases n, results
  {
    if n == 0 then None
    else
      GivenNext((added + removed)[n - 1], results[n - 1], n - 1 >= |added|, key,
                GivenTo(added, removed, results, n - 1, key))
  }

  /** The leaf that is recorded at a key. */
  ghost predicate RecordedAs(nodes: Nodes, key: Index, c: Option<Commitment>) {
    if c.Some? then key in nodes && nodes[key] == PrefixLeaf(key, c.value) else key !in nodes
  }

  /** Siblings that span a declared key are not recorded, so they leave its leaf alone. */
  lemma {:induction false} SiblingsKeepLeaf(a: Assembly, key: Index, elements: seq<Digest>, batch: set<Index>, n: nat,
                                            other: Index, c: Option<Commitment>)
    requires n <= |elements| <= INDEX_BITS && other in batch && RecordedAs(a.nodes, other, c)
    requires AddSiblings(a, key, elements, batch, n).Ok?
    ensures RecordedAs(AddSiblings(a, key, elements, batch, n).value.nodes, other, c)
    decreases n
  {
    if n > 0 {
      SiblingsKeepLeaf(a, key, elements, batch, n - 1, other, c);
      var p := SiblingPath(key, n - 1);
      if p == other {
        assert Above(p, other) && other != key;
        assert CoversBatchKey(batch, key, p);
      }
    }
  }

  /** The leaf recorded at a declared key is the one it was given last. */
  lemma {:induction false} AssembledLeaf(added: seq<Leaf>, removed: seq<Leaf>, proof: PrefixProof, n: nat, key: Index)
    requires n <= |proof.results| == |added| + |removed| && key in Keys(added) + Keys(removed)
    requires Assemble(added, removed, proof, n).Ok?
    ensures RecordedAs(Assemble(added, removed, proof, n).value.nodes, key,
                       GivenTo(added, removed, proof.results, n, key))
    decreases n
  {
    if n > 0 {
      AssembledLeaf(added, removed, proof, n - 1, key);
      var a := Assemble(added, removed, proof, n - 1).value;
      var item, result := (added + removed)[n - 1], proof.results[n - 1];
      AbsorbedLeaf(a, item, result, n - 1 >= |added|, Keys(removed), Keys(added) + Keys(removed), proof.elements, key,
                   GivenTo(added, removed, proof.results, n - 1, key));
    }
  }

  lemma {:induction false} TerminalLeaf(nodes: Nodes, item: Leaf, result: SearchResult, isRemoved: bool,
                                        removedKeys: set<Index>, key: Index, before: Option<Commitment>)
    requires RecordedAs(nodes, key, before) && AddTerminal(nodes, item, result, isRemoved, removedKeys).Ok?
    ensures RecordedAs(AddTerminal(nodes, item, result, isRemoved, removedKeys).value, key,
                       GivenNext(item, result, isRemoved, key, before))
  {}

  lemma {:induction false} AbsorbedLeaf(a: Assembly, item: Leaf, result: SearchResult, isRemoved: bool,
                                        removedKeys: set<Index>, batch: set<Index>, elements: seq<Digest>, key: Index,
                                        c: Option<Commitment>)
    requires key in batch && RecordedAs(a.nodes, key, c)
    requires Absorb(a, item, result, isRemoved, removedKeys, batch, elements).Ok?
    ensures RecordedAs(Absorb(a, item, result, isRemoved, removedKeys, batch, elements).value.nodes, key,
                       GivenNext(item, result, isRemoved, key, c))
  {
    var end := a.offset + result.depth;
    var nodes := AddTerminal(a.nodes, item, result, isRemoved, removedKeys).value;
    TerminalLeaf(a.nodes, item, result, isRemoved, removedKeys, key, c);
    SiblingsKeepLeaf(Assembly(nodes, a.covering, end), item.vrfOutput, elements[a.offset..end], batch, result.depth,
                     key, GivenNext(item, result, isRemoved, key, c));
  }

  /** A partial tree that tracks the map at the root tracks it at every declared key. */
  lemma {:induction false} TracksKey(nodes: Nodes, m: Contents, key: Index, k: nat, batch: set<Index>)
    requires Tracks(nodes, m, []) && key in batch && k <= INDEX_BITS
    requires forall q :: q in nodes && |q| < INDEX_BITS ==> SpansNone(q, batch)
    ensures Tracks(nodes, m, key[..k])
    decreases k
  {
    if k > 0 {
      TracksKey(nodes, m, key, k - 1, batch);
      assert Above(key[..k - 1], key);
      TracksChild(nodes, m, key[..k - 1], key[k - 1]);
      assert key[..k] == key[..k - 1] + [key[k - 1]];
    } else {
      assert key[..0] == [];
    }
  }

  /**
   * Whatever the proof: in a transition accepted against the root of a map, the map has a declared key with the
   * commitment that the outcomes give it last, and lacks it if they give it none.
   */
  lemma {:induction false} AcceptedGivesTruth(m: Contents, added: seq<Leaf>, removed: seq<Leaf>, proof: PrefixProof,
                                              key: Index)
    requires NextRoot(Root(m), added, removed, proof).Ok? && key in Keys(added) + Keys(removed)
    ensures GivenTo(added, removed, proof.results, |proof.results|, key) == if key in m then Some(m[key]) else None
  {
    var a := Assemble(added, removed, proof, |proof.results|).value;
    AssembleWellPlaced(added, removed, proof, |proof.results|);
    AssembledLeaf(added, removed, proof, |proof.results|, key);
    TracksKey(a.nodes, m, key, INDEX_BITS, Keys(added) + Keys(removed));
    assert key[..INDEX_BITS] == key;
    LeafValue(m, key);
  }
}
