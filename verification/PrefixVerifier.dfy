/** The client's check of one prefix search outcome (src/client/verifier.rs, PrefixVerifier). */
module PrefixVerifier {
  import opened Digests
  import opened SparseTree
  import opened PrefixProofs

  /** The root reached by hashing `bottom`, a node of the path of `key` at level `from`, upwards. */
  function FoldUp(key: Index, elements: seq<Digest>, from: nat, bottom: Digest): (root: Digest)
    requires from <= INDEX_BITS
    decreases from, key
  {
    if from == 0 then bottom
    else
      var sibling := if from - 1 < |elements| then elements[from - 1] else Zero;
      FoldUp(key, elements, from - 1, Combine(key[from - 1], sibling, bottom))
  }

  /** The node that a search outcome claims: the searched leaf, or the empty node that ends the path. */
  function Claim(result: SearchResult, key: Index, commitment: Option<Commitment>): (r: Result<(Digest, nat)>) {
    match result.resultType
    case 1 => if commitment.None? then Err else Ok((PrefixLeaf(key, commitment.value), INDEX_BITS))
    case 2 => if result.leaf.None? || result.leaf.value.vrfOutput == key then Err else Ok((Zero, result.depth))
    case 3 => Ok((Zero, result.depth))
    case _ => Err
  }

  /** What `compute_root_from_result` derives from the outcome at `idx`: a root and the elements used. */
  function DerivedRoot(proof: PrefixProof, idx: nat, key: Index, commitment: Option<Commitment>, offset: nat)
    : (r: Result<(Digest, nat)>)
  {
    if idx >= |proof.results| then Err
    else
      var result := proof.results[idx];
      if result.depth > INDEX_BITS then Err
      else
        var (bottom, from) :- Claim(result, key, commitment);
        if offset + result.depth > |proof.elements| then Err
        else
          Ok((FoldUp(key, proof.elements[offset..offset + result.depth], from, bottom), result.depth))
  }

  method ComputeRootFromResult(proof: PrefixProof, idx: nat, key: Index, commitment: Option<Commitment>, offset: nat)
    returns (r: Result<(Digest, nat)>)
    ensures r == DerivedRoot(proof, idx, key, commitment, offset)
  {
    if idx >= |proof.results| {
      return Err;
    }
    var result := proof.results[idx];
    var depth := result.depth;
    if depth > INDEX_BITS {
      return Err;
    }
    var claim := Claim(result, key, commitment);
    if claim.Err? {
      return Err;
    }
    var (bottom, startLevel) := claim.value;
    var end := offset + depth;
    if end > |proof.elements| {
      return Err;
    }
    var elements := proof.elements[offset..end];
    var curr := bottom;
    var level: nat := startLevel;
    while level > 0
      invariant level <= startLevel
      invariant FoldUp(key, elements, level, curr) == FoldUp(key, elements, startLevel, bottom)
    {
      level := level - 1;
      var sibling := if level < depth then elements[level] else Zero;
      curr := Combine(key[level], sibling, curr);
    }
    return Ok((curr, depth));
  }

  /** Hashing a path upwards with the true siblings gives the true root. */
  lemma {:induction false} FoldIsRoot(m: Contents, key: Index, elements: seq<Digest>, from: nat)
    requires from <= INDEX_BITS
    requires forall k :: 0 <= k < from ==>
      NodeHash(m, SiblingPath(key, k)) == if k < |elements| then elements[k] else Zero
    requires from > 0 ==> Occupied(m, key[..from - 1])
    ensures FoldUp(key, elements, from, NodeHash(m, key[..from])) == Root(m)
  {
    if from == 0 {
      assert key[..0] == [];
    } else {
      NodeHashStep(m, key, from - 1);
      if from > 1 {
        assert Above(key[..from - 2], key[..from - 1]);
        OccupiedAbove(m, key[..from - 2], key[..from - 1]);
      }
      FoldIsRoot(m, key, elements, from - 1);
    }
  }

  /** Whatever the siblings: reaching the root of a map means starting from that map's own node. */
  lemma {:induction false} FoldBinds(m: Contents, key: Index, elements: seq<Digest>, from: nat, bottom: Digest)
    requires from <= INDEX_BITS
    requires FoldUp(key, elements, from, bottom) == Root(m)
    ensures bottom == NodeHash(m, key[..from])
  {
    if from == 0 {
      assert key[..0] == [];
    } else {
      var sibling := if from - 1 < |elements| then elements[from - 1] else Zero;
      FoldBinds(m, key, elements, from - 1, Combine(key[from - 1], sibling, bottom));
      assert Occupied(m, key[..from - 1]);
      NodeHashStep(m, key, from - 1);
    }
  }

  lemma SiblingsOfAnswer(m: Contents, key: Index, elements: seq<Digest>, from: nat)
    requires SiblingValues(m, key, elements) && from <= INDEX_BITS
    requires from <= |elements| || BareBelow(m, key, |elements|)
    ensures forall k :: 0 <= k < from ==>
      NodeHash(m, SiblingPath(key, k)) == if k < |elements| then elements[k] else Zero
  {}

  lemma PresentFolds(m: Contents, key: Index, elements: seq<Digest>)
    requires key in m && SiblingValues(m, key, elements) && BareBelow(m, key, |elements|)
    ensures FoldUp(key, elements, INDEX_BITS, PrefixLeaf(key, m[key])) == Root(m)
  {
    SiblingsOfAnswer(m, key, elements, INDEX_BITS);
    PresentIsOccupied(m, key, INDEX_BITS - 1);
    FoldIsRoot(m, key, elements, INDEX_BITS);
    assert key[..INDEX_BITS] == key;
    NodeHashLeaf(m, key);
  }

  lemma AbsentFolds(m: Contents, key: Index, elements: seq<Digest>)
    requires SiblingValues(m, key, elements) && FirstEmpty(m, key, |elements|)
    ensures FoldUp(key, elements, |elements|, Zero) == Root(m)
  {
    SiblingsOfAnswer(m, key, elements, |elements|);
    FoldIsRoot(m, key, elements, |elements|);
    assert NodeHash(m, key[..|elements|]) == Zero;
  }

  /** Completeness: an honest answer about `m` folds to the root of `m`, using all its elements. */
  lemma HonestProofVerifies(m: Contents, key: Index, r: ProofResult, proof: PrefixProof, idx: nat, offset: nat)
    requires Answers(m, key, r)
    requires idx < |proof.results| && proof.results[idx] == r.result
    requires offset + |r.elements| <= |proof.elements|
    requires proof.elements[offset..offset + |r.elements|] == r.elements
    ensures DerivedRoot(proof, idx, key, r.commitment, offset) == Ok((Root(m), |r.elements|))
  {
    if key in m {
      PresentFolds(m, key, r.elements);
    } else {
      AbsentFolds(m, key, r.elements);
    }
  }

  /**
   * Soundness: whatever the proof holds, an accepted inclusion of `key` shows its commitment in
   * the map under the root, and an accepted non-inclusion shows that the map lacks it.
   */
  lemma AcceptedProofIsTrue(m: Contents, key: Index, commitment: Option<Commitment>, proof: PrefixProof, idx: nat,
                            offset: nat)
    requires var r := DerivedRoot(proof, idx, key, commitment, offset); r.Ok? && r.value.0 == Root(m)
    ensures if proof.results[idx].resultType == INCLUSION
            then key in m && commitment == Some(m[key])
            else key !in m
  {
    var result := proof.results[idx];
    var (bottom, from) := Claim(result, key, commitment).value;
    FoldBinds(m, key, proof.elements[offset..offset + result.depth], from, bottom);
    if result.resultType == INCLUSION {
      assert key[..INDEX_BITS] == key;
      assert Occupied(m, key);
    } else if key in m {
      PresentIsOccupied(m, key, from);
    }
  }
}
