/** Prefix search proofs as they travel, and what an honest one says about a map. */
module PrefixProofs {
  import opened Digests
  import opened SparseTree

  datatype Leaf = Leaf(vrfOutput: Index, commitment: Commitment)

  /** One outcome: 1 is inclusion, 2 non-inclusion ending at another leaf, 3 at an empty node. */
  datatype SearchResult = SearchResult(resultType: nat, leaf: Option<Leaf>, depth: nat)

  /** The outcomes of a batch of searches with the siblings of all of them, one after the other. */
  datatype PrefixProof = PrefixProof(results: seq<SearchResult>, elements: seq<Digest>)

  const INCLUSION: nat := 1
  const NON_INCLUSION_LEAF: nat := 2
  const NON_INCLUSION_EMPTY: nat := 3

  /** A single search with the commitment it found. */
  datatype ProofResult =
    ProofResult(elements: seq<Digest>, commitment: Option<Commitment>, result: SearchResult)

  /** `depth` is the level of the first empty node on the path of `key`. */
  ghost predicate FirstEmpty(m: Contents, key: Index, depth: nat) {
    && depth <= INDEX_BITS
    && !Occupied(m, key[..depth])
    && (depth > 0 ==> Occupied(m, key[..depth - 1]))
  }

  /** `elements` are the values of the siblings along the path of `key`, from the root down. */
  ghost predicate SiblingValues(m: Contents, key: Index, elements: seq<Digest>) {
    && |elements| <= INDEX_BITS
    && forall k :: 0 <= k < |elements| ==> elements[k] == NodeHash(m, SiblingPath(key, k))
  }

  /** No sibling of the path of `key` at `level` or below holds a key. */
  ghost predicate BareBelow(m: Contents, key: Index, level: nat) {
    forall k :: level <= k < INDEX_BITS ==> !Occupied(m, SiblingPath(key, k))
  }

  /** The honest outcome of searching `m` for `key`. */
  ghost predicate Answers(m: Contents, key: Index, r: ProofResult) {
    && r.result.depth == |r.elements|
    && SiblingValues(m, key, r.elements)
    && if key in m then
         && r.commitment == Some(m[key])
         && r.result == SearchResult(INCLUSION, None, |r.elements|)
         && BareBelow(m, key, |r.elements|)
       else
         && r.commitment == None
         && FirstEmpty(m, key, |r.elements|)
         && match r.result.leaf
            case None => r.result.resultType == NON_INCLUSION_EMPTY
            case Some(leaf) =>
              && r.result.resultType == NON_INCLUSION_LEAF
              && leaf.vrfOutput in m && m[leaf.vrfOutput] == leaf.commitment
              && r.result.depth > 0 && Above(key[..r.result.depth - 1], leaf.vrfOutput)
  }

  lemma PresentIsOccupied(m: Contents, key: Index, level: nat)
    requires key in m && level <= INDEX_BITS
    ensures Occupied(m, key[..level])
  {
    assert Above(key[..level], key);
  }
}
