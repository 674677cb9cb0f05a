/**
 * The sparse view of the prefix tree that a batch proof assembles (src/client/verifier.rs,
 * PartialPrefixTree). A node's key, a level and a path masked below it, is the path itself.
 */
module PartialTree {
  import opened Digests
  import opened SparseTree

  type Nodes = map<Path, Digest>

  /** Some recorded node lies strictly below `p`. */
  predicate HasDescendant(nodes: Nodes, p: Path) {
    exists q :: q in nodes && |q| > |p| && Above(p, q)
  }

  /** `resolve`: recorded nodes stand for themselves, the rest is hashed from below. */
  function Resolve(nodes: Nodes, p: Path): (h: Digest)
    requires |p| <= INDEX_BITS
    decreases INDEX_BITS - |p|, nodes
  {
    if p in nodes then nodes[p]
    else if |p| == INDEX_BITS || !HasDescendant(nodes, p) then Zero
    else PrefixNode(Resolve(nodes, p + [false]), Resolve(nodes, p + [true]))
  }

  class PartialPrefixTree {
    var nodes: Nodes

    constructor ()
      ensures nodes == map[]
    {
      nodes := map[];
    }

    /** Two proofs in a batch must agree wherever their paths meet. */
    method Insert(path: Path, value: Digest) returns (agrees: bool)
      modifies this
      ensures agrees <==> (path in old(nodes) ==> old(nodes)[path] == value)
      ensures nodes == if agrees then old(nodes)[path := value] else old(nodes)
    {
      if path in nodes && nodes[path] != value {
        return false;
      }
      nodes := nodes[path := value];
      return true;
    }

    method RemoveLeaf(key: Index)
      modifies this
      ensures nodes == old(nodes) - {key}
    {
      nodes := nodes - {key};
    }

    method SetLeaf(key: Index, value: Digest)
      modifies this
      ensures nodes == old(nodes)[key := value]
    {
      nodes := nodes[key := value];
    }
  }
}
