/** Values shared by every component: optional and failing results, digests and index paths. */
module Digests {

  datatype Option<+T> = None | Some(value: T)

  /** A result of an operation that the program may reject with an error. */
  datatype Result<+T> = Ok(value: T) | Err {
    predicate IsFailure() {
      Err?
    }
    function PropagateFailure<U>(): Result<U>
      requires Err?
    {
      Err
    }
    function Extract(): T
      requires Ok?
    {
      value
    }
  }

  /** The opening-derived commitment stored in a prefix-tree leaf. */
  datatype Commitment = Commitment(id: nat)

  /** Depth of the prefix tree: 8 * INDEX_LENGTH in src/tree/prefix/hasher.rs. */
  const INDEX_BITS: nat := 256

  /** The bits of a node's position, from the root down; its length is the node's level. */
  type Path = seq<bool>

  /** A VRF output: the bits of a leaf's position. */
  type Index = p: Path | |p| == INDEX_BITS witness seq(INDEX_BITS, _ => false)

  /**
   * A 32-byte hash value. Every hash function of the program is a constructor, so that collision
   * freedom and the domain separation of its prefix bytes and input lengths are structural.
   * `Other` stands for the byte strings that are no output of any of them.
   */
  datatype Digest =
    | Zero
    | PrefixLeaf(index: Index, commitment: Commitment)
    | PrefixNode(left: Digest, right: Digest)
    | LogLeaf(timestamp: nat, prefixRoot: Digest)
    | LogNode(left: Digest, leftIsLeaf: bool, right: Digest, rightIsLeaf: bool)
    | Other(id: nat)
}
