/**
 * The simple structure that the prefix tree implements: a full-height sparse Merkle tree over a
 * map from indices to commitments. An empty subtree hashes to Zero, a leaf sits at the bottom
 * and every other non-empty node hashes its two children.
 */
module SparseTree {
  import opened Digests

  type Contents = map<Index, Commitment>

  function With(m: Contents, key: Index, c: Commitment): (m': Contents)
    ensures m' == m[key := c]
  {
    m[key := c]
  }

  /** The node at `p` is the one at `q` or one of its ancestors. */
  predicate Above(p: Path, q: Path) {
    p <= q
  }

  /** Some key of `m` lies in the subtree at `p`. */
  predicate Occupied(m: Contents, p: Path) {
    exists key :: key in m && Above(p, key)
  }

  /** The value of the node at `p`. */
  function NodeHash(m: Contents, p: Path): (h: Digest)
    requires |p| <= INDEX_BITS
    decreases INDEX_BITS - |p|, m
  {
    if !Occupied(m, p) then Zero
    else if |p| == INDEX_BITS then PrefixLeaf(p, LeafAt(m, p))
    else PrefixNode(NodeHash(m, p + [false]), NodeHash(m, p + [true]))
  }

  function LeafAt(m: Contents, p: Path): (c: Commitment)
    requires Occupied(m, p) && |p| == INDEX_BITS
    ensures p in m && c == m[p]
  {
    var key :| key in m && Above(p, key);
    assert key == p;
    m[p]
  }

  function Root(m: Contents): (h: Digest) {
    NodeHash(m, [])
  }

  /** The other child of the node that `key` passes through at `level`. */
  function SiblingPath(key: Index, level: nat): (p: Path)
    requires level < INDEX_BITS
    ensures |p| == level + 1
    ensures !Above(p, key)
  {
    var p := key[..level] + [!key[level]];
    assert p[level] != key[level];
    p
  }

  /** The hash of a node from the child on the path of a key and the other child. */
  function Combine(bit: bool, sibling: Digest, onPath: Digest): (h: Digest) {
    if bit then PrefixNode(sibling, onPath) else PrefixNode(onPath, sibling)
  }

  /** `m` and `m'` hold the same leaves below `p`. */
  ghost predicate AgreeBelow(m: Contents, m': Contents, p: Path) {
    forall key: Index | Above(p, key) :: SameAt(m, m', key)
  }

  predicate SameAt(m: Contents, m': Contents, key: Index) {
    (key in m <==> key in m') && (key in m ==> m[key] == m'[key])
  }

  lemma AboveTransitive(p: Path, q: Path, key: Path)
    requires Above(p, q) && Above(q, key)
    ensures Above(p, key)
  {
    assert forall i :: 0 <= i < |p| ==> p[i] == q[i] == key[i];
  }

  lemma AboveChild(p: Path, bit: bool, key: Path)
    requires |p| < |key|
    ensures Above(p + [bit], key) <==> Above(p, key) && key[|p|] == bit
  {
    if Above(p + [bit], key) {
      assert Above(p, p + [bit]);
      AboveTransitive(p, p + [bit], key);
      assert (p + [bit])[|p|] == bit;
    }
  }

  /** A key below `p` is below exactly one child of `p`. */
  lemma AboveChildren(p: Path, key: Path)
    requires |p| < |key|
    ensures Above(p, key) <==> (Above(p + [false], key) || Above(p + [true], key))
    ensures !(Above(p + [false], key) && Above(p + [true], key))
  {
    AboveChild(p, false, key);
    AboveChild(p, true, key);
  }

  lemma OccupiedChildren(m: Contents, p: Path)
    requires |p| < INDEX_BITS
    ensures Occupied(m, p) <==> (Occupied(m, p + [false]) || Occupied(m, p + [true]))
  {
    forall key: Index { AboveChildren(p, key); }
  }

  lemma OccupiedAbove(m: Contents, p: Path, q: Path)
    requires Above(p, q) && Occupied(m, q)
    ensures Occupied(m, p)
  {
    var key :| key in m && Above(q, key);
    AboveTransitive(p, q, key);
  }

  lemma AgreeNarrow(m: Contents, m': Contents, p: Path, q: Path)
    requires AgreeBelow(m, m', p) && Above(p, q)
    ensures AgreeBelow(m, m', q)
  {
    forall key: Index | Above(q, key) ensures SameAt(m, m', key) { AboveTransitive(p, q, key); }
  }

  lemma AgreeJoin(m: Contents, m': Contents, p: Path)
    requires |p| < INDEX_BITS && AgreeBelow(m, m', p + [false]) && AgreeBelow(m, m', p + [true])
    ensures AgreeBelow(m, m', p)
  {
    forall key: Index | Above(p, key) ensures SameAt(m, m', key) { AboveChildren(p, key); }
  }

  lemma AgreeOccupied(m: Contents, m': Contents, p: Path)
    requires AgreeBelow(m, m', p)
    ensures Occupied(m, p) <==> Occupied(m', p)
  {
    assert forall key: Index | Above(p, key) :: key in m <==> SameAt(m, m', key) && key in m';
  }

  /** The value of a node is a function of the leaves below it. */
  lemma {:induction false} NodeHashLocal(m: Contents, m': Contents, p: Path)
    requires |p| <= INDEX_BITS && AgreeBelow(m, m', p)
    ensures NodeHash(m, p) == NodeHash(m', p)
    decreases INDEX_BITS - |p|
  {
    AgreeOccupied(m, m', p);
    if |p| < INDEX_BITS {
      AgreeNarrow(m, m', p, p + [false]);
      AgreeNarrow(m, m', p, p + [true]);
      NodeHashLocal(m, m', p + [false]);
      NodeHashLocal(m, m', p + [true]);
    } else {
      assert SameAt(m, m', p);
    }
  }

  lemma NodeHashLeaf(m: Contents, key: Index)
    requires key in m
    ensures NodeHash(m, key) == PrefixLeaf(key, m[key])
  {
    assert Above(key, key);
  }

  /** A node on the path of a key hashes the next node on the path with its sibling. */
  lemma NodeHashStep(m: Contents, key: Index, level: nat)
    requires level < INDEX_BITS && Occupied(m, key[..level])
    ensures NodeHash(m, key[..level]) ==
            Combine(key[level], NodeHash(m, SiblingPath(key, level)), NodeHash(m, key[..level + 1]))
  {
    assert key[..level] + [key[level]] == key[..level + 1];
  }

  /** Equal node values mean equal leaves below. */
  lemma {:induction false} NodeHashBinding(m: Contents, m': Contents, p: Path)
    requires |p| <= INDEX_BITS && NodeHash(m, p) == NodeHash(m', p)
    ensures AgreeBelow(m, m', p)
    decreases INDEX_BITS - |p|
  {
    if !Occupied(m, p) {
      assert !Occupied(m', p);
    } else if |p| == INDEX_BITS {
      assert forall key: Index | Above(p, key) :: key == p;
    } else {
      NodeHashBinding(m, m', p + [false]);
      NodeHashBinding(m, m', p + [true]);
      AgreeJoin(m, m', p);
    }
  }

  /** The root commits to the whole map: no two maps share one. */
  lemma RootBinding(m: Contents, m': Contents)
    requires Root(m) == Root(m')
    ensures m == m'
  {
    NodeHashBinding(m, m', []);
    forall key: Index ensures SameAt(m, m', key) { assert Above([], key); }
    assert forall key: Index | key in m :: SameAt(m, m', key);
    assert forall key: Index | key in m' :: SameAt(m, m', key);
  }
}
