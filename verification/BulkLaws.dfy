/** When a merged tree is the tree of the whole map. */
module BulkLaws {
  import opened Digests
  import opened SparseTree
  import opened PrefixEntry
  import opened LogMath
  import opened BulkPartitions
  import opened BulkMerge

  // ---- the hash tree ----

  lemma ChildBits(j: nat, m: nat)
    ensures Bits(2 * j, m + 1) == Bits(j, m) + [false] && Bits(2 * j + 1, m + 1) == Bits(j, m) + [true]
  {
  }

  /** One of the two partitions of pair i holds a key. */
  predicate PairOccupied(i: nat, k: nat, m: Contents)
    requires k > 0
  {
    Occupied(m, Bits(i, k - 1))
  }

  ghost predicate AllPairs(k: nat, m: Contents) {
    k > 0 ==> forall i :: 0 <= i < Pow2(k - 1) ==> PairOccupied(i, k, m)
  }

  lemma {:induction false} AboveOccupied(k: nat, l: nat, j: nat, m: Contents)
    requires l < k < INDEX_BITS && j < Pow2(l) && AllPairs(k, m)
    ensures Occupied(m, Bits(j, l))
    decreases k - l
  {
    if l == k - 1 {
      assert PairOccupied(j, k, m);
    } else {
      AboveOccupied(k, l + 1, 2 * j, m);
      ChildBits(j, l);
      OccupiedAbove(m, Bits(j, l), Bits(2 * j, l + 1));
    }
  }

  /** With a key in every pair of partitions, the hash tree has the values of the map's nodes. */
  lemma {:induction false} TreeIsNodeHash(hashes: seq<Digest>, k: nat, l: nat, j: nat, m: Contents)
    requires PartHashes(hashes, k, m) && l <= k && j < Pow2(l) && AllPairs(k, m)
    ensures TreeHash(hashes, k, l, j) == NodeHash(m, Bits(j, l))
    decreases k - l
  {
    if l < k {
      AboveOccupied(k, l, j, m);
      ChildBits(j, l);
      TreeIsNodeHash(hashes, k, l + 1, 2 * j, m);
      TreeIsNodeHash(hashes, k, l + 1, 2 * j + 1, m);
    }
  }

  lemma ChildOnPath(i: nat, k: nat, l: nat, j: nat, c: nat)
    requires l + 1 < k && j < Pow2(l) && j == Shift(i, k - 1 - l) && c == Shift(i, k - 2 - l)
    ensures c / 2 == j && c < Pow2(l + 1)
  {
    ShiftSplit(i, k - 2 - l);
  }

  lemma HashForcesChild(hashes: seq<Digest>, k: nat, l: nat, j: nat, m: Contents, c: nat)
    requires l < k <= INDEX_BITS && |hashes| == Pow2(k) && j < Pow2(l) && c / 2 == j && c < Pow2(l + 1)
    requires TreeHash(hashes, k, l, j) == NodeHash(m, Bits(j, l))
    ensures TreeHash(hashes, k, l + 1, c) == NodeHash(m, Bits(c, l + 1))
  {
    ChildBits(j, l);
  }

  lemma NodeIsPair(hashes: seq<Digest>, k: nat, l: nat, j: nat, m: Contents)
    requires l + 1 == k <= INDEX_BITS && |hashes| == Pow2(k) && j < Pow2(l)
    requires TreeHash(hashes, k, l, j) == NodeHash(m, Bits(j, l))
    ensures PairOccupied(j, k, m)
  {}

  /** And only then: an empty pair hashes to what no empty subtree does. */
  lemma {:induction false} HashForcesPair(hashes: seq<Digest>, k: nat, l: nat, j: nat, m: Contents, i: nat)
    requires PartHashes(hashes, k, m) && l < k && j < Pow2(l) && i < Pow2(k - 1) && Shift(i, k - 1 - l) == j
    requires TreeHash(hashes, k, l, j) == NodeHash(m, Bits(j, l))
    ensures PairOccupied(i, k, m)
    decreases k - l
  {
    if l < k - 1 {
      var c := Shift(i, k - 2 - l);
      ChildOnPath(i, k, l, j, c);
      HashForcesChild(hashes, k, l, j, m, c);
      HashForcesPair(hashes, k, l + 1, c, m, i);
    } else {
      NodeIsPair(hashes, k, l, j, m);
    }
  }

  // ---- entries after the merge ----

  /** From level k on, an entry stands for what it did. */
  lemma {:induction false} PatchedStands(store: Store, store': Store, ptr: int, level: nat, m: Contents,
                                         hashes: seq<Digest>, roots: Roots, k: nat)
    requires k <= level <= INDEX_BITS && Pow2(k) == |hashes| == |roots| && Patched(store, store', hashes, roots, k)
            && EveryLeaf(store)
    requires Represents(store, ptr, level, m)
    ensures Represents(store', ptr, level, m) && store'[ptr].index == store[ptr].index
            && store'[ptr].leaf == store[ptr].leaf
    decreases INDEX_BITS - level, 0
  {
    var e, e' := store[ptr], store'[ptr];
    forall l | level <= l < Height(e')
      ensures PointsAt(store', e', l, m)
    {
      assert PointsAt(store, e, l, m);
      PatchedPoints(store, store', Sibling(e, l), SiblingPath(e.index, l), m, hashes, roots, k);
    }
  }

  lemma {:induction false} PatchedPoints(store: Store, store': Store, node: ParentNode, p: Path, m: Contents,
                                         hashes: seq<Digest>, roots: Roots, k: nat)
    requires k <= |p| <= INDEX_BITS && Pow2(k) == |hashes| == |roots| && Patched(store, store', hashes, roots, k)
            && EveryLeaf(store)
    requires Points(store, node, p, m)
    ensures Points(store', node, p, m)
    decreases INDEX_BITS - |p|, 1
  {
    if node.ptr.Some? {
      assert StandsFor(store, node.ptr.value, p, m);
      PatchedStands(store, store', node.ptr.value, |p|, m, hashes, roots, k);
    }
  }

  /** A merge: the parts, their values, and the entries with their recorded siblings. */
  ghost predicate Merged(store: Store, store': Store, hashes: seq<Digest>, roots: Roots, k: nat, m: Contents) {
    Built(store, roots, k, m) && PartHashes(hashes, k, m) && Patched(store, store', hashes, roots, k)
  }

  /** An entry below the node of partition p starts with its bits. */
  lemma {:induction false} EntryOfPartition(index: Index, p: nat, k: nat)
    requires p < Pow2(k) && k <= INDEX_BITS && Above(Bits(p, k), index)
    ensures index[..k] == Bits(p, k) && Number(index[..k]) == p
  {
    BitsUnique(Number(index[..k]), p, k);
  }

  /** A partition's root entry after the merge. */
  lemma {:induction false} RootAfterMerge(store: Store, store': Store, hashes: seq<Digest>, roots: Roots, k: nat,
                                          m: Contents, p: nat)
    requires Merged(store, store', hashes, roots, k, m) && p < Pow2(k)
    ensures roots[p].None? <==> !Occupied(m, Bits(p, k))
    ensures roots[p].Some? ==>
            StandsFor(store', roots[p].value, Bits(p, k), m) && PartEntry(store', roots[p].value, p, k, hashes, roots)
  {
    assert PartBuilt(store, roots[p], Bits(p, k), m);
    if roots[p].Some? {
      PatchedStands(store, store', roots[p].value, k, m, hashes, roots, k);
      EntryOfPartition(store[roots[p].value].index, p, k);
    }
  }

  /** An entry of partition p with the siblings that the merge recorded. */
  ghost predicate PartEntry(store': Store, q: int, p: nat, k: nat, hashes: seq<Digest>, roots: Roots)
    requires p < Pow2(k) == |hashes| == |roots|
  {
    && k <= INDEX_BITS && q in store' && store'[q].leaf.Some? && store'[q].index[..k] == Bits(p, k)
    && forall d :: 0 <= d < k ==> Sibling(store'[q], d) == MergeNode(hashes, roots, k, p, d)
  }

  /** An entry that stands for a node and points to its sibling stands for their parent. */
  lemma StandsAbove(store': Store, q: int, p: nat, k: nat, d: nat, hashes: seq<Digest>, roots: Roots, m: Contents,
                    c: nat)
    requires d < k < INDEX_BITS && p < Pow2(k) == |hashes| == |roots| && PartEntry(store', q, p, k, hashes, roots)
    requires c == Shift(p, k - 1 - d) && StandsFor(store', q, Bits(c, d + 1), m)
    requires Points(store', MergeNode(hashes, roots, k, p, d), Bits(Sib(c), d + 1), m)
    ensures StandsFor(store', q, Bits(c / 2, d), m)
  {
    var e := store'[q];
    SiblingBits(e.index, p, k, d);
    forall l | d <= l < Height(e)
      ensures PointsAt(store', e, l, m)
    {
    }
    assert Above(Bits(c / 2, d), e.index);
  }

  // ---- enough partitions ----

  /**
   * Every odd partition but the last has an entry, and so has one of the last two. With a single
   * partition, that one has.
   */
  predicate Enough(roots: Roots, k: nat)
    requires |roots| == Pow2(k)
  {
    if k == 0 then roots[0].Some?
    else
      && (forall p :: 0 <= p < Pow2(k) - 1 && p % 2 == 1 ==> roots[p].Some?)
      && (roots[Pow2(k) - 1].Some? || roots[Pow2(k) - 2].Some?)
  }

  /** What the merge leaves of one partition. */
  ghost predicate PartFact(store': Store, hashes: seq<Digest>, roots: Roots, k: nat, m: Contents, p: nat)
    requires p < Pow2(k) == |hashes| == |roots|
  {
    && k < INDEX_BITS && hashes[p] == NodeHash(m, Bits(p, k))
    && (roots[p].None? <==> !Occupied(m, Bits(p, k)))
    && (roots[p].Some? ==>
         StandsFor(store', roots[p].value, Bits(p, k), m) && PartEntry(store', roots[p].value, p, k, hashes, roots))
  }

  lemma PartAfterMerge(store: Store, store': Store, hashes: seq<Digest>, roots: Roots, k: nat, m: Contents, p: nat)
    requires Merged(store, store', hashes, roots, k, m) && p < Pow2(k)
    ensures PartFact(store', hashes, roots, k, m, p)
  {
    RootAfterMerge(store, store', hashes, roots, k, m, p);
  }

  /** Each partition with an entry holds a key. */
  ghost predicate EntriesOccupied(roots: Roots, k: nat, m: Contents) {
    |roots| == Pow2(k) && forall p :: 0 <= p < |roots| && roots[p].Some? ==> Occupied(m, Bits(p, k))
  }

  lemma EnoughPairs(roots: Roots, k: nat, m: Contents)
    requires EntriesOccupied(roots, k, m) && Enough(roots, k)
    ensures AllPairs(k, m)
  {
    if k > 0 {
      forall i | 0 <= i < Pow2(k - 1)
        ensures PairOccupied(i, k, m)
      {
        var p := if 2 * i + 1 == Pow2(k) - 1 && roots[2 * i + 1].None? then 2 * i else 2 * i + 1;
        BitsLast(p, k);
        OccupiedAbove(m, Bits(i, k - 1), Bits(p, k));
      }
    }
  }

  /** The partition whose last entry stands for a node: the last one below it that can. */
  function Rep(roots: Roots, k: nat, l: nat, j: nat): (p: nat)
    requires l <= k && j < Pow2(l) && |roots| == Pow2(k)
    ensures p < Pow2(k)
  {
    RightmostBound(k - l, j, l);
    var r := Rightmost(k - l, j);
    if r == Pow2(k) - 1 && l < k && roots[r].None? then r - 1 else r
  }

  /** The last entry of partition p stands for the node with number j at level l. */
  ghost predicate PartStands(store': Store, hashes: seq<Digest>, roots: Roots, k: nat, m: Contents, l: nat, j: nat,
                             p: nat)
    requires l <= k && p < Pow2(k) == |roots| == |hashes|
  {
    && roots[p].Some? && PartEntry(store', roots[p].value, p, k, hashes, roots)
    && Shift(p, k - l) == j && StandsFor(store', roots[p].value, Bits(j, l), m)
  }

  /** Two partitions next to each other. */
  lemma StandsForPair(store': Store, hashes: seq<Digest>, roots: Roots, k: nat, m: Contents, p: nat, s: nat)
    requires 0 < k < INDEX_BITS && p < Pow2(k) == |roots| == |hashes| && s < Pow2(k) && s == Sib(p) && roots[p].Some?
    requires PartFact(store', hashes, roots, k, m, p) && PartFact(store', hashes, roots, k, m, s)
    ensures PartStands(store', hashes, roots, k, m, k - 1, p / 2, p)
  {
    assert Points(store', MergeNode(hashes, roots, k, p, k - 1), Bits(s, k), m);
    StandsAbove(store', roots[p].value, p, k, k - 1, hashes, roots, m, p);
  }

  /** A node further up: the entry that stands for its right child points to the one of its left child. */
  lemma StandsForNode(store': Store, hashes: seq<Digest>, roots: Roots, k: nat, m: Contents, l: nat, j: nat, left: nat,
                      p: nat)
    requires l + 1 < k < INDEX_BITS && |roots| == Pow2(k) == |hashes| && p < Pow2(k) && left < Pow2(k)
            && 2 * j < Pow2(l + 1)
    requires left == Rightmost(k - 1 - l, 2 * j) && TreeHash(hashes, k, l + 1, 2 * j) == NodeHash(m, Bits(2 * j, l + 1))
    requires PartStands(store', hashes, roots, k, m, l + 1, 2 * j, left)
            && PartStands(store', hashes, roots, k, m, l + 1, 2 * j + 1, p)
    ensures PartStands(store', hashes, roots, k, m, l, j, p)
  {
    assert Points(store', MergeNode(hashes, roots, k, p, l), Bits(2 * j, l + 1), m);
    StandsAbove(store', roots[p].value, p, k, l, hashes, roots, m, 2 * j + 1);
    ShiftSplit(p, k - l - 1);
  }

  /** The representatives of a node and of its children. */
  lemma RepChildren(roots: Roots, k: nat, l: nat, j: nat)
    requires l + 1 < k && j < Pow2(l) && |roots| == Pow2(k)
    ensures Rep(roots, k, l + 1, 2 * j) == Rightmost(k - 1 - l, 2 * j)
    ensures Rep(roots, k, l, j) == Rep(roots, k, l + 1, 2 * j + 1)
  {
    RightmostBound(k - l - 1, 2 * j, l + 1);
  }

  lemma RepOfPair(roots: Roots, k: nat, j: nat)
    requires k > 0 && j < Pow2(k - 1) && |roots| == Pow2(k) && Enough(roots, k)
    ensures var p := Rep(roots, k, k - 1, j); p / 2 == j && roots[p].Some?
  {
    RightmostBound(1, j, k - 1);
    assert Rightmost(1, j) == 2 * j + 1;
  }

  ghost predicate Has(nodes: iset<(nat, nat)>, l: nat, j: nat) {
    (l, j) in nodes
  }

  ghost predicate StepUp(nodes: iset<(nat, nat)>, l: nat, j: nat) {
    Has(nodes, l + 1, 2 * j) && Has(nodes, l + 1, 2 * j + 1) ==> Has(nodes, l, j)
  }

  lemma {:induction false} UpFromPairs(nodes: iset<(nat, nat)>, k: nat, l: nat, j: nat)
    requires l < k && j < Pow2(l)
    requires forall h: nat, i: nat :: h + 1 == k && i < Pow2(h) ==> Has(nodes, h, i)
    requires forall h: nat, i: nat :: h + 1 < k && i < Pow2(h) ==> StepUp(nodes, h, i)
    ensures Has(nodes, l, j)
    decreases k - l
  {
    if l < k - 1 {
      UpFromPairs(nodes, k, l + 1, 2 * j);
      UpFromPairs(nodes, k, l + 1, 2 * j + 1);
      assert StepUp(nodes, l, j);
    }
  }

  /** The nodes that their representatives stand for. */
  ghost function Standing(store': Store, hashes: seq<Digest>, roots: Roots, k: nat, m: Contents)
    : (nodes: iset<(nat, nat)>)
    requires Pow2(k) == |roots| == |hashes|
  {
    iset l: nat, j: nat
      | l <= k && j < Pow2(l) && PartStands(store', hashes, roots, k, m, l, j, Rep(roots, k, l, j))
      :: (l, j)
  }

  lemma PairStanding(store: Store, store': Store, hashes: seq<Digest>, roots: Roots, k: nat, m: Contents, j: nat)
    requires Merged(store, store', hashes, roots, k, m) && Enough(roots, k) && k > 0 && j < Pow2(k - 1)
    ensures Has(Standing(store', hashes, roots, k, m), k - 1, j)
  {
    RepOfPair(roots, k, j);
    var p := Rep(roots, k, k - 1, j);
    PartAfterMerge(store, store', hashes, roots, k, m, p);
    PartAfterMerge(store, store', hashes, roots, k, m, Sib(p));
    StandsForPair(store', hashes, roots, k, m, p, Sib(p));
  }

  lemma NodeStanding(store': Store, hashes: seq<Digest>, roots: Roots, k: nat, m: Contents, l: nat, j: nat)
    requires PartHashes(hashes, k, m) && AllPairs(k, m) && |roots| == Pow2(k) && l + 1 < k && j < Pow2(l)
    ensures StepUp(Standing(store', hashes, roots, k, m), l, j)
  {
    RepChildren(roots, k, l, j);
    TreeIsNodeHash(hashes, k, l + 1, 2 * j, m);
    RepStands(store', hashes, roots, k, m, l, j, Rep(roots, k, l + 1, 2 * j), Rep(roots, k, l, j));
  }

  lemma RepStands(store': Store, hashes: seq<Digest>, roots: Roots, k: nat, m: Contents, l: nat, j: nat, left: nat,
                  p: nat)
    requires l + 1 < k < INDEX_BITS && |roots| == Pow2(k) == |hashes| && j < Pow2(l)
    requires left == Rep(roots, k, l + 1, 2 * j) == Rightmost(k - 1 - l, 2 * j)
    requires p == Rep(roots, k, l, j) == Rep(roots, k, l + 1, 2 * j + 1)
    requires TreeHash(hashes, k, l + 1, 2 * j) == NodeHash(m, Bits(2 * j, l + 1))
    ensures StepUp(Standing(store', hashes, roots, k, m), l, j)
  {
    var nodes := Standing(store', hashes, roots, k, m);
    if Has(nodes, l + 1, 2 * j) && Has(nodes, l + 1, 2 * j + 1) {
      StandsForNode(store', hashes, roots, k, m, l, j, left, p);
    }
  }

  /** The last entry of the last partition that has one. */
  function GlobalRoot(roots: Roots, n: nat): (root: Option<int>)
    requires n <= |roots|
    decreases n, roots
  {
    if n == 0 then None else if roots[n - 1].Some? then roots[n - 1] else GlobalRoot(roots, n - 1)
  }

  lemma GlobalIsRep(roots: Roots, k: nat)
    requires |roots| == Pow2(k) && Enough(roots, k)
    ensures GlobalRoot(roots, Pow2(k)) == roots[Rep(roots, k, 0, 0)]
  {
    RightmostBound(k, 0, 0);
  }

  /** With enough partitions, the merged tree is the tree of the whole map, with its root value. */
  lemma EnoughMerges(store: Store, store': Store, hashes: seq<Digest>, roots: Roots, k: nat, m: Contents)
    requires Merged(store, store', hashes, roots, k, m) && Enough(roots, k)
    ensures TreeHash(hashes, k, 0, 0) == Root(m)
    ensures GlobalRoot(roots, Pow2(k)).Some? && StandsFor(store', GlobalRoot(roots, Pow2(k)).value, [], m)
  {
    forall p | 0 <= p < |roots| && roots[p].Some?
      ensures Occupied(m, Bits(p, k))
    {
      PartAfterMerge(store, store', hashes, roots, k, m, p);
    }
    EnoughPairs(roots, k, m);
    TreeIsNodeHash(hashes, k, 0, 0, m);
    GlobalIsRep(roots, k);
    if k == 0 {
      PartAfterMerge(store, store', hashes, roots, k, m, 0);
    } else {
      EnoughStands(store, store', hashes, roots, k, m);
    }
  }

  lemma PairsStanding(store: Store, store': Store, hashes: seq<Digest>, roots: Roots, k: nat, m: Contents)
    requires Merged(store, store', hashes, roots, k, m) && Enough(roots, k) && k > 0
    ensures forall h: nat, i: nat :: h + 1 == k && i < Pow2(h) ==> Has(Standing(store', hashes, roots, k, m), h, i)
  {
    forall h: nat, i: nat | h + 1 == k && i < Pow2(h)
      ensures Has(Standing(store', hashes, roots, k, m), h, i)
    {
      PairStanding(store, store', hashes, roots, k, m, i);
    }
  }

  lemma NodesStanding(store': Store, hashes: seq<Digest>, roots: Roots, k: nat, m: Contents)
    requires PartHashes(hashes, k, m) && AllPairs(k, m) && |roots| == Pow2(k)
    ensures forall h: nat, i: nat :: h + 1 < k && i < Pow2(h) ==> StepUp(Standing(store', hashes, roots, k, m), h, i)
  {
    forall h: nat, i: nat | h + 1 < k && i < Pow2(h)
      ensures StepUp(Standing(store', hashes, roots, k, m), h, i)
    {
      NodeStanding(store', hashes, roots, k, m, h, i);
    }
  }

  lemma EnoughStands(store: Store, store': Store, hashes: seq<Digest>, roots: Roots, k: nat, m: Contents)
    requires Merged(store, store', hashes, roots, k, m) && Enough(roots, k) && AllPairs(k, m) && k > 0
    ensures PartStands(store', hashes, roots, k, m, 0, 0, Rep(roots, k, 0, 0))
  {
    PairsStanding(store, store', hashes, roots, k, m);
    NodesStanding(store', hashes, roots, k, m);
    RootStands(store', hashes, roots, k, m, 0, 0);
  }

  lemma RootStands(store': Store, hashes: seq<Digest>, roots: Roots, k: nat, m: Contents, l: nat, j: nat)
    requires Pow2(k) == |roots| == |hashes| && l < k && j < Pow2(l)
    requires forall h: nat, i: nat :: h + 1 == k && i < Pow2(h) ==> Has(Standing(store', hashes, roots, k, m), h, i)
    requires forall h: nat, i: nat :: h + 1 < k && i < Pow2(h) ==> StepUp(Standing(store', hashes, roots, k, m), h, i)
    ensures PartStands(store', hashes, roots, k, m, l, j, Rep(roots, k, l, j))
  {
    UpFromPairs(Standing(store', hashes, roots, k, m), k, l, j);
  }

  // ---- and no fewer ----

  /** Where the chain of recorded pointers leads for a node: to the last partition below it, or the global root. */
  ghost predicate Reached(store': Store, roots: Roots, k: nat, m: Contents, l: nat, j: nat, p: nat)
    requires p < |roots|
  {
    roots[p].Some? && StandsFor(store', roots[p].value, Bits(j, l), m)
  }

  /** An entry that stands for a node points to the sibling further down, if that is occupied. */
  lemma SiblingReached(store': Store, q: int, path: Path, node: ParentNode, p: Path, m: Contents)
    requires |path| < INDEX_BITS && StandsFor(store', q, path, m) && store'[q].leaf.Some?
    requires node == Sibling(store'[q], |path|) && p == SiblingPath(store'[q].index, |path|) && Occupied(m, p)
    ensures node.ptr.Some? && StandsFor(store', node.ptr.value, p, m)
  {
    assert PointsAt(store', store'[q], |path|, m);
    PointsToOccupied(store', node, p, m);
  }

  /** The recorded sibling of a right child, which has an odd number. */
  lemma {:induction false} LeftMergeNode(hashes: seq<Digest>, roots: Roots, k: nat, p: nat, d: nat, left: nat)
    requires d < k && p < Pow2(k) == |hashes| == |roots| && Shift(p, k - 1 - d) == left + 1 && left % 2 == 0
    ensures Sib(left + 1) == left && Rightmost(k - 1 - d, left) < Pow2(k)
    ensures MergeNode(hashes, roots, k, p, d).ptr == roots[Rightmost(k - 1 - d, left)]
  {
    ShiftBelow(p, k, d);
  }

  /** The sibling that the merge records at the entry of a right child. */
  lemma {:induction false} LeftSibling(store': Store, q: int, hashes: seq<Digest>, roots: Roots, k: nat, l: nat,
                                       j: nat, p: nat)
    requires l + 1 < k < INDEX_BITS && p < Pow2(k) == |roots| == |hashes| && 2 * j < Pow2(l + 1)
    requires PartEntry(store', q, p, k, hashes, roots) && Shift(p, k - 1 - l) == 2 * j + 1
    ensures Rightmost(k - 1 - l, 2 * j) < Pow2(k)
    ensures Sibling(store'[q], l).ptr == roots[Rightmost(k - 1 - l, 2 * j)]
    ensures SiblingPath(store'[q].index, l) == Bits(2 * j, l + 1)
  {
    assert Sibling(store'[q], l) == MergeNode(hashes, roots, k, p, l);
    LeftMergeNode(hashes, roots, k, p, l, 2 * j);
    SiblingBits(store'[q].index, p, k, l);
  }

  /** A pointer to an occupied sibling subtree leads to its last partition. */
  lemma PointsToLeft(store': Store, hashes: seq<Digest>, roots: Roots, k: nat, m: Contents, l: nat, j: nat, p: nat)
    requires l + 1 < k < INDEX_BITS && p < Pow2(k) == |roots| == |hashes| && 2 * j < Pow2(l + 1)
    requires roots[p].Some? && PartEntry(store', roots[p].value, p, k, hashes, roots)
            && Shift(p, k - 1 - l) == 2 * j + 1
    requires StandsFor(store', roots[p].value, Bits(j, l), m) && Occupied(m, Bits(2 * j, l + 1))
    ensures Rightmost(k - 1 - l, 2 * j) < Pow2(k)
            && Reached(store', roots, k, m, l + 1, 2 * j, Rightmost(k - 1 - l, 2 * j))
  {
    var q := roots[p].value;
    LeftSibling(store', q, hashes, roots, k, l, j, p);
    SiblingReached(store', q, Bits(j, l), Sibling(store'[q], l), Bits(2 * j, l + 1), m);
  }

  lemma PointsToOccupied(store': Store, node: ParentNode, q: Path, m: Contents)
    requires Points(store', node, q, m) && Occupied(m, q)
    ensures node.ptr.Some? && StandsFor(store', node.ptr.value, q, m)
  {
  }

  /** The entry that stands for a node stands for the child on its own path. */
  lemma StandsForOwnChild(store': Store, hashes: seq<Digest>, roots: Roots, k: nat, m: Contents, l: nat, j: nat, p: nat,
                          c: nat)
    requires l < k < INDEX_BITS && p < Pow2(k) == |roots| == |hashes|
    requires roots[p].Some? && PartEntry(store', roots[p].value, p, k, hashes, roots) && Shift(p, k - 1 - l) == c
            && c / 2 == j
    requires StandsFor(store', roots[p].value, Bits(j, l), m)
    ensures Reached(store', roots, k, m, l + 1, c, p)
  {
    var q := roots[p].value;
    var e := store'[q];
    BitsAbove(p, k, l + 1);
    assert e.index[..l + 1] == e.index[..k][..l + 1];
    RepresentsDeeper(store', q, l, l + 1, m);
  }

  ghost predicate StepDown(nodes: iset<(nat, nat)>, l: nat, j: nat) {
    Has(nodes, l, j) ==> Has(nodes, l + 1, 2 * j) && Has(nodes, l + 1, 2 * j + 1)
  }

  /** What passes from node to children reaches every node from the root, node `top` of level `top`. */
  lemma {:induction false} DownFromRoot(nodes: iset<(nat, nat)>, k: nat, l: nat, j: nat, top: nat)
    requires l < k && j < Pow2(l) && top == 0 && Has(nodes, top, top)
    requires forall h: nat, i: nat :: h + 1 < k && i < Pow2(h) ==> StepDown(nodes, h, i)
    ensures Has(nodes, l, j)
    decreases l
  {
    if l > 0 {
      DownFromRoot(nodes, k, l - 1, j / 2, top);
      assert StepDown(nodes, l - 1, j / 2);
    }
  }

  /** A representative lies below its node. */
  lemma RepBelow(roots: Roots, k: nat, l: nat, j: nat)
    requires l < k && j < Pow2(l) && |roots| == Pow2(k)
    ensures Shift(Rep(roots, k, l, j), k - l) == j
  {
    RightmostBound(k - l, j, l);
    ShiftEven(Rightmost(k - l, j), k - l);
  }

  lemma ShiftEven(r: nat, b: nat)
    requires b > 0 && r % 2 == 1
    ensures Shift(r - 1, b) == Shift(r, b)
  {
    assert (r - 1) / 2 == r / 2;
  }

  lemma NodeStandsDown(store': Store, hashes: seq<Digest>, roots: Roots, k: nat, m: Contents, l: nat, j: nat, left: nat)
    requires l + 1 < k < INDEX_BITS && j < Pow2(l) && |roots| == Pow2(k) == |hashes| && Occupied(m, Bits(2 * j, l + 1))
    requires left == Rep(roots, k, l + 1, 2 * j) && PartFact(store', hashes, roots, k, m, left)
    ensures StepDown(Standing(store', hashes, roots, k, m), l, j)
  {
    if Has(Standing(store', hashes, roots, k, m), l, j) {
      RepChildren(roots, k, l, j);
      RepBelow(roots, k, l + 1, 2 * j);
      RepBelow(roots, k, l + 1, 2 * j + 1);
      ChildrenStand(store', hashes, roots, k, m, l, j, Rep(roots, k, l, j), left);
    }
  }

  lemma ChildrenStand(store': Store, hashes: seq<Digest>, roots: Roots, k: nat, m: Contents, l: nat, j: nat, p: nat,
                      left: nat)
    requires l + 1 < k < INDEX_BITS && |roots| == Pow2(k) == |hashes| && p < Pow2(k) && left < Pow2(k)
            && 2 * j < Pow2(l + 1)
    requires PartStands(store', hashes, roots, k, m, l, j, p) && PartFact(store', hashes, roots, k, m, left)
    requires Shift(p, k - 1 - l) == 2 * j + 1 && left == Rightmost(k - 1 - l, 2 * j) && Shift(left, k - 1 - l) == 2 * j
    requires Occupied(m, Bits(2 * j, l + 1))
    ensures PartStands(store', hashes, roots, k, m, l + 1, 2 * j + 1, p)
            && PartStands(store', hashes, roots, k, m, l + 1, 2 * j, left)
  {
    StandsForOwnChild(store', hashes, roots, k, m, l, j, p, 2 * j + 1);
    PointsToLeft(store', hashes, roots, k, m, l, j, p);
  }

  lemma NodesStandDown(store: Store, store': Store, hashes: seq<Digest>, roots: Roots, k: nat, m: Contents)
    requires Merged(store, store', hashes, roots, k, m) && AllPairs(k, m)
    ensures forall h: nat, i: nat :: h + 1 < k && i < Pow2(h) ==> StepDown(Standing(store', hashes, roots, k, m), h, i)
  {
    forall h: nat, i: nat | h + 1 < k && i < Pow2(h)
      ensures StepDown(Standing(store', hashes, roots, k, m), h, i)
    {
      AboveOccupied(k, h + 1, 2 * i, m);
      PartAfterMerge(store, store', hashes, roots, k, m, Rep(roots, k, h + 1, 2 * i));
      NodeStandsDown(store', hashes, roots, k, m, h, i, Rep(roots, k, h + 1, 2 * i));
    }
  }

  /** The right root value needs a key in every pair of partitions. */
  lemma RootValueForcesPairs(hashes: seq<Digest>, k: nat, m: Contents)
    requires PartHashes(hashes, k, m) && TreeHash(hashes, k, 0, 0) == Root(m)
    ensures AllPairs(k, m)
  {
    if k > 0 {
      forall i | 0 <= i < Pow2(k - 1)
        ensures PairOccupied(i, k, m)
      {
        ShiftSmall(i, k - 1, 0);
        HashForcesPair(hashes, k, 0, 0, m, i);
      }
    }
  }

  lemma RootValueIffPairs(hashes: seq<Digest>, k: nat, m: Contents)
    requires PartHashes(hashes, k, m)
    ensures TreeHash(hashes, k, 0, 0) == Root(m) <==> AllPairs(k, m)
  {
    if AllPairs(k, m) { TreeIsNodeHash(hashes, k, 0, 0, m); }
    if TreeHash(hashes, k, 0, 0) == Root(m) { RootValueForcesPairs(hashes, k, m); }
  }

  /** One of the last two partitions has an entry, if their pair holds a key. */
  lemma LastPair(store: Store, store': Store, hashes: seq<Digest>, roots: Roots, k: nat, m: Contents)
    requires Merged(store, store', hashes, roots, k, m) && AllPairs(k, m) && k > 0
    ensures roots[Pow2(k) - 1].Some? || roots[Pow2(k) - 2].Some?
  {
    LastNumbers(k);
    PairHasRoot(store, store', hashes, roots, k, m, Pow2(k - 1) - 1, Pow2(k) - 2, Pow2(k) - 1);
  }

  lemma LastNumbers(k: nat)
    requires k > 0
    ensures Pow2(k - 1) > 0 && Pow2(k) - 2 == 2 * (Pow2(k - 1) - 1) && Pow2(k) - 1 == 2 * (Pow2(k - 1) - 1) + 1
  {
  }

  lemma PairHasRoot(store: Store, store': Store, hashes: seq<Digest>, roots: Roots, k: nat, m: Contents, i: nat, p: nat,
                    s: nat)
    requires Merged(store, store', hashes, roots, k, m) && AllPairs(k, m) && k > 0
    requires i < Pow2(k - 1) && p == 2 * i && s == 2 * i + 1 < Pow2(k)
    ensures roots[p].Some? || roots[s].Some?
  {
    assert PairOccupied(i, k, m);
    ChildBits(i, k - 1);
    OccupiedChildren(m, Bits(i, k - 1));
    if Occupied(m, Bits(p, k)) {
      RootAfterMerge(store, store', hashes, roots, k, m, p);
    } else {
      RootAfterMerge(store, store', hashes, roots, k, m, s);
    }
  }

  /** If the nodes above the pairs are all stood for, every odd partition but the last has an entry. */
  lemma StandingForcesOdd(store': Store, hashes: seq<Digest>, roots: Roots, k: nat, m: Contents, p: nat)
    requires k > 0 && Pow2(k) == |roots| == |hashes| && p < Pow2(k) - 1 && p % 2 == 1
    requires Has(Standing(store', hashes, roots, k, m), k - 1, p / 2)
    ensures roots[p].Some?
  {
    assert Rightmost(1, p / 2) == p;
  }

  lemma GlobalOfLastPair(roots: Roots, k: nat)
    requires |roots| == Pow2(k) && k > 0 && (roots[Pow2(k) - 1].Some? || roots[Pow2(k) - 2].Some?)
    ensures GlobalRoot(roots, Pow2(k)) == roots[Rep(roots, k, 0, 0)]
  {
    RightmostBound(k, 0, 0);
  }

  /** If the merged tree is the tree of the whole map and has its root value, the partitions were enough. */
  lemma MergesOnlyEnough(store: Store, store': Store, hashes: seq<Digest>, roots: Roots, k: nat, m: Contents)
    requires Merged(store, store', hashes, roots, k, m) && TreeHash(hashes, k, 0, 0) == Root(m)
    requires GlobalRoot(roots, Pow2(k)).Some? && StandsFor(store', GlobalRoot(roots, Pow2(k)).value, [], m)
    ensures Enough(roots, k)
  {
    RootValueForcesPairs(hashes, k, m);
    if k > 0 {
      LastPair(store, store', hashes, roots, k, m);
      GlobalOfLastPair(roots, k);
      var top := Rep(roots, k, 0, 0);
      PartAfterMerge(store, store', hashes, roots, k, m, top);
      RepBelow(roots, k, 0, 0);
      assert Has(Standing(store', hashes, roots, k, m), 0, 0);
      NodesStandDown(store, store', hashes, roots, k, m);
      OddForced(store', hashes, roots, k, m);
    }
  }

  lemma OddForced(store': Store, hashes: seq<Digest>, roots: Roots, k: nat, m: Contents)
    requires k > 0 && Pow2(k) == |roots| == |hashes| && Has(Standing(store', hashes, roots, k, m), 0, 0)
    requires forall h: nat, i: nat :: h + 1 < k && i < Pow2(h) ==> StepDown(Standing(store', hashes, roots, k, m), h, i)
    ensures forall p :: 0 <= p < Pow2(k) - 1 && p % 2 == 1 ==> roots[p].Some?
  {
    forall p | 0 <= p < Pow2(k) - 1 && p % 2 == 1
      ensures roots[p].Some?
    {
      DownFromRoot(Standing(store', hashes, roots, k, m), k, k - 1, p / 2, 0);
      StandingForcesOdd(store', hashes, roots, k, m, p);
    }
  }

  /**
   * Merging gives the tree of the whole map, with its root value, exactly when every odd partition
   * but the last has an entry and so has one of the last two.
   */
  lemma MergesExactlyWhenEnough(store: Store, store': Store, hashes: seq<Digest>, roots: Roots, k: nat, m: Contents)
    requires Merged(store, store', hashes, roots, k, m)
    ensures Enough(roots, k) <==>
            TreeHash(hashes, k, 0, 0) == Root(m) && GlobalRoot(roots, Pow2(k)).Some?
            && StandsFor(store', GlobalRoot(roots, Pow2(k)).value, [], m)
  {
    if Enough(roots, k) {
      EnoughMerges(store, store', hashes, roots, k, m);
    } else if TreeHash(hashes, k, 0, 0) == Root(m) && GlobalRoot(roots, Pow2(k)).Some?
              && StandsFor(store', GlobalRoot(roots, Pow2(k)).value, [], m) {
      MergesOnlyEnough(store, store', hashes, roots, k, m);
    }
  }
}
