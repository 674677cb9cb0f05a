/** Merging subtrees built apart into one prefix tree (src/bulk.rs, parallel_bulk_populate). */
module BulkMerge {
  import opened Digests
  import opened SparseTree
  import opened PrefixEntry
  import opened LogMath
  import opened BulkPartitions

  /** The position of the last entry of each partition, where it has any. */
  type Roots = seq<Option<int>>

  /** The number of a path, as partitions are numbered. */
  function Number(p: Path): (j: nat)
    ensures j < Pow2(|p|) && Bits(j, |p|) == p
    decreases |p|
  {
    if p == [] then 0
    else
      var j := 2 * Number(p[..|p| - 1]) + if p[|p| - 1] then 1 else 0;
      assert p == p[..|p| - 1] + [p[|p| - 1]];
      j
  }

  // ---- what the parts are ----

  /** The root of a partition stands for what the map has there. */
  ghost predicate PartBuilt(store: Store, root: Option<int>, p: Path, m: Contents) {
    match root
    case None => !Occupied(m, p)
    case Some(q) => StandsFor(store, q, p, m)
  }

  /** Every stored entry has a leaf, as every insertion writes one. */
  ghost predicate EveryLeaf(store: Store) {
    forall q :: q in store ==> store[q].leaf.Some? && |store[q].copath| <= INDEX_BITS
  }

  ghost predicate Built(store: Store, roots: Roots, k: nat, m: Contents) {
    && k < INDEX_BITS && |roots| == Pow2(k) && EveryLeaf(store)
    && forall p :: 0 <= p < Pow2(k) ==> PartBuilt(store, roots[p], Bits(p, k), m)
  }

  ghost predicate PartHashes(hashes: seq<Digest>, k: nat, m: Contents) {
    && k < INDEX_BITS && |hashes| == Pow2(k)
    && forall p :: 0 <= p < Pow2(k) ==> hashes[p] == NodeHash(m, Bits(p, k))
  }

  /** The entry that the merge records for the sibling at depth d of partition p. */
  function MergeNode(hashes: seq<Digest>, roots: Roots, k: nat, p: nat, d: nat): (n: ParentNode)
    requires d < k && p < Pow2(k) == |hashes| == |roots|
  {
    ShiftBelow(p, k, d);
    ParentNode(TreeHash(hashes, k, d + 1, Sib(Shift(p, k - 1 - d))),
               roots[Rightmost(k - 1 - d, Sib(Shift(p, k - 1 - d)))])
  }

  lemma ShiftBelow(p: nat, k: nat, d: nat)
    requires d < k && p < Pow2(k)
    ensures Shift(p, k - 1 - d) < Pow2(d + 1) && Sib(Shift(p, k - 1 - d)) < Pow2(d + 1)
    ensures Rightmost(k - 1 - d, Sib(Shift(p, k - 1 - d))) < Pow2(k)
  {
    ShiftSmall(p, k - 1 - d, d + 1);
    RightmostBound(k - 1 - d, Sib(Shift(p, k - 1 - d)), d + 1);
  }

  lemma {:induction false} ShiftSmall(p: nat, b: nat, m: nat)
    requires p < Pow2(m + b)
    ensures Shift(p, b) < Pow2(m)
    decreases b
  {
    if b > 0 { ShiftSmall(p / 2, b - 1, m); }
  }

  /** An entry after the merge: its siblings in the first k levels are the recorded ones, the others stay. */
  ghost predicate PatchedEntry(e: LogEntry, e': LogEntry, p: nat, hashes: seq<Digest>, roots: Roots, k: nat)
    requires p < Pow2(k) == |hashes| == |roots|
  {
    && e'.index == e.index && e'.leaf == e.leaf && |e'.copath| <= INDEX_BITS
    && (forall l :: k <= l < INDEX_BITS ==> Sibling(e', l) == Sibling(e, l))
    && (forall d :: 0 <= d < k ==> Sibling(e', d) == MergeNode(hashes, roots, k, p, d))
  }

  ghost predicate Patched(store: Store, store': Store, hashes: seq<Digest>, roots: Roots, k: nat)
    requires k <= INDEX_BITS && Pow2(k) == |hashes| == |roots|
  {
    forall q :: q in store ==>
        q in store' && PatchedEntry(store[q], store'[q], Number(store[q].index[..k]), hashes, roots, k)
  }

  // ---- the code ----

  /** `merge_copath_for_partition`. */
  method MergeCopath(p: nat, k: nat, hashTree: seq<seq<Digest>>, roots: Roots, ghost hashes: seq<Digest>)
    returns (copath: seq<ParentNode>)
    requires p < Pow2(k) == |hashes| == |roots| && |hashTree| == k + 1
    requires forall m :: 0 <= m <= k ==> |hashTree[m]| == Pow2(m) && forall j :: 0 <= j < Pow2(m) ==>
            hashTree[m][j] == TreeHash(hashes, k, m, j)
    ensures |copath| == k && forall d :: 0 <= d < k ==> copath[d] == MergeNode(hashes, roots, k, p, d)
  {
    copath := [];
    for d := 0 to k
      invariant |copath| == d && forall i :: 0 <= i < d ==> copath[i] == MergeNode(hashes, roots, k, p, i)
    {
      ShiftBelow(p, k, d);
      SiblingIsRightmost(p, d, k);
      var nodeIdx := Shift(p, k - 1 - d);
      var siblingIdx := Sib(nodeIdx);
      var siblingPid := SiblingRootPid(p, d, k);
      copath := copath + [ParentNode(hashTree[d + 1][siblingIdx], roots[siblingPid])];
    }
  }

  /** The merged entry: the recorded siblings, then what it had from level k on. */
  method PatchEntry(e: LogEntry, prefix: seq<ParentNode>, k: nat, ghost p: nat, ghost hashes: seq<Digest>,
                    ghost roots: Roots)
    returns (e': LogEntry)
    requires k <= INDEX_BITS && |e.copath| <= INDEX_BITS && p < Pow2(k) == |hashes| == |roots|
    requires |prefix| == k && forall d :: 0 <= d < k ==> prefix[d] == MergeNode(hashes, roots, k, p, d)
    ensures PatchedEntry(e, e', p, hashes, roots, k)
  {
    var copath := prefix;
    if |e.copath| > k {
      copath := copath + e.copath[k..];
    }
    e' := e.(copath := copath);
  }

  /** Partition p has its entries at consecutive positions. */
  ghost predicate PartAt(store: Store, start: int, size: nat, p: nat, k: nat)
    requires k <= INDEX_BITS
  {
    forall q :: start <= q < start + size ==>
        q in store && Number(store[q].index[..k]) == p && |store[q].copath| <= INDEX_BITS
  }

  /** The entries merged so far. */
  ghost predicate PatchedFrom(store: Store, store': Store, from: int, to: int, hashes: seq<Digest>, roots: Roots,
                              k: nat)
    requires k <= INDEX_BITS && Pow2(k) == |hashes| == |roots|
  {
    forall q :: from <= q < to ==>
        q in store && q in store' && PatchedEntry(store[q], store'[q], Number(store[q].index[..k]), hashes, roots, k)
  }

  method MergePart(store: Store, merged: Store, start: int, size: nat, p: nat, k: nat, prefix: seq<ParentNode>,
                   ghost first: int, ghost hashes: seq<Digest>, ghost roots: Roots)
    returns (merged': Store)
    requires k <= INDEX_BITS && p < Pow2(k) == |hashes| == |roots| && PartAt(store, start, size, p, k) && first <= start
    requires |prefix| == k && forall d :: 0 <= d < k ==> prefix[d] == MergeNode(hashes, roots, k, p, d)
    requires PatchedFrom(store, merged, first, start, hashes, roots, k) && merged.Keys <= store.Keys
    ensures PatchedFrom(store, merged', first, start + size, hashes, roots, k) && merged'.Keys <= store.Keys
  {
    merged' := merged;
    for i := 0 to size
      invariant PatchedFrom(store, merged', first, start + i, hashes, roots, k) && merged'.Keys <= store.Keys
    {
      var e := PatchEntry(store[start + i], prefix, k, p, hashes, roots);
      merged' := merged'[start + i := e];
    }
  }

  /** Where each partition starts: every stored entry is in the range of its own partition. */
  ghost predicate Laid(store: Store, starts: seq<int>, k: nat) {
    && k <= INDEX_BITS && |starts| == Pow2(k) + 1
    && (forall p :: 0 <= p < Pow2(k) ==>
         starts[p] <= starts[p + 1] && PartAt(store, starts[p], starts[p + 1] - starts[p], p, k))
    && forall q :: q in store ==> starts[0] <= q < starts[Pow2(k)]
  }

  /** The merge phase over all partitions. */
  method MergeParts(store: Store, starts: seq<int>, k: nat, hashTree: seq<seq<Digest>>, roots: Roots,
                    ghost hashes: seq<Digest>)
    returns (merged: Store)
    requires Laid(store, starts, k) && Pow2(k) == |hashes| == |roots| && |hashTree| == k + 1
    requires forall m :: 0 <= m <= k ==> |hashTree[m]| == Pow2(m) && forall j :: 0 <= j < Pow2(m) ==>
            hashTree[m][j] == TreeHash(hashes, k, m, j)
    ensures Patched(store, merged, hashes, roots, k) && merged.Keys <= store.Keys
  {
    merged := map[];
    for p := 0 to Pow2(k)
      invariant PatchedFrom(store, merged, starts[0], starts[p], hashes, roots, k)
      invariant starts[0] <= starts[p] && merged.Keys <= store.Keys
    {
      var size := starts[p + 1] - starts[p];
      assert PartAt(store, starts[p], size, p, k);
      if size == 0 {
        continue;
      }
      var prefix := MergeCopath(p, k, hashTree, roots, hashes);
      merged := MergePart(store, merged, starts[p], size, p, k, prefix, starts[0], hashes, roots);
    }
  }

  /** The value of each partition: its root entry hashed up to level k. */
  method PartitionHashes(store: Store, roots: Roots, k: nat, ghost m: Contents) returns (hashes: seq<Digest>)
    requires Built(store, roots, k, m)
    ensures PartHashes(hashes, k, m)
  {
    hashes := [];
    for p := 0 to Pow2(k)
      invariant |hashes| == p && forall i :: 0 <= i < p ==> hashes[i] == NodeHash(m, Bits(i, k))
    {
      assert PartBuilt(store, roots[p], Bits(p, k), m);
      if roots[p].Some? {
        var cached := new CachedLogEntry(store[roots[p].value]);
        var h := cached.RollupCached(k);
        RollupIsNodeHash(store, roots[p].value, k, k, m);
        assert store[roots[p].value].index[..k] == Bits(p, k);
        hashes := hashes + [h];
      } else {
        hashes := hashes + [Zero];
      }
    }
  }
}
