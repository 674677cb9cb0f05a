/** What a merged tree without enough partitions loses (src/bulk.rs, src/tree/prefix/read.rs). */
module BulkOrphans {
  import opened Digests
  import opened SparseTree
  import opened PrefixEntry
  import opened LogMath
  import opened BulkPartitions
  import opened BulkMerge
  import opened BulkLaws
  import opened PrefixSearch
  import P = PrefixTree

  /** An even partition whose neighbour is empty: no pointer leads to its entries. */
  predicate Orphan(roots: Roots, k: nat, t: nat) {
    k > 0 && t % 2 == 0 && t + 1 < |roots| == Pow2(k) && roots[t + 1].None?
  }

  /** The partitions of a merged store, each with its entries' siblings. */
  ghost predicate PartEntries(store': Store, hashes: seq<Digest>, roots: Roots, k: nat) {
    && 0 < k < INDEX_BITS && Pow2(k) == |hashes| == |roots| && P.WellFormed(store')
    && forall p :: 0 <= p < |roots| && roots[p].Some? ==> PartEntry(store', roots[p].value, p, k, hashes, roots)
  }

  /** Where an entry sends a search on is its first difference from the target. */
  lemma {:induction false} OnwardFrom(e: LogEntry, target: Index, depth: nat) returns (d: nat)
    requires |e.copath| <= INDEX_BITS && depth <= INDEX_BITS && e.index[..depth] == target[..depth] && e.index != target
    ensures depth <= d < INDEX_BITS && e.index[..d] == target[..d] && e.index[d] != target[d]
    ensures Onward(e, target, depth) == if Sibling(e, d).ptr.Some? then Some((Sibling(e, d).ptr.value, d + 1)) else None
    decreases INDEX_BITS - depth
  {
    P.ProperlyShorter(target, e.index, depth);
    if e.index[depth] == target[depth] {
      d := OnwardFrom(e, target, depth + 1);
    } else {
      d := depth;
    }
  }

  /** From an entry of another partition a search for an orphan goes on to an entry of another one still. */
  lemma {:induction false} OnwardPastOrphan(hashes: seq<Digest>, roots: Roots, k: nat, c: nat, t: nat, index: Index,
                                            target: Index, d: nat)
    returns (r: nat)
    requires 0 < k < INDEX_BITS && Orphan(roots, k, t) && |hashes| == Pow2(k) && c < Pow2(k) && roots[c].Some?
    requires index[..k] == Bits(c, k) && target[..k] == Bits(t, k)
    requires d < k && index[..d] == target[..d] && index[d] != target[d]
    ensures r < Pow2(k) && r != t && Bits(r, k)[..d + 1] == target[..d + 1]
    ensures MergeNode(hashes, roots, k, c, d).ptr == roots[r]
  {
    var s := Sib(Shift(c, k - 1 - d));
    ShiftBelow(c, k, d);
    RightmostBound(k - 1 - d, s, d + 1);
    r := Rightmost(k - 1 - d, s);
    SiblingBits(index, c, k, d);
    BitsAbove(r, k, d + 1);
    P.SharedSibling(target, index, d);
    assert d == k - 1 ==> r == Sib(c);
  }

  /** A search for an orphan's index from an entry of another partition comes out with nothing. */
  lemma {:induction false} OrphanIsLost(store': Store, hashes: seq<Digest>, roots: Roots, k: nat, c: nat, t: nat,
                                        target: Index, depth: nat)
    requires PartEntries(store', hashes, roots, k) && Orphan(roots, k, t) && target[..k] == Bits(t, k)
    requires c < Pow2(k) && c != t && roots[c].Some? && depth <= k && Bits(c, k)[..depth] == target[..depth]
    ensures Gives(store', roots[c].value, target, depth, Absent)
    decreases k - depth
  {
    var e := store'[roots[c].value];
    assert PartEntry(store', roots[c].value, c, k, hashes, roots);
    DifferWithin(e.index, target, c, t, k, depth);
    var d := OnwardFrom(e, target, depth);
    SharesUpTo(e.index, target, k, d);
    var r := OnwardPastOrphan(hashes, roots, k, c, t, e.index, target, d);
    assert Sibling(e, d) == MergeNode(hashes, roots, k, c, d);
    if roots[r].Some? { OrphanIsLost(store', hashes, roots, k, r, t, target, d + 1); }
  }

  lemma {:induction false} DifferWithin(index: Index, target: Index, c: nat, t: nat, k: nat, depth: nat)
    requires depth <= k <= INDEX_BITS && c < Pow2(k) && t < Pow2(k) && c != t
    requires index[..k] == Bits(c, k) && target[..k] == Bits(t, k) && Bits(c, k)[..depth] == target[..depth]
    ensures index[..k] != target[..k] && index != target && index[..depth] == target[..depth]
  {
    if index[..k] == target[..k] { BitsUnique(c, t, k); }
    assert index[..depth] == index[..k][..depth];
  }

  lemma SharesDown(index: Index, target: Index, k: nat, d: nat)
    requires k <= d <= INDEX_BITS && index[..d] == target[..d]
    ensures index[..k] == target[..k]
  {
    assert index[..k] == index[..d][..k] && target[..k] == target[..d][..k];
  }

  lemma SharesUpTo(index: Index, target: Index, k: nat, d: nat)
    requires k <= INDEX_BITS && d < INDEX_BITS && index[..k] != target[..k] && index[..d] == target[..d]
    ensures d < k
  {
    if k <= d { SharesDown(index, target, k, d); }
  }

  /** The root is that of a later partition. */
  lemma {:induction false} RootIsLater(roots: Roots, n: nat, t: nat, later: nat) returns (g: nat)
    requires t < later < n <= |roots| && roots[later].Some?
    ensures t < g < n && roots[g].Some? && GlobalRoot(roots, n) == roots[g]
    decreases n
  {
    if roots[n - 1].Some? { g := n - 1; } else { g := RootIsLater(roots, n - 1, t, later); }
  }

  /** A key of an orphan, whose entry is not the root: another partition comes later. */
  ghost predicate OrphanKey(roots: Roots, k: nat, t: nat, later: nat, target: Index) {
    && k < INDEX_BITS && Orphan(roots, k, t) && t < later < |roots| && roots[later].Some? && target[..k] == Bits(t, k)
  }

  /** The search from the root for an orphan's key comes out with nothing. */
  ghost predicate KeyLost(store': Store, root: Option<int>, target: Index) {
    P.WellFormed(store') && root.Some? && Gives(store', root.value, target, 0, Absent)
  }

  ghost predicate OrphansLost(store': Store, roots: Roots, k: nat) {
    forall t: nat, later: nat, target: Index ::
      OrphanKey(roots, k, t, later, target) ==> KeyLost(store', GlobalRoot(roots, |roots|), target)
  }

  lemma {:induction false} MergedEntries(store: Store, store': Store, hashes: seq<Digest>, roots: Roots, k: nat,
                                         m: Contents)
    requires Merged(store, store', hashes, roots, k, m) && P.WellFormed(store') && k > 0
    ensures PartEntries(store', hashes, roots, k)
  {
    forall p | 0 <= p < |roots| && roots[p].Some?
      ensures PartEntry(store', roots[p].value, p, k, hashes, roots)
    {
      RootAfterMerge(store, store', hashes, roots, k, m, p);
    }
  }

  lemma {:induction false} OrphanKeyIsLost(store': Store, hashes: seq<Digest>, roots: Roots, k: nat, t: nat,
                                           later: nat, target: Index)
    requires PartEntries(store', hashes, roots, k) && OrphanKey(roots, k, t, later, target)
    ensures KeyLost(store', GlobalRoot(roots, |roots|), target)
  {
    var g := RootIsLater(roots, |roots|, t, later);
    OrphanIsLost(store', hashes, roots, k, g, t, target, 0);
  }

  /** After a merge, the keys of orphans are lost. */
  lemma {:induction false} OrphansAreLost(store: Store, store': Store, hashes: seq<Digest>, roots: Roots, k: nat,
                                          m: Contents)
    requires Merged(store, store', hashes, roots, k, m) && P.WellFormed(store')
    ensures OrphansLost(store', roots, k)
  {
    if k > 0 {
      MergedEntries(store, store', hashes, roots, k, m);
      forall t: nat, later: nat, target: Index | OrphanKey(roots, k, t, later, target)
        ensures KeyLost(store', GlobalRoot(roots, |roots|), target)
      {
        OrphanKeyIsLost(store', hashes, roots, k, t, later, target);
      }
    }
  }
}
