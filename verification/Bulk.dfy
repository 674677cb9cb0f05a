/** Building a fresh tree from partitions against inserting one entry after the other (src/bulk.rs). */
module Bulk {
  import opened Digests
  import opened SparseTree
  import opened PrefixEntry
  import opened LogMath
  import opened BulkPartitions
  import opened BulkMerge
  import opened BulkLaws
  import opened BulkBuild
  import opened BulkOrphans
  import opened PrefixSearch
  import P = PrefixTree

  /**
   * Every odd partition but the last gets an entry, and so does one of the last two. With a single
   * partition any entry will do.
   */
  predicate EnoughEntries(entries: Entries, k: nat)
    requires k <= INDEX_BITS
  {
    if k == 0 then entries != []
    else
      && (forall p :: 0 <= p < Pow2(k) - 1 && p % 2 == 1 ==> Filled(entries, p, k))
      && (Filled(entries, Pow2(k) - 1, k) || Filled(entries, Pow2(k) - 2, k))
  }

  /** Every pair of neighbouring partitions gets an entry. */
  predicate PairsFilled(entries: Entries, k: nat)
    requires k <= INDEX_BITS
  {
    k > 0 ==> forall i :: 0 <= i < Pow2(k - 1) ==> PairFilled(entries, i, k)
  }

  predicate PairFilled(entries: Entries, i: nat, k: nat)
    requires k <= INDEX_BITS
  {
    Filled(entries, 2 * i, k) || Filled(entries, 2 * i + 1, k)
  }

  /** A single entry spread over four partitions or more leaves a pair empty. */
  lemma LoneEntryLeavesPair(index: Index, c: Commitment, k: nat)
    requires 2 <= k <= INDEX_BITS
    ensures !PairsFilled([(index, c)], k) && !EnoughEntries([(index, c)], k)
  {
    var lone: Entries := [(index, c)];
    assert Pow2(k - 1) == 2 * Pow2(k - 2);
    assert forall p :: 0 <= p < Pow2(k) && Filled(lone, p, k) ==> PartOf(index, k) == p;
    assert !PairFilled(lone, 0, k) || !PairFilled(lone, 1, k);
    assert Filled(lone, Pow2(k) - 1, k) ==> PartOf(index, k) == Pow2(k) - 1;
    assert Filled(lone, Pow2(k) - 2, k) ==> PartOf(index, k) == Pow2(k) - 2;
    assert Filled(lone, 1, k) ==> PartOf(index, k) == 1;
  }

  /** A partition gets an entry exactly when the map holds a key there. */
  ghost predicate PartFilled(entries: Entries, p: nat, k: nat, m: Contents) {
    k <= INDEX_BITS && (Filled(entries, p, k) <==> Occupied(m, Bits(p, k)))
  }

  lemma FilledIsOccupied(entries: Entries, p: nat, k: nat, m: Contents)
    requires k <= INDEX_BITS && p < Pow2(k) && m == P.Insert(map[], entries, |entries|)
    ensures PartFilled(entries, p, k, m)
  {
    if Filled(entries, p, k) {
      var i :| 0 <= i < |entries| && PartOf(entries[i].0, k) == p;
      P.InsertedKeys(map[], entries, |entries|, entries[i].0);
      assert Above(Bits(p, k), entries[i].0);
    }
    if Occupied(m, Bits(p, k)) {
      var key :| key in m && Above(Bits(p, k), key);
      P.InsertedKeys(map[], entries, |entries|, key);
      var i :| 0 <= i < |entries| && entries[i].0 == key;
      assert key[..k] == Bits(p, k);
      BitsUnique(PartOf(key, k), p, k);
    }
  }

  lemma PairIsFilled(entries: Entries, i: nat, k: nat, m: Contents)
    requires 0 < k < INDEX_BITS && PartFilled(entries, 2 * i, k, m) && PartFilled(entries, 2 * i + 1, k, m)
    ensures PairFilled(entries, i, k) <==> PairOccupied(i, k, m)
  {
    PairChildren(i, k, m);
  }

  lemma PairChildren(i: nat, k: nat, m: Contents)
    requires 0 < k < INDEX_BITS
    ensures PairOccupied(i, k, m) <==> Occupied(m, Bits(2 * i, k)) || Occupied(m, Bits(2 * i + 1, k))
  {
    ChildBits(i, k - 1);
    OccupiedChildren(m, Bits(i, k - 1));
  }

  lemma PairsAreFilled(entries: Entries, k: nat)
    requires k < INDEX_BITS
    ensures PairsFilled(entries, k) <==> AllPairs(k, P.Insert(map[], entries, |entries|))
  {
    ghost var m := P.Insert(map[], entries, |entries|);
    if k > 0 {
      forall i | 0 <= i < Pow2(k - 1)
        ensures PairFilled(entries, i, k) <==> PairOccupied(i, k, m)
      {
        FilledIsOccupied(entries, 2 * i, k, m);
        FilledIsOccupied(entries, 2 * i + 1, k, m);
        PairIsFilled(entries, i, k, m);
      }
    }
  }

  // ---- what a lookup finds ----

  /** An entry in an even partition whose odd neighbour gets none, while a later partition gets one. */
  predicate Orphaned(entries: Entries, i: nat, k: nat)
    requires k <= INDEX_BITS
  {
    && i < |entries| && 0 < k && PartOf(entries[i].0, k) % 2 == 0 && PartOf(entries[i].0, k) + 1 < Pow2(k)
    && !Filled(entries, PartOf(entries[i].0, k) + 1, k)
    && exists j :: 0 <= j < |entries| && PartOf(entries[i].0, k) < PartOf(entries[j].0, k)
  }

  /** Orphaned entries are in the tree, and lookups from its root answer that they are absent. */
  ghost predicate OrphansAbsent(store: Store, root: int, entries: Entries, k: nat)
    requires k <= INDEX_BITS
  {
    P.WellFormed(store) && forall i: nat :: Orphaned(entries, i, k) ==> Gives(store, root, entries[i].0, 0, Absent)
  }

  /** Lookups from the root of a tree answer right for the whole map. */
  ghost predicate AllAnswered(store: Store, root: int, m: Contents) {
    P.WellFormed(store) && forall key: Index :: Aligned(store, root, key, 0) && Right(Walk(store, root, key, 0), key, m)
  }

  lemma {:induction false} OrphanedIsKey(entries: Entries, roots: Roots, k: nat, i: nat)
    returns (later: nat)
    requires k < INDEX_BITS && RootsFilled(entries, roots, k) && Orphaned(entries, i, k)
    ensures OrphanKey(roots, k, PartOf(entries[i].0, k), later, entries[i].0)
  {
    var j :| 0 <= j < |entries| && PartOf(entries[i].0, k) < PartOf(entries[j].0, k);
    later := PartOf(entries[j].0, k);
    assert Filled(entries, later, k);
  }

  lemma {:induction false} OrphansAreAbsent(store: Store, root: int, entries: Entries, roots: Roots, k: nat)
    requires k < INDEX_BITS && P.WellFormed(store) && RootsFilled(entries, roots, k) && OrphansLost(store, roots, k)
    requires GlobalRoot(roots, |roots|) == Some(root)
    ensures OrphansAbsent(store, root, entries, k)
  {
    forall i: nat | Orphaned(entries, i, k)
      ensures Gives(store, root, entries[i].0, 0, Absent)
    {
      var later := OrphanedIsKey(entries, roots, k, i);
      assert KeyLost(store, Some(root), entries[i].0);
    }
  }

  /** An entry in one of the two partitions of a pair. */
  lemma {:induction false} EntryOfPair(entries: Entries, i: nat, k: nat) returns (j: nat)
    requires k <= INDEX_BITS && PairFilled(entries, i, k)
    ensures j < |entries| && 2 * i <= PartOf(entries[j].0, k) <= 2 * i + 1
  {
    var p := if Filled(entries, 2 * i, k) then 2 * i else 2 * i + 1;
    j :| 0 <= j < |entries| && PartOf(entries[j].0, k) == p;
  }

  lemma {:induction false} OrphanBeside(entries: Entries, p: nat, k: nat, half: nat) returns (i: nat)
    requires 0 < k < INDEX_BITS && PairsFilled(entries, k) && Pow2(k) == 2 * half && half == Pow2(k - 1)
    requires p < Pow2(k) - 1 && p % 2 == 1 && !Filled(entries, p, k)
    ensures Orphaned(entries, i, k)
  {
    i := EntryOfPair(entries, p / 2, k);
    assert PartOf(entries[i].0, k) != p;
    var j := EntryOfPair(entries, half - 1, k);
    assert PartOf(entries[i].0, k) < PartOf(entries[j].0, k);
  }

  /** Where every pair gets an entry but there are not enough, some entry is orphaned. */
  lemma {:induction false} SomeOrphan(entries: Entries, k: nat) returns (i: nat)
    requires 0 < k < INDEX_BITS && PairsFilled(entries, k) && !EnoughEntries(entries, k)
    ensures Orphaned(entries, i, k)
  {
    var half := Pow2(k - 1);
    assert PairFilled(entries, half - 1, k);
    var p :| 0 <= p < Pow2(k) - 1 && p % 2 == 1 && !Filled(entries, p, k);
    i := OrphanBeside(entries, p, k, half);
  }

  lemma {:induction false} WholeAnswers(store: Store, root: int, m: Contents)
    requires P.WellFormed(store) && P.RootOf(store, root, m)
    ensures AllAnswered(store, root, m)
  {
    forall key: Index
      ensures Aligned(store, root, key, 0) && Right(Walk(store, root, key, 0), key, m)
    {
      WholeIsRight(store, root, key, m);
    }
  }

  /** Where every pair gets an entry, lookups are right for the whole map exactly when there are enough. */
  lemma {:induction false} AnsweredWhenEnough(store: Store, root: int, entries: Entries, k: nat, m: Contents)
    requires k < INDEX_BITS && entries != [] && m == P.Insert(map[], entries, |entries|) && PairsFilled(entries, k)
    requires OrphansAbsent(store, root, entries, k) && (EnoughEntries(entries, k) ==> P.RootOf(store, root, m))
    ensures EnoughEntries(entries, k) <==> AllAnswered(store, root, m)
  {
    if EnoughEntries(entries, k) {
      WholeAnswers(store, root, m);
    } else {
      var i := SomeOrphan(entries, k);
      P.InsertedKeys(map[], entries, |entries|, entries[i].0);
      assert !Right(Walk(store, root, entries[i].0, 0), entries[i].0, m);
    }
  }

  // ---- the roots ----

  /** A partition has a root exactly when it gets an entry. */
  ghost predicate RootsFilled(entries: Entries, roots: Roots, k: nat) {
    && k <= INDEX_BITS && |roots| == Pow2(k)
    && forall p :: 0 <= p < |roots| ==> (roots[p].Some? <==> Filled(entries, p, k))
  }

  lemma RootsAreFilled(store: Store, versions: map<int, Contents>, starts: seq<int>, parts: seq<Entries>, roots: Roots,
                       entries: Entries, k: nat)
    requires |parts| == Pow2(k) && PartsDone(store, versions, starts, parts, roots, k, |parts|)
    requires forall p :: 0 <= p < Pow2(k) ==> parts[p] == Part(entries, p, k, |entries|)
    ensures RootsFilled(entries, roots, k)
  {
    forall p | 0 <= p < |roots|
      ensures roots[p].Some? <==> Filled(entries, p, k)
    {
      assert Slot(store, versions, starts, parts, roots, k, p);
      FilledPart(entries, p, k);
    }
  }

  lemma EnoughIsEnough(entries: Entries, roots: Roots, k: nat)
    requires RootsFilled(entries, roots, k)
    ensures EnoughEntries(entries, k) <==> Enough(roots, k)
  {
    if k == 0 {
      forall i | 0 <= i < |entries| ensures PartOf(entries[i].0, 0) == 0 {}
      assert entries != [] ==> PartOf(entries[0].0, 0) == 0;
    }
  }

  lemma {:induction false} SomeRoot(roots: Roots, n: nat, p: nat)
    requires p < n <= |roots| && roots[p].Some?
    ensures GlobalRoot(roots, n).Some?
    decreases n
  {
    if p < n - 1 { SomeRoot(roots, n - 1, p); }
  }

  lemma AnyEntryGivesRoot(entries: Entries, roots: Roots, k: nat)
    requires RootsFilled(entries, roots, k) && entries != []
    ensures GlobalRoot(roots, Pow2(k)).Some?
  {
    var p := PartOf(entries[0].0, k);
    assert Filled(entries, p, k);
    SomeRoot(roots, Pow2(k), p);
  }

  /** The last partition with a root, looked for from the right. */
  method FindGlobalRoot(roots: Roots) returns (root: Option<int>)
    ensures root == GlobalRoot(roots, |roots|)
  {
    var n: nat := |roots|;
    while n > 0
      invariant n <= |roots| && GlobalRoot(roots, |roots|) == GlobalRoot(roots, n)
    {
      if roots[n - 1].Some? {
        return roots[n - 1];
      }
      n := n - 1;
    }
    return None;
  }

  lemma PatchedWellFormed(store: Store, store': Store, hashes: seq<Digest>, roots: Roots, k: nat)
    requires k <= INDEX_BITS && Pow2(k) == |hashes| == |roots| && Patched(store, store', hashes, roots, k)
    requires store'.Keys <= store.Keys
    ensures P.WellFormed(store')
  {
    forall q | q in store'
      ensures |store'[q].copath| <= INDEX_BITS
    {
      assert q in store;
    }
  }

  /** Phases 4 and 5: the values of the partitions, the tree above them and the merged entries. */
  method Merge(store: Store, starts: seq<int>, roots: Roots, k: nat, ghost m: Contents)
    returns (merged: Store, top: Digest)
    requires Built(store, roots, k, m) && Laid(store, starts, k)
    ensures P.WellFormed(merged) && (top == Root(m) <==> AllPairs(k, m))
    ensures Enough(roots, k) <==>
            top == Root(m) && GlobalRoot(roots, Pow2(k)).Some? && P.RootOf(merged, GlobalRoot(roots, Pow2(k)).value, m)
    ensures OrphansLost(merged, roots, k)
  {
    var hashes := PartitionHashes(store, roots, k, m);
    var hashTree := BuildHashTree(hashes, k);
    merged := MergeParts(store, starts, k, hashTree, roots, hashes);
    top := hashTree[0][0];
    PatchedWellFormed(store, merged, hashes, roots, k);
    RootValueIffPairs(hashes, k, m);
    MergesExactlyWhenEnough(store, merged, hashes, roots, k, m);
    OrphansAreLost(store, merged, hashes, roots, k, m);
  }

  /**
   * `parallel_bulk_populate` on a fresh tree: it leaves the tree of all entries, with the root that
   * inserting them one after the other gives, exactly when there are entries enough. The tree then
   * answers searches from the new root pointer for the whole map. The root value alone is right
   * exactly when every pair of neighbouring partitions gets an entry; between the two conditions
   * lookups miss entries that are there.
   */
  method ParallelPopulate(tree: P.PrefixTree, start: int, entries: Entries, k: nat)
    returns (r: Result<Option<(int, Digest)>>)
    requires tree.Valid() && tree.store == tree.full == map[] && k < INDEX_BITS
    modifies tree, tree.nodeCache.Values
    ensures tree.Valid() && tree.full == tree.store
    ensures r.Ok? && (r.value.None? <==> entries == [])
    ensures entries == [] ==> tree.store == map[]
    ensures entries != [] ==>
              var m := P.Insert(map[], entries, |entries|);
              var (root, top) := r.value.value;
              && (EnoughEntries(entries, k) <==> top == Root(m) && P.RootOf(tree.store, root, m))
              && (PairsFilled(entries, k) <==> top == Root(m))
              && OrphansAbsent(tree.store, root, entries, k)
              && (PairsFilled(entries, k) ==> (EnoughEntries(entries, k) <==> AllAnswered(tree.store, root, m)))
              && tree.versions == if EnoughEntries(entries, k) then map[root := m] else map[]
  {
    if entries == [] {
      return Ok(None);
    }
    ghost var m := P.Insert(map[], entries, |entries|);
    var parts := PartitionEntries(entries, k);
    PartsPure(entries, parts, k);
    var built := BuildParts(tree, start, parts, k);
    if built.Err? {
      return Err;
    }
    var (roots, starts) := built.value;
    DoneIsBuilt(tree.store, tree.versions, starts, parts, roots, entries, k);
    DoneIsLaid(tree.store, tree.versions, starts, parts, roots, k);
    RootsAreFilled(tree.store, tree.versions, starts, parts, roots, entries, k);
    EnoughIsEnough(entries, roots, k);
    AnyEntryGivesRoot(entries, roots, k);
    PairsAreFilled(entries, k);
    var merged, top := Merge(tree.store, starts, roots, k, m);
    var root := FindGlobalRoot(roots);
    OrphansAreAbsent(merged, root.value, entries, roots, k);
    if PairsFilled(entries, k) { AnsweredWhenEnough(merged, root.value, entries, k, m); }
    Install(tree, merged, root.value, EnoughEntries(entries, k), m);
    return Ok(Some((root.value, top)));
  }

  lemma PartsPure(entries: Entries, parts: seq<Entries>, k: nat)
    requires k <= INDEX_BITS && |parts| == Pow2(k)
    requires forall p :: 0 <= p < Pow2(k) ==> parts[p] == Part(entries, p, k, |entries|)
    ensures forall p :: 0 <= p < |parts| ==> forall i :: 0 <= i < |parts[p]| ==> PartOf(parts[p][i].0, k) == p
  {
    forall p | 0 <= p < |parts|
      ensures forall i :: 0 <= i < |parts[p]| ==> PartOf(parts[p][i].0, k) == p
    {
      PartMembers(entries, p, k, |entries|);
    }
  }

  /** The merged entries replace the stored ones, and the cache starts over. */
  method Install(tree: P.PrefixTree, merged: Store, ghost root: int, ghost whole: bool, ghost m: Contents)
    requires P.WellFormed(merged) && (whole ==> P.RootOf(merged, root, m))
    modifies tree
    ensures tree.Valid() && tree.store == tree.full == merged && tree.nodeCache == map[]
    ensures tree.versions == if whole then map[root := m] else map[]
  {
    tree.store, tree.nodeCache, tree.full := merged, map[], merged;
    tree.versions := if whole then map[root := m] else map[];
  }
}
