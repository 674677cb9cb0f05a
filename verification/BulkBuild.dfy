/** Building the parts of a fresh tree, one per partition, and what each of them is (src/bulk.rs). */
module BulkBuild {
  import opened Digests
  import opened SparseTree
  import opened PrefixEntry
  import opened LogMath
  import opened BulkPartitions
  import opened BulkMerge
  import P = PrefixTree

  type Entries = seq<(Index, Commitment)>

  /** The partition of an index. */
  function PartOf(index: Index, k: nat): (p: nat)
    requires k <= INDEX_BITS
    ensures p < Pow2(k) && Bits(p, k) == index[..k]
  {
    Number(index[..k])
  }

  /** Partition p's share of the first n entries, in their order. */
  function Part(entries: Entries, p: nat, k: nat, n: nat): (part: Entries)
    requires n <= |entries| && k <= INDEX_BITS
  {
    if n == 0 then []
    else if PartOf(entries[n - 1].0, k) == p then Part(entries, p, k, n - 1) + [entries[n - 1]]
    else Part(entries, p, k, n - 1)
  }

  /** Some entry falls into partition p. */
  predicate Filled(entries: Entries, p: nat, k: nat)
    requires k <= INDEX_BITS
  {
    exists i :: 0 <= i < |entries| && PartOf(entries[i].0, k) == p
  }

  lemma {:induction false} PartMembers(entries: Entries, p: nat, k: nat, n: nat)
    requires n <= |entries| && k <= INDEX_BITS
    ensures forall i :: 0 <= i < |Part(entries, p, k, n)| ==> PartOf(Part(entries, p, k, n)[i].0, k) == p
    ensures Part(entries, p, k, n) == [] <==> forall i :: 0 <= i < n ==> PartOf(entries[i].0, k) != p
    decreases n
  {
    if n > 0 { PartMembers(entries, p, k, n - 1); }
  }

  lemma FilledPart(entries: Entries, p: nat, k: nat)
    requires k <= INDEX_BITS
    ensures Filled(entries, p, k) <==> Part(entries, p, k, |entries|) != []
  {
    PartMembers(entries, p, k, |entries|);
  }

  /** A part holds of the whole map exactly what lies in its partition. */
  lemma {:induction false} PartSame(entries: Entries, p: nat, k: nat, n: nat, key: Index)
    requires n <= |entries| && k <= INDEX_BITS && p < Pow2(k) && Above(Bits(p, k), key)
    ensures var part := Part(entries, p, k, n);
            SameAt(P.Insert(map[], part, |part|), P.Insert(map[], entries, n), key)
    decreases n
  {
    if n > 0 {
      PartSame(entries, p, k, n - 1, key);
      var (index, c) := entries[n - 1];
      if PartOf(index, k) == p {
        P.InsertPrefix(map[], Part(entries, p, k, n - 1), [(index, c)], |Part(entries, p, k, n - 1)|);
      } else if index == key {
        assert index[..k] == Bits(p, k);
        BitsUnique(PartOf(index, k), p, k);
        assert false;
      }
    }
  }

  lemma PartAgrees(entries: Entries, p: nat, k: nat)
    requires k <= INDEX_BITS && p < Pow2(k)
    ensures var part := Part(entries, p, k, |entries|);
            AgreeBelow(P.Insert(map[], part, |part|), P.Insert(map[], entries, |entries|), Bits(p, k))
  {
    forall key: Index | Above(Bits(p, k), key)
      ensures var part := Part(entries, p, k, |entries|);
              SameAt(P.Insert(map[], part, |part|), P.Insert(map[], entries, |entries|), key)
    {
      PartSame(entries, p, k, |entries|, key);
    }
  }

  /** Phase 2: the entries by partition. */
  method PartitionEntries(entries: Entries, k: nat) returns (parts: seq<Entries>)
    requires k <= INDEX_BITS
    ensures |parts| == Pow2(k) && forall p :: 0 <= p < Pow2(k) ==> parts[p] == Part(entries, p, k, |entries|)
  {
    parts := seq(Pow2(k), _ => []);
    for i := 0 to |entries|
      invariant |parts| == Pow2(k) && forall p :: 0 <= p < Pow2(k) ==> parts[p] == Part(entries, p, k, i)
    {
      var pid := PartitionId(entries[i].0, k);
      BitsUnique(pid, PartOf(entries[i].0, k), k);
      parts := parts[pid := parts[pid] + [entries[i]]];
    }
  }

  // ---- phase 3 ----

  /** A partition has been built: its entries lie in its range and its root is the tree of its own map. */
  ghost predicate PartDone(store: Store, versions: map<int, Contents>, start: int, part: Entries, root: Option<int>,
                           p: nat, k: nat)
    requires k <= INDEX_BITS
  {
    && PartAt(store, start, |part|, p, k)
    && match root
       case None => part == []
       case Some(q) => start <= q < start + |part| && q in versions && versions[q] == P.Insert(map[], part, |part|)
  }

  ghost predicate Slot(store: Store, versions: map<int, Contents>, starts: seq<int>, parts: seq<Entries>, roots: Roots,
                       k: nat, p: nat)
    requires k <= INDEX_BITS && p < |parts| && p < |roots| && p + 1 < |starts|
  {
    starts[p + 1] == starts[p] + |parts[p]| && PartDone(store, versions, starts[p], parts[p], roots[p], p, k)
  }

  ghost predicate PartsDone(store: Store, versions: map<int, Contents>, starts: seq<int>, parts: seq<Entries>,
                            roots: Roots, k: nat, n: nat) {
    && k <= INDEX_BITS && n <= |parts| && |roots| == n && |starts| == n + 1
    && (forall p :: 0 <= p < n ==> Slot(store, versions, starts, parts, roots, k, p))
    && Range(store, starts[0], starts[n])
  }

  ghost predicate Keeps(vs: map<int, Contents>, vs': map<int, Contents>) {
    forall q :: q in vs ==> q in vs' && vs'[q] == vs[q]
  }

  lemma KeepSlot(store: Store, store': Store, vs: map<int, Contents>, vs': map<int, Contents>, starts: seq<int>,
                 starts': seq<int>, parts: seq<Entries>, roots: Roots, roots': Roots, k: nat, p: nat)
    requires k <= INDEX_BITS && p < |parts| && p < |roots| && p + 1 < |starts|
            && Slot(store, vs, starts, parts, roots, k, p)
    requires Extends(store, store') && Keeps(vs, vs') && starts <= starts' && roots <= roots'
    ensures Slot(store', vs', starts', parts, roots', k, p)
  {}

  lemma KeepSlots(store: Store, store': Store, vs: map<int, Contents>, vs': map<int, Contents>, starts: seq<int>,
                  starts': seq<int>, parts: seq<Entries>, roots: Roots, roots': Roots, k: nat, n: nat)
    requires PartsDone(store, vs, starts, parts, roots, k, n)
    requires Extends(store, store') && Keeps(vs, vs') && starts <= starts' && roots <= roots'
    ensures forall p :: 0 <= p < n ==> Slot(store', vs', starts', parts, roots', k, p)
  {
    forall p | 0 <= p < n
      ensures Slot(store', vs', starts', parts, roots', k, p)
    {
      KeepSlot(store, store', vs, vs', starts, starts', parts, roots, roots', k, p);
    }
  }

  /** The store holds positions from `from` on and before `to`, each with a leaf. */
  ghost predicate Range(store: Store, from: int, to: int) {
    forall q :: q in store ==> from <= q < to && store[q].leaf.Some? && |store[q].copath| <= INDEX_BITS
  }

  lemma NextRange(store: Store, store': Store, from: int, start: int, part: Entries)
    requires Range(store, from, start) && from <= start && Extends(store, store') && P.WellFormed(store')
    requires P.Written(store', start, part, |part|)
            && forall q :: q in store' ==> q in store || start <= q < start + |part|
    ensures Range(store', from, start + |part|)
  {
    forall q | q in store'
      ensures from <= q < start + |part| && store'[q].leaf.Some?
    {
      if q !in store { P.WrittenAt(store', start, part, |part|, q); }
    }
  }

  lemma NextPart(store: Store, store': Store, vs: map<int, Contents>, vs': map<int, Contents>, starts: seq<int>,
                 start: int, parts: seq<Entries>, part: Entries, roots: Roots, root: Option<int>, k: nat, n: nat)
    requires n < |parts| && PartsDone(store, vs, starts, parts, roots, k, n) && start == starts[n] && part == parts[n]
    requires Extends(store, store') && Keeps(vs, vs') && Range(store', starts[0], start + |part|)
    requires PartDone(store', vs', start, part, root, n, k)
    ensures PartsDone(store', vs', starts + [start + |part|], parts, roots + [root], k, n + 1)
  {
    KeepSlots(store, store', vs, vs', starts, starts + [start + |part|], parts, roots, roots + [root], k, n);
    assert Slot(store', vs', starts + [start + |part|], parts, roots + [root], k, n);
  }

  lemma {:induction false} StartsRise(store: Store, vs: map<int, Contents>, starts: seq<int>, parts: seq<Entries>,
                                      roots: Roots, k: nat, n: nat, i: nat)
    requires i <= n <= |parts| && PartsDone(store, vs, starts, parts, roots, k, n)
    ensures starts[0] <= starts[i]
    decreases i
  {
    if i > 0 {
      StartsRise(store, vs, starts, parts, roots, k, n, i - 1);
      assert Slot(store, vs, starts, parts, roots, k, i - 1);
    }
  }

  lemma BatchKeeps(vs: map<int, Contents>, vs': map<int, Contents>, start: int, part: Entries)
    requires (forall q :: q in vs ==> q < start) && vs' == P.VersionsAfter(vs, map[], start, part, |part|)
    ensures Keeps(vs, vs')
  {
    forall q ensures q in vs ==> q in vs' && vs'[q] == vs[q] {
      P.VersionsAt(vs, map[], start, part, |part|, q);
    }
  }

  lemma BatchPlaced(store: Store, start: int, part: Entries, p: nat, k: nat)
    requires k <= INDEX_BITS && P.Written(store, start, part, |part|) && P.WellFormed(store)
    requires forall i :: 0 <= i < |part| ==> PartOf(part[i].0, k) == p
    ensures PartAt(store, start, |part|, p, k)
  {
    forall q | start <= q < start + |part|
      ensures q in store && Number(store[q].index[..k]) == p
    {
      P.WrittenAt(store, start, part, |part|, q);
      assert PartOf(part[q - start].0, k) == p;
    }
  }

  /** What one batch of insertions into an empty tree leaves for its partition. */
  lemma BatchIsPart(store: Store, vs: map<int, Contents>, vs': map<int, Contents>, start: int, part: Entries,
                    root: Option<int>, p: nat, k: nat)
    requires k <= INDEX_BITS && part != [] && P.Written(store, start, part, |part|) && P.WellFormed(store)
    requires forall i :: 0 <= i < |part| ==> PartOf(part[i].0, k) == p
    requires (forall q :: q in vs ==> q < start) && vs' == P.VersionsAfter(vs, map[], start, part, |part|)
    requires root == Some(start + |part| - 1)
    ensures PartDone(store, vs', start, part, root, p, k)
  {
    P.VersionsAt(vs, map[], start, part, |part|, start + |part| - 1);
    BatchPlaced(store, start, part, p, k);
  }

  /** A batch of insertions for the next partition, from an empty tree of its own. */
  lemma PartAdded(store: Store, store': Store, vs: map<int, Contents>, vs': map<int, Contents>, starts: seq<int>,
                  parts: seq<Entries>, part: Entries, roots: Roots, root: Option<int>, k: nat, n: nat, start: int)
    requires n < |parts| && PartsDone(store, vs, starts, parts, roots, k, n) && part == parts[n] != []
            && start == starts[n]
    requires forall i :: 0 <= i < |part| ==> PartOf(part[i].0, k) == n
    requires vs.Keys <= store.Keys && Extends(store, store') && P.WellFormed(store')
    requires store'.Keys == store.Keys + P.Positions(start, |part|) && P.Written(store', start, part, |part|)
    requires vs' == P.VersionsAfter(vs, map[], start, part, |part|) && root == Some(start + |part| - 1)
    ensures PartsDone(store', vs', starts + [start + |part|], parts, roots + [root], k, n + 1)
  {
    StartsRise(store, vs, starts, parts, roots, k, n, n);
    BatchKeeps(vs, vs', start, part);
    BatchIsPart(store', vs, vs', start, part, root, n, k);
    NextRange(store, store', starts[0], start, part);
    NextPart(store, store', vs, vs', starts, start, parts, part, roots, root, k, n);
  }

  /** Phase 3: one independent subtree per partition with entries, at consecutive positions. */
  method BuildParts(tree: P.PrefixTree, start: int, parts: seq<Entries>, k: nat) returns (r: Result<(Roots, seq<int>)>)
    requires tree.Valid() && tree.store == tree.full == map[] && k <= INDEX_BITS && |parts| == Pow2(k)
    requires forall p :: 0 <= p < |parts| ==> forall i :: 0 <= i < |parts[p]| ==> PartOf(parts[p][i].0, k) == p
    modifies tree, tree.nodeCache.Values
    ensures tree.Valid() && tree.full == tree.store
    ensures r.Ok? && PartsDone(tree.store, tree.versions, r.value.1, parts, r.value.0, k, |parts|)
  {
    var roots: Roots, starts := [], [start];
    for p := 0 to |parts|
      invariant tree.Valid() && tree.full == tree.store
      invariant forall c :: c in tree.nodeCache.Values ==> c in old(tree.nodeCache.Values) || fresh(c)
      invariant PartsDone(tree.store, tree.versions, starts, parts, roots, k, p)
    {
      var got := BuildPart(tree, starts[p], parts[p], p, k, starts, parts, roots);
      if got.Err? {
        return Err;
      }
      roots, starts := roots + [got.value], starts + [starts[p] + |parts[p]|];
    }
    return Ok((roots, starts));
  }

  method BuildPart(tree: P.PrefixTree, start: int, part: Entries, p: nat, k: nat,
                   ghost starts: seq<int>, ghost parts: seq<Entries>, ghost roots: Roots)
    returns (r: Result<Option<int>>)
    requires tree.Valid() && tree.full == tree.store && p < |parts| && part == parts[p]
    requires PartsDone(tree.store, tree.versions, starts, parts, roots, k, p) && start == starts[p]
    requires forall i :: 0 <= i < |part| ==> PartOf(part[i].0, k) == p
    modifies tree, tree.nodeCache.Values
    ensures tree.Valid() && tree.full == tree.store
    ensures forall c :: c in tree.nodeCache.Values ==> c in old(tree.nodeCache.Values) || fresh(c)
    ensures r.Ok? && PartsDone(tree.store, tree.versions, starts + [start + |part|], parts, roots + [r.value], k, p + 1)
  {
    if part == [] {
      NextPart(tree.store, tree.store, tree.versions, tree.versions, starts, start, parts, part, roots, None, k, p);
      return Ok(None);
    }
    ghost var before, vs := tree.store, tree.versions;
    P.RootsStored(before, vs);
    var got := tree.BatchInsert(start, None, part, map[]);
    if got.Err? {
      return Err;
    }
    PartAdded(before, tree.store, vs, tree.versions, starts, parts, part, roots, Some(got.value.1), k, p, start);
    return Ok(Some(got.value.1));
  }

  // ---- what the parts make together ----

  /** The roots of the partitions stand for what the whole map has in each of them. */
  lemma DoneIsBuilt(store: Store, versions: map<int, Contents>, starts: seq<int>, parts: seq<Entries>, roots: Roots,
                    entries: Entries, k: nat)
    requires k < INDEX_BITS && |parts| == Pow2(k) && PartsDone(store, versions, starts, parts, roots, k, |parts|)
    requires P.AllRoots(store, versions)
    requires forall p :: 0 <= p < Pow2(k) ==> parts[p] == Part(entries, p, k, |entries|)
    ensures Built(store, roots, k, P.Insert(map[], entries, |entries|))
  {
    forall p | 0 <= p < Pow2(k)
      ensures PartBuilt(store, roots[p], Bits(p, k), P.Insert(map[], entries, |entries|))
    {
      assert Slot(store, versions, starts, parts, roots, k, p);
      OnePartBuilt(store, versions, starts[p], parts[p], roots[p], entries, p, k);
    }
  }

  lemma OnePartBuilt(store: Store, versions: map<int, Contents>, start: int, part: Entries, root: Option<int>,
                     entries: Entries, p: nat, k: nat)
    requires k < INDEX_BITS && p < Pow2(k) && part == Part(entries, p, k, |entries|)
    requires PartDone(store, versions, start, part, root, p, k) && P.AllRoots(store, versions)
    requires forall q :: q in store ==> store[q].leaf.Some?
    ensures PartBuilt(store, root, Bits(p, k), P.Insert(map[], entries, |entries|))
  {
    var mine, whole := P.Insert(map[], part, |part|), P.Insert(map[], entries, |entries|);
    PartAgrees(entries, p, k);
    match root {
      case None => AgreeOccupied(mine, whole, Bits(p, k));
      case Some(q) =>
        assert P.RootOf(store, q, mine);
        assert Number(store[q].index[..k]) == p;
        RepresentsDeeper(store, q, 0, k, mine);
        RepresentsFrame(store, store, q, k, mine, whole);
    }
  }

  lemma DoneIsLaid(store: Store, versions: map<int, Contents>, starts: seq<int>, parts: seq<Entries>, roots: Roots,
                   k: nat)
    requires |parts| == Pow2(k) && PartsDone(store, versions, starts, parts, roots, k, |parts|)
    ensures Laid(store, starts, k)
  {
    forall p | 0 <= p < Pow2(k)
      ensures starts[p] <= starts[p + 1] && PartAt(store, starts[p], starts[p + 1] - starts[p], p, k)
    {
      assert Slot(store, versions, starts, parts, roots, k, p);
    }
  }
}
