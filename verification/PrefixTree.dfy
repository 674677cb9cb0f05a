/**
 * The persistent prefix tree (src/tree/prefix/read.rs, src/tree/prefix/write.rs): every insertion
 * appends one entry, and every position ever returned stays the root of its own version.
 */
module PrefixTree {
  import opened Digests
  import opened SparseTree
  import opened PrefixEntry
  import opened PrefixProofs

  datatype StepResult = Continue(next: int) | Found(entry: LogEntry) | Failed(copath: seq<ParentNode>)

  /** Walking from the entry at `ptr` continues the search for `target` below `copath`. */
  ghost predicate Reaches(store: Store, ptr: int, copath: seq<ParentNode>, target: Index, m: Contents) {
    && CopathOf(store, copath, target, m)
    && Represents(store, ptr, |copath|, m)
    && Above(target[..|copath|], store[ptr].index)
    && (|copath| > 0 ==> Occupied(m, target[..|copath| - 1]))
  }

  /** What one step of a search establishes. */
  ghost predicate StepOutcome(
    store: Store, ptr: int, before: nat, copath: seq<ParentNode>, r: StepResult, target: Index, m: Contents)
    requires ptr in store
  {
    match r
    case Continue(next) => before < |copath| && Reaches(store, next, copath, target, m)
    case Found(e) =>
      && target in m && e.leaf == Some(m[target]) && e.index == target
      && CopathOf(store, e.copath, target, m) && PrefixProofs.BareBelow(m, target, |e.copath|)
    case Failed(failed) =>
      && failed == copath && CopathOf(store, copath, target, m)
      && target !in m && FirstEmpty(m, target, |copath|)
      && (store[ptr].leaf.Some? ==> |copath| > 0 && Above(target[..|copath| - 1], store[ptr].index))
  }

  /** The siblings that an entry records on the part of the path it shares with `target`. */
  lemma SharedSibling(target: Index, index: Index, depth: nat)
    requires depth < INDEX_BITS && Above(target[..depth], index)
    ensures target[depth] == index[depth] ==>
              SiblingPath(index, depth) == SiblingPath(target, depth) && Above(target[..depth + 1], index)
    ensures target[depth] != index[depth] ==>
              SiblingPath(index, depth) == target[..depth + 1] && SiblingPath(target, depth) == index[..depth + 1]
  {
    assert index[..depth] == target[..depth];
    assert target[..depth + 1] == target[..depth] + [target[depth]];
    assert index[..depth + 1] == index[..depth] + [index[depth]];
  }

  lemma AbsentBelowEmpty(m: Contents, target: Index, level: nat)
    requires level <= INDEX_BITS && !Occupied(m, target[..level])
    ensures target !in m
  {
    assert Above(target[..level], target);
  }

  /** At an entry for `target` itself, what it records below the walked part completes the copath. */
  lemma FoundCopath(store: Store, ptr: int, copath: seq<ParentNode>, target: Index, m: Contents)
    requires Reaches(store, ptr, copath, target, m)
    requires store[ptr].leaf.Some? && store[ptr].index == target
    ensures var full := CombineCopaths(copath, store[ptr].copath);
            CopathOf(store, full, target, m) && PrefixProofs.BareBelow(m, target, |full|)
  {
    var e := store[ptr];
    var full := CombineCopaths(copath, e.copath);
    forall k | 0 <= k < |full| ensures Points(store, full[k], SiblingPath(target, k), m) {
      if k >= |copath| { assert PointsAt(store, e, k, m); }
    }
    forall k | |full| <= k < INDEX_BITS ensures !Occupied(m, SiblingPath(target, k)) {
      assert PointsAt(store, e, k, m);
      assert Points(store, Sibling(e, k), SiblingPath(e.index, k), m);
    }
  }

  /** Where the paths part, the entry at hand becomes the sibling of the path of `target`. */
  lemma Diverge(store: Store, ptr: int, copath: seq<ParentNode>, target: Index, m: Contents)
    requires Reaches(store, ptr, copath, target, m)
    requires |copath| < Height(store[ptr]) && store[ptr].index[|copath|] != target[|copath|]
    ensures var e := store[ptr]; var depth := |copath|;
            && Occupied(m, target[..depth])
            && Points(store, ParentNode(Rollup(e, depth + 1), Some(ptr)), SiblingPath(target, depth), m)
            && Points(store, Sibling(e, depth), target[..depth + 1], m)
  {
    var e := store[ptr];
    var depth := |copath|;
    SharedSibling(target, e.index, depth);
    OnPathOccupied(store, ptr, depth, depth, m);
    assert e.index[..depth] == target[..depth];
    RepresentsDeeper(store, ptr, depth, depth + 1, m);
    RollupIsNodeHash(store, ptr, depth + 1, depth + 1, m);
    assert Above(e.index[..depth + 1], e.index);
    assert PointsAt(store, e, depth, m);
  }

  /** Where the paths agree, the entry's sibling is also the target's. */
  lemma Follow(store: Store, ptr: int, copath: seq<ParentNode>, target: Index, m: Contents)
    requires Reaches(store, ptr, copath, target, m)
    requires |copath| < Height(store[ptr]) && store[ptr].index[|copath|] == target[|copath|]
    ensures Reaches(store, ptr, copath + [Sibling(store[ptr], |copath|)], target, m)
  {
    var e := store[ptr];
    var depth := |copath|;
    SharedSibling(target, e.index, depth);
    assert PointsAt(store, e, depth, m);
    RepresentsDeeper(store, ptr, depth, depth + 1, m);
    OnPathOccupied(store, ptr, depth, depth, m);
    assert e.index[..depth] == target[..depth];
  }

  lemma CopathNext(store: Store, copath: seq<ParentNode>, node: ParentNode, target: Index, m: Contents)
    requires CopathOf(store, copath, target, m) && |copath| < INDEX_BITS
    requires Points(store, node, SiblingPath(target, |copath|), m)
    ensures CopathOf(store, copath + [node], target, m)
  {}

  /** Where the paths part, the search goes on at the entry of the subtree of `target`, if it has one. */
  lemma DivergesOn(store: Store, ptr: int, before: nat, copath: seq<ParentNode>, node: ParentNode, next: int,
                   target: Index, m: Contents)
    requires Reaches(store, ptr, copath, target, m) && before <= |copath|
    requires |copath| < Height(store[ptr]) && store[ptr].index[|copath|] != target[|copath|]
    requires node == ParentNode(Rollup(store[ptr], |copath| + 1), Some(ptr))
            && Sibling(store[ptr], |copath|).ptr == Some(next)
    ensures StepOutcome(store, ptr, before, copath + [node], Continue(next), target, m)
  {
    Diverge(store, ptr, copath, target, m);
    CopathNext(store, copath, node, target, m);
    assert StandsFor(store, next, target[..|copath| + 1], m);
  }

  /** Otherwise the target is absent. */
  lemma DivergesOut(store: Store, ptr: int, before: nat, copath: seq<ParentNode>, node: ParentNode, target: Index,
                    m: Contents)
    requires Reaches(store, ptr, copath, target, m) && before <= |copath|
    requires |copath| < Height(store[ptr]) && store[ptr].index[|copath|] != target[|copath|]
    requires node == ParentNode(Rollup(store[ptr], |copath| + 1), Some(ptr))
            && Sibling(store[ptr], |copath|).ptr == None
    ensures StepOutcome(store, ptr, before, copath + [node], Failed(copath + [node]), target, m)
  {
    Diverge(store, ptr, copath, target, m);
    CopathNext(store, copath, node, target, m);
    AbsentBelowEmpty(m, target, |copath| + 1);
  }

  lemma ExhaustedOutcome(store: Store, ptr: int, before: nat, copath: seq<ParentNode>, target: Index, m: Contents)
    requires Reaches(store, ptr, copath, target, m)
    requires |copath| >= |store[ptr].copath| && store[ptr].leaf.None?
    ensures StepOutcome(store, ptr, before, copath, Failed(copath), target, m)
  {
    assert store[ptr].index[..|copath|] == target[..|copath|];
    AbsentBelowEmpty(m, target, |copath|);
  }

  lemma ProperlyShorter(target: Index, index: Index, depth: nat)
    requires depth <= INDEX_BITS && Above(target[..depth], index) && target != index
    ensures depth < INDEX_BITS
  {}

  /** `step`: walk along one entry until the target is found, lost or another entry takes over. */
  method Step(target: Index, currentPtr: int, currentCopath: seq<ParentNode>, cached: CachedLogEntry,
              ghost store: Store, ghost m: Contents)
    returns (r: StepResult, copath: seq<ParentNode>)
    requires cached.Valid() && currentPtr in store && store[currentPtr] == cached.inner
    requires Reaches(store, currentPtr, currentCopath, target, m)
    modifies cached
    ensures cached.Valid()
    ensures StepOutcome(store, currentPtr, |currentCopath|, copath, r, target, m)
  {
    var entry := cached.inner;
    copath := currentCopath;
    if entry.leaf.Some? && entry.index == target {
      FoundCopath(store, currentPtr, copath, target, m);
      var merged := CombineCopaths(copath, entry.copath);
      return Found(entry.(copath := merged)), copath;
    }
    while true
      invariant cached.Valid()
      invariant Reaches(store, currentPtr, copath, target, m)
      invariant |currentCopath| <= |copath|
      decreases INDEX_BITS - |copath|
    {
      var depth := |copath|;
      if depth < |entry.copath| {
        var parent := entry.copath[depth];
        if entry.index[depth] == target[depth] {
          Follow(store, currentPtr, copath, target, m);
          copath := copath + [parent];
        } else {
          var hash := cached.RollupCached(depth + 1);
          var node := ParentNode(hash, Some(currentPtr));
          match parent.ptr {
            case Some(next) =>
              DivergesOn(store, currentPtr, |currentCopath|, copath, node, next, target, m);
              return Continue(next), copath + [node];
            case None =>
              DivergesOut(store, currentPtr, |currentCopath|, copath, node, target, m);
              return Failed(copath + [node]), copath + [node];
          }
        }
      } else if entry.leaf.None? {
        ExhaustedOutcome(store, currentPtr, |currentCopath|, copath, target, m);
        return Failed(copath), copath;
      } else {
        ProperlyShorter(target, entry.index, depth);
        if entry.index[depth] == target[depth] {
          Follow(store, currentPtr, copath, target, m);
          copath := copath + [ParentNode(Zero, None)];
        } else {
          var hash := cached.RollupCached(depth + 1);
          var node := ParentNode(hash, Some(currentPtr));
          DivergesOut(store, currentPtr, |currentCopath|, copath, node, target, m);
          return Failed(copath + [node]), copath + [node];
        }
      }
    }
  }

  /** Every cached entry is the stored one, with a sound hash cache. */
  ghost predicate CacheOk(cache: map<int, CachedLogEntry>, store: Store)
    reads cache.Values
  {
    forall p :: p in cache ==> p in store && cache[p].inner == store[p] && cache[p].Valid()
  }

  ghost predicate WellFormed(store: Store) {
    forall p :: p in store ==> |store[p].copath| <= INDEX_BITS
  }

  /** The map after inserting the first `n` of `entries` in order. */
  function Insert(m: Contents, entries: seq<(Index, Commitment)>, n: nat): (m': Contents)
    requires n <= |entries|
  {
    if n == 0 then m else With(Insert(m, entries, n - 1), entries[n - 1].0, entries[n - 1].1)
  }

  /** A new entry whose copath lists the siblings of its path stands for the updated map. */
  lemma NewEntryRepresents(store: Store, store': Store, pos: int, copath: seq<ParentNode>, index: Index, c: Commitment,
                           m: Contents)
    requires CopathOf(store, copath, index, m) && PrefixProofs.BareBelow(m, index, |copath|)
    requires Extends(store, store') && pos in store' && store'[pos] == LogEntry(index, copath, Some(c))
    ensures RootOf(store', pos, With(m, index, c))
    ensures Rollup(store'[pos], 0) == Root(With(m, index, c))
  {
    var e := store'[pos];
    var m' := With(m, index, c);
    forall k | 0 <= k < INDEX_BITS ensures PointsAt(store', e, k, m') {
      var p := SiblingPath(index, k);
      forall key: Index | Above(p, key) ensures SameAt(m, m', key) {}
      if k < |copath| {
        assert Points(store, copath[k], p, m);
      }
      PointsFrame(store, store', Sibling(e, k), p, m, m');
    }
    RepresentsIntro(store', pos, 0, m');
    RollupIsNodeHash(store', pos, 0, 0, m');
  }

  /** Below the first empty node of a path there is no sibling either. */
  lemma BareBelowEmpty(m: Contents, key: Index, depth: nat)
    requires depth <= INDEX_BITS && !Occupied(m, key[..depth])
    ensures PrefixProofs.BareBelow(m, key, depth)
  {
    forall k | depth <= k < INDEX_BITS ensures !Occupied(m, SiblingPath(key, k)) {
      AboveSibling(key, depth, k);
      if Occupied(m, SiblingPath(key, k)) { OccupiedAbove(m, key[..depth], SiblingPath(key, k)); }
    }
  }

  function Hashes(copath: seq<ParentNode>): (hs: seq<Digest>)
    ensures |hs| == |copath| && forall k :: 0 <= k < |hs| ==> hs[k] == copath[k].hash
  {
    seq(|copath|, k requires 0 <= k < |copath| => copath[k].hash)
  }

  lemma HashesAreValues(store: Store, copath: seq<ParentNode>, target: Index, m: Contents)
    requires CopathOf(store, copath, target, m)
    ensures SiblingValues(m, target, Hashes(copath))
  {
    forall k | 0 <= k < |copath| ensures Hashes(copath)[k] == NodeHash(m, SiblingPath(target, k)) {
      assert Points(store, copath[k], SiblingPath(target, k), m);
    }
  }

  /** The positions that a batch of `n` insertions takes. */
  function Positions(start: int, n: nat): (ps: set<int>)
    ensures forall p :: p in ps <==> start <= p < start + n
  {
    set p {:trigger p - start} | start <= p < start + n
  }

  /** The sparse Merkle root after each of the first `n` insertions. */
  function RootsAfter(m: Contents, entries: seq<(Index, Commitment)>, n: nat): (roots: seq<Digest>)
    requires n <= |entries|
    ensures |roots| == n && forall j :: 0 <= j < n ==> roots[j] == Root(Insert(m, entries, j + 1))
  {
    if n == 0 then [] else RootsAfter(m, entries, n - 1) + [Root(Insert(m, entries, n))]
  }

  /** The versions after the first `n` insertions, the one made by insertion `i` at `start + i`. */
  function VersionsAfter(vs: map<int, Contents>, m: Contents, start: int, entries: seq<(Index, Commitment)>, n: nat)
    : (vs': map<int, Contents>)
    requires n <= |entries|
  {
    if n == 0 then vs
    else VersionsAfter(vs, m, start, entries, n - 1)[start + n - 1 := Insert(m, entries, n)]
  }

  lemma NextVersion(vs: map<int, Contents>, m: Contents, start: int, entries: seq<(Index, Commitment)>, n: nat)
    requires n < |entries|
    ensures var m' := With(Insert(m, entries, n), entries[n].0, entries[n].1);
            && Insert(m, entries, n + 1) == m'
            && VersionsAfter(vs, m, start, entries, n + 1) == VersionsAfter(vs, m, start, entries, n)[start + n := m']
            && RootsAfter(m, entries, n + 1) == RootsAfter(m, entries, n) + [Root(m')]
  {}

  /** A batch keeps every earlier version and makes one per insertion. */
  lemma {:induction false} VersionsAt(vs: map<int, Contents>, m: Contents, start: int,
                                      entries: seq<(Index, Commitment)>, n: nat, p: int)
    requires n <= |entries| && forall q :: q in vs ==> q < start
    ensures var vs' := VersionsAfter(vs, m, start, entries, n);
            && (p in vs' <==> p in vs || start <= p < start + n)
            && (p in vs ==> vs'[p] == vs[p])
            && (start <= p < start + n ==> vs'[p] == Insert(m, entries, p - start + 1))
  {
    if n > 0 { VersionsAt(vs, m, start, entries, n - 1, p); }
  }

  /** The keys of a map after insertions: those it had and those inserted. */
  lemma {:induction false} InsertedKeys(m: Contents, entries: seq<(Index, Commitment)>, n: nat, key: Index)
    requires n <= |entries|
    ensures key in Insert(m, entries, n) <==> key in m || exists i :: 0 <= i < n && entries[i].0 == key
    decreases n
  {
    if n > 0 { InsertedKeys(m, entries, n - 1, key); }
  }

  lemma {:induction false} InsertPrefix(m: Contents, a: seq<(Index, Commitment)>, b: seq<(Index, Commitment)>, n: nat)
    requires n <= |a|
    ensures Insert(m, a + b, n) == Insert(m, a, n)
  {
    if n > 0 { InsertPrefix(m, a, b, n - 1); }
  }

  lemma {:induction false} InsertSplit(m: Contents, a: seq<(Index, Commitment)>, b: seq<(Index, Commitment)>, n: nat)
    requires n <= |b|
    ensures Insert(m, a + b, |a| + n) == Insert(Insert(m, a, |a|), b, n)
    decreases n
  {
    if n == 0 { InsertPrefix(m, a, b, |a|); } else { InsertSplit(m, a, b, n - 1); }
  }

  lemma {:induction false} VersionsPrefix(vs: map<int, Contents>, m: Contents, start: int, a: seq<(Index, Commitment)>,
                                          b: seq<(Index, Commitment)>, n: nat)
    requires n <= |a|
    ensures VersionsAfter(vs, m, start, a + b, n) == VersionsAfter(vs, m, start, a, n)
    ensures RootsAfter(m, a + b, n) == RootsAfter(m, a, n)
  {
    if n > 0 {
      VersionsPrefix(vs, m, start, a, b, n - 1);
      InsertPrefix(m, a, b, n);
    }
  }

  /** Splitting a batch changes nothing: the same roots, the same versions at the same positions. */
  lemma {:induction false} BatchSplit(vs: map<int, Contents>, m: Contents, start: int, a: seq<(Index, Commitment)>,
                                      b: seq<(Index, Commitment)>, n: nat)
    requires n <= |b|
    ensures var mid := Insert(m, a, |a|);
            && VersionsAfter(vs, m, start, a + b, |a| + n)
               == VersionsAfter(VersionsAfter(vs, m, start, a, |a|), mid, start + |a|, b, n)
            && RootsAfter(m, a + b, |a| + n) == RootsAfter(m, a, |a|) + RootsAfter(mid, b, n)
    decreases n
  {
    if n == 0 {
      VersionsPrefix(vs, m, start, a, b, |a|);
    } else {
      BatchSplit(vs, m, start, a, b, n - 1);
      InsertSplit(m, a, b, n);
    }
  }

  /** The entry at `ptr` is the root of a tree over `m`. */
  ghost predicate RootOf(store: Store, ptr: int, m: Contents) {
    StandsFor(store, ptr, [], m)
  }

  /** Every position of `versions` is the root of its own version. */
  ghost predicate AllRoots(store: Store, versions: map<int, Contents>) {
    forall p :: p in versions ==> RootOf(store, p, versions[p])
  }

  /** `m` is the map under the root pointer `ptr`; without one the tree is empty. */
  ghost predicate Current(versions: map<int, Contents>, ptr: Option<int>, m: Contents) {
    match ptr
    case Some(p) => p in versions && versions[p] == m
    case None => m == map[]
  }

  /** A batch has written one entry per insertion, each with its index and leaf. */
  ghost predicate Written(store: Store, start: int, entries: seq<(Index, Commitment)>, n: nat)
    requires n <= |entries|
    decreases n
  {
    n == 0 || (Written(store, start, entries, n - 1) && LeafWritten(store, start + n - 1, entries[n - 1].0))
  }

  ghost predicate LeafWritten(store: Store, pos: int, index: Index) {
    pos in store && store[pos].index == index && store[pos].leaf.Some?
  }

  /** One entry has joined the store. */
  ghost predicate OneMore(store: Store, store': Store, pos: int, index: Index) {
    Extends(store, store') && LeafWritten(store', pos, index)
  }

  lemma {:induction false} WrittenKept(store: Store, store': Store, start: int, entries: seq<(Index, Commitment)>,
                                       n: nat)
    requires n <= |entries| && Written(store, start, entries, n) && Extends(store, store')
    ensures Written(store', start, entries, n)
    decreases n
  {
    if n > 0 { WrittenKept(store, store', start, entries, n - 1); }
  }

  lemma WrittenNext(store: Store, store': Store, start: int, entries: seq<(Index, Commitment)>, n: nat)
    requires n < |entries| && Written(store, start, entries, n) && OneMore(store, store', start + n, entries[n].0)
    ensures Written(store', start, entries, n + 1)
  {
    WrittenKept(store, store', start, entries, n);
  }

  lemma {:induction false} WrittenAt(store: Store, start: int, entries: seq<(Index, Commitment)>, n: nat, pos: int)
    requires n <= |entries| && Written(store, start, entries, n) && start <= pos < start + n
    ensures LeafWritten(store, pos, entries[pos - start].0)
    decreases n
  {
    if pos < start + n - 1 { WrittenAt(store, start, entries, n - 1, pos); }
  }

  /** What a batch has done after `n` of its rounds. */
  ghost predicate Rounds(full: Store, versions: map<int, Contents>, positions: set<int>, roots: seq<Digest>,
                         currentPtr: Option<int>, first: Option<int>, vs: map<int, Contents>, m: Contents,
                         start: int, entries: seq<(Index, Commitment)>, n: nat)
    requires n <= |entries|
  {
    && positions == Positions(start, n) && roots == RootsAfter(m, entries, n) && Written(full, start, entries, n)
    && versions == VersionsAfter(vs, m, start, entries, n) && Current(versions, currentPtr, Insert(m, entries, n))
    && currentPtr == if n == 0 then first else Some(start + n - 1)
  }

  class PrefixTree {
    var store: Store
    var nodeCache: map<int, CachedLogEntry>
    /** The store with the entries of a batch in progress. */
    ghost var full: Store
    /** The map that each position, pending ones included, is the root of. */
    ghost var versions: map<int, Contents>

    ghost predicate Valid()
      reads this, nodeCache.Values
    {
      && WellFormed(store) && CacheOk(nodeCache, store)
      && Extends(store, full) && AllRoots(full, versions)
    }

    constructor ()
      ensures Valid() && store == full == map[] && versions == map[] && nodeCache == map[]
    {
      store, nodeCache, full, versions := map[], map[], map[], map[];
    }

    /** The shared cache is bounded: an insertion may drop any other entries. */
    method CacheInsert(ptr: int, c: CachedLogEntry)
      requires CacheOk(nodeCache, store) && ptr in store && c.inner == store[ptr] && c.Valid()
      modifies this`nodeCache
      ensures CacheOk(nodeCache, store)
      ensures nodeCache.Values <= old(nodeCache.Values) + {c}
    {
      var evicted: set<int> := *;
      nodeCache := nodeCache[ptr := c] - evicted;
    }

    /** Searches of a batch in progress see its entries through the overlay. */
    ghost predicate Ready(overlay: map<int, CachedLogEntry>)
      reads this, nodeCache.Values, overlay.Values
    {
      Valid() && CacheOk(overlay, full) && full.Keys == store.Keys + overlay.Keys
    }

    /** `get_entry`: overlay, then cache, then store. */
    method GetEntry(ptr: int, overlay: map<int, CachedLogEntry>) returns (r: Result<CachedLogEntry>)
      requires Ready(overlay)
      modifies this`nodeCache
      ensures Ready(overlay)
      ensures r.Ok? <==> ptr in full
      ensures r.Ok? ==> r.value.Valid() && r.value.inner == full[ptr]
      ensures r.Ok? ==> r.value in old(nodeCache.Values) || r.value in overlay.Values || fresh(r.value)
      ensures forall c :: c in nodeCache.Values ==> c in old(nodeCache.Values) || fresh(c)
    {
      if ptr in overlay {
        return Ok(overlay[ptr]);
      }
      if ptr in nodeCache {
        return Ok(nodeCache[ptr]);
      }
      if ptr !in store {
        return Err;
      }
      var cached := new CachedLogEntry(store[ptr]);
      CacheInsert(ptr, cached);
      return Ok(cached);
    }

    /** One round of a search: fetch the entry at `curr` and step along it. */
    method Advance(curr: int, copath: seq<ParentNode>, index: Index, overlay: map<int, CachedLogEntry>,
                   ghost m: Contents)
      returns (r: Result<(StepResult, LogEntry)>, walked: seq<ParentNode>)
      requires Ready(overlay)
      requires Reaches(full, curr, copath, index, m)
      modifies this`nodeCache, nodeCache.Values, overlay.Values
      ensures Ready(overlay)
      ensures forall c :: c in nodeCache.Values ==> c in old(nodeCache.Values) || fresh(c)
      ensures r.Ok? && r.value.1 == full[curr]
      ensures StepOutcome(full, curr, |copath|, walked, r.value.0, index, m)
    {
      var got := GetEntry(curr, overlay);
      if got.Err? {
        return Err, copath;
      }
      var step;
      step, walked := Step(index, curr, copath, got.value, full, m);
      return Ok((step, got.value.inner)), walked;
    }

    /**
     * `search_for_proof`: from any position that stands for `m`, the walk ends, never misses an
     * entry, and its outcome is the honest answer about `m`.
     */
    method SearchForProof(ptr: int, index: Index, overlay: map<int, CachedLogEntry>, ghost m: Contents)
      returns (r: Result<ProofResult>)
      requires Ready(overlay)
      requires RootOf(full, ptr, m)
      modifies this`nodeCache, nodeCache.Values, overlay.Values
      ensures Ready(overlay)
      ensures forall c :: c in nodeCache.Values ==> c in old(nodeCache.Values) || fresh(c)
      ensures r.Ok? && Answers(m, index, r.value)
    {
      var curr := ptr;
      var copath: seq<ParentNode> := [];
      while true
        invariant Ready(overlay)
        invariant forall c :: c in nodeCache.Values ==> c in old(nodeCache.Values) || fresh(c)
        invariant Reaches(full, curr, copath, index, m)
        decreases INDEX_BITS - |copath|
      {
        var got, walked := Advance(curr, copath, index, overlay, m);
        if got.Err? {
          return Err;
        }
        var (step, entry) := got.value;
        copath := walked;
        match step {
          case Continue(next) =>
            curr := next;
          case Found(final) =>
            HashesAreValues(full, final.copath, index, m);
            return Ok(ProofResult(Hashes(final.copath), final.leaf, SearchResult(INCLUSION, None, |final.copath|)));
          case Failed(failed) =>
            HashesAreValues(full, failed, index, m);
            var result := match entry.leaf
              case Some(c) => SearchResult(NON_INCLUSION_LEAF, Some(Leaf(entry.index, c)), |failed|)
              case None => SearchResult(NON_INCLUSION_EMPTY, None, |failed|);
            return Ok(ProofResult(Hashes(failed), None, result));
        }
      }
    }

    /** The siblings that the path of `index` has in `m`, collected by walking from `ptr`. */
    method CollectCopath(ptr: int, index: Index, overlay: map<int, CachedLogEntry>, ghost m: Contents)
      returns (r: Result<seq<ParentNode>>)
      requires Ready(overlay)
      requires RootOf(full, ptr, m)
      modifies this`nodeCache, nodeCache.Values, overlay.Values
      ensures Ready(overlay)
      ensures forall c :: c in nodeCache.Values ==> c in old(nodeCache.Values) || fresh(c)
      ensures r.Ok? && CopathOf(full, r.value, index, m)
      ensures PrefixProofs.BareBelow(m, index, |r.value|)
    {
      var curr := ptr;
      var copath: seq<ParentNode> := [];
      while true
        invariant Ready(overlay)
        invariant forall c :: c in nodeCache.Values ==> c in old(nodeCache.Values) || fresh(c)
        invariant Reaches(full, curr, copath, index, m)
        decreases INDEX_BITS - |copath|
      {
        var got, walked := Advance(curr, copath, index, overlay, m);
        if got.Err? {
          return Err;
        }
        copath := walked;
        match got.value.0 {
          case Continue(next) =>
            curr := next;
          case Found(final) =>
            return Ok(final.copath);
          case Failed(failed) =>
            BareBelowEmpty(m, index, |failed|);
            return Ok(failed);
        }
      }
    }

    /** `insert_internal`: the new entry, which stands for the updated map, and its root value. */
    method InsertInternal(newPos: int, currentPtr: Option<int>, index: Index, commitment: Commitment,
                          overlay: map<int, CachedLogEntry>, ghost m: Contents)
      returns (r: Result<(Digest, CachedLogEntry)>)
      requires Ready(overlay)
      requires newPos !in full
      requires match currentPtr case Some(ptr) => RootOf(full, ptr, m) case None => m == map[]
      modifies this`nodeCache, nodeCache.Values, overlay.Values
      ensures Ready(overlay)
      ensures forall c :: c in nodeCache.Values ==> c in old(nodeCache.Values) || fresh(c)
      ensures r.Ok? && fresh(r.value.1) && r.value.1.Valid()
      ensures r.value.0 == Root(With(m, index, commitment))
      ensures r.value.1.inner.index == index && r.value.1.inner.leaf.Some?
      ensures RootOf(full[newPos := r.value.1.inner], newPos, With(m, index, commitment))
    {
      var copath: seq<ParentNode> := [];
      if currentPtr.Some? {
        var got := CollectCopath(currentPtr.value, index, overlay, m);
        if got.Err? {
          return Err;
        }
        copath := got.value;
      }
      var entry := LogEntry(index, copath, Some(commitment));
      NewEntryRepresents(full, full[newPos := entry], newPos, copath, index, commitment, m);
      var cached := new CachedLogEntry(entry);
      var root := cached.RollupCached(0);
      return Ok((root, cached));
    }

    /** A new entry joins the batch: later rounds see it through the overlay. */
    method AddPending(pos: int, cached: CachedLogEntry, overlay: map<int, CachedLogEntry>, written: Store,
                      ghost m: Contents)
      returns (overlay': map<int, CachedLogEntry>, written': Store)
      requires Ready(overlay) && written == full && pos !in full
      requires cached.Valid() && cached.inner.leaf.Some? && RootOf(full[pos := cached.inner], pos, m)
      modifies this`full, this`versions
      ensures Ready(overlay') && overlay'.Keys == overlay.Keys + {pos}
      ensures forall c :: c in overlay'.Values ==> c in overlay.Values || c == cached
      ensures written' == full && OneMore(old(full), full, pos, cached.inner.index)
      ensures versions == old(versions)[pos := m]
    {
      AddVersion(full, full[pos := cached.inner], versions, pos, m);
      versions := versions[pos := m];
      overlay' := overlay[pos := cached];
      written' := written[pos := cached.inner];
      full := written';
    }

    /** One round of `batch_insert`: insertion `i` adds one entry and one version. */
    method InsertNth(start: int, entries: seq<(Index, Commitment)>, i: nat, currentPtr: Option<int>,
                     overlay: map<int, CachedLogEntry>, written: Store, ghost m: Contents, ghost vs: map<int, Contents>)
      returns (r: Result<Digest>, overlay': map<int, CachedLogEntry>, written': Store)
      requires i < |entries| && Ready(overlay) && written == full && start + i !in full
      requires Current(versions, currentPtr, Insert(m, entries, i))
      requires versions == VersionsAfter(vs, m, start, entries, i)
      modifies this`nodeCache, this`full, this`versions, nodeCache.Values, overlay.Values
      ensures Ready(overlay') && written' == full
      ensures forall c :: c in nodeCache.Values ==> c in old(nodeCache.Values) || fresh(c)
      ensures forall c :: c in overlay'.Values ==> c in overlay.Values || fresh(c)
      ensures overlay'.Keys == overlay.Keys + {start + i}
      ensures r.Ok? && r.value == Root(Insert(m, entries, i + 1))
      ensures versions == VersionsAfter(vs, m, start, entries, i + 1)
      ensures OneMore(old(full), full, start + i, entries[i].0)
      ensures Current(versions, Some(start + i), Insert(m, entries, i + 1))
    {
      ghost var mi := Insert(m, entries, i);
      CurrentIsRoot(full, versions, currentPtr, mi);
      var got := InsertInternal(start + i, currentPtr, entries[i].0, entries[i].1, overlay, mi);
      if got.Err? {
        return Err, overlay, written;
      }
      NextVersion(vs, m, start, entries, i);
      overlay', written' := AddPending(start + i, got.value.1, overlay, written, Insert(m, entries, i + 1));
      return Ok(got.value.0), overlay', written';
    }

    /** The rest of a round: the caller's list of roots and its current pointer move on. */
    method InsertRound(start: int, entries: seq<(Index, Commitment)>, i: nat, currentPtr: Option<int>,
                       roots: seq<Digest>, overlay: map<int, CachedLogEntry>, written: Store, ghost first: Option<int>,
                       ghost m: Contents, ghost vs: map<int, Contents>)
      returns (r: Result<(seq<Digest>, Option<int>)>, overlay': map<int, CachedLogEntry>, written': Store)
      requires i < |entries| && Ready(overlay) && written == full && start + i !in full
      requires Rounds(full, versions, overlay.Keys, roots, currentPtr, first, vs, m, start, entries, i)
      modifies this`nodeCache, this`full, this`versions, nodeCache.Values, overlay.Values
      ensures Ready(overlay') && written' == full
      ensures forall c :: c in nodeCache.Values ==> c in old(nodeCache.Values) || fresh(c)
      ensures forall c :: c in overlay'.Values ==> c in overlay.Values || fresh(c)
      ensures r.Ok? && Rounds(full, versions, overlay'.Keys, r.value.0, r.value.1, first, vs, m, start, entries, i + 1)
    {
      var got;
      got, overlay', written' := InsertNth(start, entries, i, currentPtr, overlay, written, m, vs);
      if got.Err? {
        return Err, overlay', written';
      }
      WrittenNext(old(full), full, start, entries, i);
      NextPosition(start, i);
      return Ok((roots + [got.value], Some(start + i))), overlay', written';
    }

    /** The loop of `batch_insert`, up to but not including the write to the store. */
    method InsertAll(start: int, currentRootPtr: Option<int>, entries: seq<(Index, Commitment)>, ghost m: Contents)
      returns (r: Result<(seq<Digest>, Option<int>)>, overlay: map<int, CachedLogEntry>, written: Store)
      requires Valid() && full == store
      requires forall p :: p in store ==> p < start
      requires Current(versions, currentRootPtr, m)
      modifies this`nodeCache, this`full, this`versions, nodeCache.Values
      ensures Ready(overlay) && written == full
      ensures forall c :: c in nodeCache.Values ==> c in old(nodeCache.Values) || fresh(c)
      ensures forall c :: c in overlay.Values ==> fresh(c)
      ensures r.Ok? && Rounds(full, versions, overlay.Keys, r.value.0, r.value.1, currentRootPtr, old(versions), m,
                              start, entries, |entries|)
    {
      var currentPtr := currentRootPtr;
      var roots: seq<Digest> := [];
      overlay, written := map[], store;
      for i := 0 to |entries|
        invariant Ready(overlay) && full == written
        invariant forall c :: c in nodeCache.Values ==> c in old(nodeCache.Values) || fresh(c)
        invariant forall c :: c in overlay.Values ==> fresh(c)
        invariant Rounds(full, versions, overlay.Keys, roots, currentPtr, currentRootPtr, old(versions), m, start,
                         entries, i)
      {
        var got;
        got, overlay, written :=
          InsertRound(start, entries, i, currentPtr, roots, overlay, written, currentRootPtr, m, old(versions));
        if got.Err? {
          return Err, overlay, written;
        }
        roots, currentPtr := got.value.0, got.value.1;
      }
      return Ok((roots, currentPtr)), overlay, written;
    }

    /**
     * `batch_insert`: one new version per inserted pair. Each returned root is the sparse Merkle
     * root of the map so far, the last position is the root of the final map, every new position
     * is the root of its own version and every earlier position keeps standing for its own.
     */
    method BatchInsert(startVersion: int, currentRootPtr: Option<int>, entries: seq<(Index, Commitment)>,
                       ghost m: Contents)
      returns (r: Result<(seq<Digest>, int)>)
      requires Valid() && full == store
      requires forall p :: p in store ==> p < startVersion
      requires Current(versions, currentRootPtr, m)
      modifies this, nodeCache.Values
      ensures Valid() && full == store
      ensures forall c :: c in nodeCache.Values ==> c in old(nodeCache.Values) || fresh(c)
      ensures r.Ok? && r.value.0 == RootsAfter(m, entries, |entries|)
      ensures versions == VersionsAfter(old(versions), m, startVersion, entries, |entries|)
      ensures Extends(old(store), store) && Written(store, startVersion, entries, |entries|)
      ensures store.Keys == old(store.Keys) + Positions(startVersion, |entries|)
      ensures r.value.1 == if entries != [] then startVersion + |entries| - 1
                           else if currentRootPtr.Some? then currentRootPtr.value else 0
    {
      var got, overlay, written := InsertAll(startVersion, currentRootPtr, entries, m);
      if got.Err? {
        return Err;
      }
      PutBatch(written, overlay, startVersion, |entries|);
      var (roots, lastPtr) := got.value;
      return Ok((roots, if lastPtr.Some? then lastPtr.value else 0));
    }

    /** The end of `batch_insert`: the batch is stored and moves into the shared cache with its hashes. */
    method PutBatch(written: Store, overlay: map<int, CachedLogEntry>, start: int, n: nat)
      requires Ready(overlay) && written == full && WellFormed(full)
      requires overlay.Keys == Positions(start, n)
      modifies this`store, this`nodeCache
      ensures Valid() && store == full
      ensures nodeCache.Values <= old(nodeCache.Values) + overlay.Values
    {
      store := written;
      for i := 0 to n
        invariant Valid() && store == full
        invariant nodeCache.Values <= old(nodeCache.Values) + overlay.Values
      {
        CacheInsert(start + i, overlay[start + i]);
      }
    }
  }

  lemma NextPosition(start: int, n: nat)
    ensures Positions(start, n + 1) == Positions(start, n) + {start + n}
  {}

  /** Appending entries changes no earlier version. */
  lemma KeepVersions(store: Store, store': Store, versions: map<int, Contents>)
    requires Extends(store, store') && AllRoots(store, versions)
    ensures AllRoots(store', versions)
  {
    forall p | p in versions ensures RootOf(store', p, versions[p]) {
      assert RootOf(store, p, versions[p]);
      RepresentsFrame(store, store', p, 0, versions[p], versions[p]);
    }
  }

  lemma RootsStored(store: Store, versions: map<int, Contents>)
    requires AllRoots(store, versions)
    ensures versions.Keys <= store.Keys
  {
    forall p | p in versions ensures p in store { assert RootOf(store, p, versions[p]); }
  }

  lemma CurrentIsRoot(store: Store, versions: map<int, Contents>, ptr: Option<int>, m: Contents)
    requires AllRoots(store, versions) && Current(versions, ptr, m)
    ensures match ptr case Some(p) => RootOf(store, p, m) case None => m == map[]
  {}

  lemma AddVersion(store: Store, store': Store, versions: map<int, Contents>, p: int, m: Contents)
    requires Extends(store, store') && AllRoots(store, versions) && RootOf(store', p, m)
    ensures AllRoots(store', versions[p := m])
  {
    KeepVersions(store, store', versions);
  }
}
