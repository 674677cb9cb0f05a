/** The log tree over its store (src/tree/log.rs, LogTree). */
module StoredLog {
  import opened Digests
  import opened LogMath
  import opened LogTree
  import opened LogStore

  type ChunkMap = map<int, seq<Digest>>

  /** A log entry: its timestamp and prefix root. */
  type Entry = (nat, Digest)

  function LeavesOf(entries: seq<Entry>): (leaves: Leaves)
    ensures |leaves| == |entries|
    ensures forall i :: 0 <= i < |entries| ==> leaves[i] == LogLeaf(entries[i].0, entries[i].1)
  {
    seq(|entries|, i requires 0 <= i < |entries| => LogLeaf(entries[i].0, entries[i].1))
  }

  function ChunkData(leaves: Leaves, c: nat): (data: Leaves)
    ensures |data| == if 8 * c >= |leaves| then 0 else if 8 * c + 8 <= |leaves| then 8 else |leaves| - 8 * c
    ensures forall t :: 0 <= t < |data| ==> data[t] == leaves[8 * c + t]
  {
    if 8 * c >= |leaves| then []
    else if 8 * c + 8 <= |leaves| then leaves[8 * c..8 * c + 8]
    else leaves[8 * c..]
  }

  /** Chunk c is stored when it has leaves, with those. */
  predicate ChunkStored(store: ChunkMap, leaves: Leaves, c: nat, x: int) {
    if 8 * c < |leaves| then x in store && store[x] == ChunkData(leaves, c) else x !in store
  }

  ghost predicate StoreHolds(store: ChunkMap, leaves: Leaves) {
    && (forall x :: x in store ==> x >= 0 && Level(x) == 3)
    && (forall c: nat :: ChunkStored(store, leaves, c, Id(3, c)))
  }

  // ---- reading ----

  /** Values below a chunk are those of the log, shifted to the chunk's first leaf. */
  lemma {:induction false} ShiftedValue(leaves: Leaves, data: Leaves, off: nat, k: nat, j: nat, i: nat)
    requires First(k, j) == off + First(k, i) && Complete(k, i, |data|)
    requires off + |data| <= |leaves| && forall t :: 0 <= t < |data| ==> data[t] == leaves[off + t]
    ensures Present(k, j, |leaves|) && Present(k, i, |data|)
    ensures NodeValue(leaves, k, j) == NodeValue(data, k, i)
    decreases k
  {
    FirstStep(k, j);
    FirstStep(k, i);
    CompleteFirst(k, i, |data|);
    CompleteFirst(k, j, |leaves|);
    CompleteIsPresent(k, i, |data|);
    CompleteIsPresent(k, j, |leaves|);
    if k > 0 {
      FirstStep(k - 1, 2 * j);
      FirstStep(k - 1, 2 * i);
      CompleteChildren(k, i, |data|);
      CompleteChildren(k, j, |leaves|);
      ShiftedValue(leaves, data, off, k - 1, 2 * j, 2 * i);
      ShiftedValue(leaves, data, off, k - 1, 2 * j + 1, 2 * i + 1);
    }
  }

  /** A node below level 3 lies in the chunk of its ancestor there. */
  lemma {:induction false} InChunk(k: nat, j: nat) returns (c: nat, i: nat)
    requires k <= 3
    ensures c == Shift(j, 3 - k) && i < Pow2(3 - k)
    ensures First(k, j) == 8 * c + First(k, i) && Id(k, j) == 16 * c + Id(k, i)
    ensures IndexOf(Id(3, c)) == c
  {
    c := Shift(j, 3 - k);
    RemSplit(j, 3 - k);
    i := Rem(j, 3 - k);
    FirstFormula(3 - k, c);
    FirstFormula(k, j);
    FirstFormula(k, i);
    IdFirst(k, j);
    IdFirst(k, i);
    IdCoordinates(3, c);
    Powers();
  }

  lemma ReadSlot(chunk: NodeChunk, data: Leaves, k: nat, i: nat)
    requires chunk.Valid() && chunk.Computed(data)
    requires k <= 3 && i < Pow2(3 - k)
    ensures Id(k, i) < 15 && chunk.nodes[Id(k, i)] == Slot(data, k, i)
  {
    Powers();
    IdFormula(k, i);
    if k == 0 { LeafSlot(data, i); }
  }

  lemma LeafSlot(data: Leaves, i: nat)
    ensures Slot(data, 0, i) == if i < |data| then Some(data[i]) else None
  {
  }

  /** What its chunk has of a node: the value at the log's own size, once the node is complete. */
  function InStore(leaves: Leaves, k: nat, j: nat): (v: Option<Digest>) {
    if k > 3 || !Complete(k, j, |leaves|) then None
    else CompleteIsPresent(k, j, |leaves|); Some(NodeValue(leaves, k, j))
  }

  /** Reading a node for a tree of n leaves: what its chunk has, or the hash of its children in that tree. */
  function Read(leaves: Leaves, n: nat, k: nat, j: nat): (r: Result<Digest>)
    decreases k, leaves
  {
    if InStore(leaves, k, j).Some? then Ok(InStore(leaves, k, j).value)
    else if k == 0 then Err
    else
      var left := Read(leaves, n, k - 1, 2 * j);
      if RightIndex(k - 1, j, n) == 2 * j || left.Err? then left
      else
        var right :- Read(leaves, n, k - 1, 2 * j + 1);
        Ok(LogNode(left.value, k == 1, right, k == 1))
  }

  lemma {:induction false} ReadInner(leaves: Leaves, n: nat, k: nat, j: nat)
    requires k > 0 && InStore(leaves, k, j).None?
    ensures Read(leaves, n, k, j) ==
            if RightIndex(k - 1, j, n) == 2 * j || Read(leaves, n, k - 1, 2 * j).Err?
            then Read(leaves, n, k - 1, 2 * j)
            else if Read(leaves, n, k - 1, 2 * j + 1).Err? then Err
            else
              Ok(LogNode(Read(leaves, n, k - 1, 2 * j).value, k == 1, Read(leaves, n, k - 1, 2 * j + 1).value, k == 1))
  {}

  /** The coordinates of a node's children in a tree of n leaves. */
  lemma {:induction false} ChildCoordinates(x: nat, k: nat, j: nat, left: nat, right: nat, n: nat)
    requires Level(x) > 0 && k == Level(x) && j == IndexOf(x)
    requires left == LeftChild(x) && right == Id(k - 1, RightIndex(k - 1, j, n))
    ensures Level(left) == Level(right) == k - 1 && IndexOf(left) == 2 * j && IndexOf(right) == RightIndex(k - 1, j, n)
  {
    CoordinatesId(x);
    ChildrenAreBelow(k, j);
    IdCoordinates(k - 1, 2 * j);
    IdCoordinates(k - 1, 2 * j + 1);
  }

  /** A chunk has a node exactly when it is complete. */
  lemma SlotInStore(leaves: Leaves, k: nat, j: nat, c: nat, i: nat)
    requires k <= 3 && i < Pow2(3 - k) && First(k, j) == 8 * c + First(k, i)
    ensures Slot(ChunkData(leaves, c), k, i) == InStore(leaves, k, j)
  {
    var data := ChunkData(leaves, c);
    Powers();
    FirstStep(k, i);
    FirstStep(k, j);
    CompleteFirst(k, i, |data|);
    CompleteFirst(k, j, |leaves|);
    FirstFormula(k, i + 1);
    if Complete(k, i, |data|) {
      CompleteIsPresent(k, i, |data|);
      ShiftedValue(leaves, data, 8 * c, k, j, i);
    }
  }

  /** At the log's own size a node is read with its value, or not at all if it is not there. */
  lemma {:induction false} ReadNow(leaves: Leaves, k: nat, j: nat)
    ensures Read(leaves, |leaves|, k, j) ==
            if Present(k, j, |leaves|) then Ok(NodeValue(leaves, k, j)) else Err
    decreases k
  {
    if InStore(leaves, k, j).Some? {
      CompleteIsPresent(k, j, |leaves|);
    } else if k > 0 {
      PresentLeft(k, j, |leaves|);
      ReadNow(leaves, k - 1, 2 * j);
      ReadNow(leaves, k - 1, 2 * j + 1);
    }
  }

  /** A node's value in a stored chunk. */
  method ReadFrom(cid: nat, data: Leaves, x: nat, ghost k: nat, ghost i: nat) returns (v: Option<Digest>)
    requires Level(cid) == 3 && |data| <= 8 && k <= 3 && i < Pow2(3 - k) && x == 16 * IndexOf(cid) + Id(k, i)
    ensures v == Slot(data, k, i)
  {
    var chunk := new NodeChunk(cid, Some(data));
    ReadSlot(chunk, data, k, i);
    v := chunk.GetValue(x);
  }

  class StoredLog {
    var store: ChunkMap
    var timestamps: map<int, nat>
    var prefixRoots: map<int, Digest>
    /** The entries appended so far. */
    ghost var entries: seq<Entry>

    ghost predicate Valid()
      reads this
    {
      StoreHolds(store, LeavesOf(entries)) && EntriesHeld()
    }

    ghost predicate EntriesHeld()
      reads this
    {
      && (forall i :: i in timestamps <==> 0 <= i < |entries|)
      && (forall i :: i in prefixRoots <==> 0 <= i < |entries|)
      && (forall i :: 0 <= i < |entries| ==> entries[i] == (timestamps[i], prefixRoots[i]))
    }

    constructor ()
      ensures Valid() && entries == []
    {
      store, timestamps, prefixRoots := map[], map[], map[];
      entries := [];
    }

    /** `resolve_node_simple`. */
    method ResolveNode(x: nat, n: nat) returns (r: Result<Digest>)
      requires Valid()
      ensures r == Read(LeavesOf(entries), n, Level(x), IndexOf(x))
      decreases Level(x)
    {
      var v := ReadChunk(x);
      if v.Some? {
        return Ok(v.value);
      }
      if IsLeaf(x) {
        return Err;
      }
      r := ResolveInner(x, n);
    }

    method ReadChunk(x: nat) returns (v: Option<Digest>)
      requires Valid()
      ensures v == InStore(LeavesOf(entries), Level(x), IndexOf(x))
    {
      ghost var leaves, k, j := LeavesOf(entries), Level(x), IndexOf(x);
      CoordinatesId(x);
      var cid := ChunkId(x);
      ghost var c, i := 0, 0;
      if k <= 3 {
        c, i := InChunk(k, j);
        assert ChunkStored(store, leaves, c, Id(3, c));
        SlotInStore(leaves, k, j, c, i);
      }
      if cid !in store {
        return None;
      }
      v := ReadFrom(cid, store[cid], x, k, i);
    }

    method ResolveInner(x: nat, n: nat) returns (r: Result<Digest>)
      requires Valid() && !IsLeaf(x) && InStore(LeavesOf(entries), Level(x), IndexOf(x)).None?
      ensures r == Read(LeavesOf(entries), n, Level(x), IndexOf(x))
      decreases Level(x), 0
    {
      ghost var leaves, k, j := LeavesOf(entries), Level(x), IndexOf(x);
      CoordinatesId(x);
      ChildrenAreBelow(k, j);
      var left := LeftChild(x);
      var right := RightChild(x, n);
      ChildCoordinates(x, k, j, left, right, n);
      ReadInner(leaves, n, k, j);
      var l := ResolveNode(left, n);
      if left == right || l.Err? {
        return l;
      }
      var rv := ResolveNode(right, n);
      if rv.Err? {
        return Err;
      }
      return Ok(LogNode(l.value, IsLeaf(left), rv.value, IsLeaf(right)));
    }

    /** `get_root`; at the log's own size, its root. */
    method GetRoot(n: nat) returns (r: Result<Digest>)
      requires Valid()
      ensures r == if n == 0 then Ok(Zero) else Read(LeavesOf(entries), n, Height(n), 0)
      ensures n == |entries| ==> r == Ok(LogRoot(LeavesOf(entries)))
    {
      if n == 0 {
        return Ok(Zero);
      }
      RootPresent(n);
      MerkleRootIsFirst(n);
      IdCoordinates(Height(n), 0);
      ReadNow(LeavesOf(entries), Height(n), 0);
      r := ResolveNode(MerkleRoot(n), n);
    }

    /** The chunk in the cache, or else the stored one. */
    method LoadChunk(cache: map<int, NodeChunk>, cid: nat, ghost held: map<int, Leaves>, ghost data: Leaves)
      returns (chunk: NodeChunk)
      requires CacheHas(cache, held) && Level(cid) == 3 && |data| <= 8
      requires if cid in held then data == held[cid] else if cid in store then data == store[cid] else data == []
      ensures chunk.Valid() && chunk.chunkRoot == cid && chunk.Holds(data)
      ensures if cid in cache then chunk == cache[cid] else fresh(chunk.nodes)
    {
      if cid in cache {
        return cache[cid];
      }
      chunk := new NodeChunk(cid, if cid in store then Some(store[cid]) else None);
    }

    method AppendLeaf(cache: map<int, NodeChunk>, index: nat, leaf: Digest, ghost held: map<int, Leaves>)
      returns (r: Result<map<int, NodeChunk>>, ghost held': map<int, Leaves>)
      requires CacheHas(cache, held) && Pending(held, store, LeavesOf(entries)) && index == |entries|
      modifies set x | x in cache :: cache[x].nodes
      ensures r.Ok? && CacheHas(r.value, held') && Pending(held', store, LeavesOf(entries) + [leaf])
      ensures forall x :: x in r.value ==> (x in cache && r.value[x] == cache[x]) || fresh(r.value[x].nodes)
    {
      ghost var leaves := LeavesOf(entries);
      ghost var c := LeafChunk(index);
      PendingAt(held, store, leaves, c);
      var cid := ChunkId(2 * index);
      var chunk := LoadChunk(cache, cid, held, ChunkData(leaves, c));
      r := SetInCache(cache, cid, chunk, 2 * index, leaf, held, ChunkData(leaves, c));
      held' := held[cid := ChunkData(leaves, c) + [leaf]];
      PendingNext(held, store, leaves, leaf, c);
    }

    method Record(index: nat, entry: Entry)
      requires EntriesHeld() && index == |entries|
      modifies this
      ensures store == old(store) && entries == old(entries) + [entry] && EntriesHeld()
      ensures LeavesOf(entries) == old(LeavesOf(entries)) + [LogLeaf(entry.0, entry.1)]
    {
      timestamps := timestamps[index := entry.0];
      prefixRoots := prefixRoots[index := entry.1];
      entries := entries + [entry];
    }

    /** One round of the loop of `batch_append`. */
    method AppendEntry(cache: map<int, NodeChunk>, index: nat, entry: Entry, ghost held: map<int, Leaves>)
      returns (r: Result<map<int, NodeChunk>>, ghost held': map<int, Leaves>)
      requires CacheHas(cache, held) && Pending(held, store, LeavesOf(entries)) && EntriesHeld() && index == |entries|
      modifies this, set x | x in cache :: cache[x].nodes
      ensures store == old(store) && entries == old(entries) + [entry] && EntriesHeld()
      ensures r.Ok? && CacheHas(r.value, held') && Pending(held', store, LeavesOf(entries))
      ensures forall x :: x in r.value ==> (x in cache && r.value[x] == cache[x]) || fresh(r.value[x].nodes)
    {
      r, held' := AppendLeaf(cache, index, LogLeaf(entry.0, entry.1), held);
      Record(index, entry);
    }

    /** `batch_append`: the new entries after those of the log, whose new root it returns. */
    method BatchAppend(start: nat, more: seq<Entry>) returns (r: Result<Digest>)
      requires Valid() && start == |entries|
      modifies this
      ensures Valid() && entries == old(entries) + more
      ensures r == Ok(LogRoot(LeavesOf(entries)))
    {
      var cache: map<int, NodeChunk> := map[];
      ghost var held: map<int, Leaves> := map[];
      for i := 0 to |more|
        invariant CacheHas(cache, held) && Pending(held, store, LeavesOf(entries)) && EntriesHeld()
        invariant forall x :: x in cache ==> fresh(cache[x].nodes)
        invariant entries == old(entries) + more[..i]
      {
        var next;
        next, held := AppendEntry(cache, start + i, more[i], held);
        if next.Err? {
          return Err;
        }
        cache := next.value;
      }
      var batch := Flush(cache, held);
      PendingWritten(held, batch, store, LeavesOf(entries));
      store := store + batch;
      assert more[..|more|] == more;
      r := GetRoot(start + |more|);
    }
  }

  // ---- appending ----

  /** The cached chunks have the leaves that `held` says. */
  ghost predicate CacheHas(cache: map<int, NodeChunk>, held: map<int, Leaves>)
    reads set x | x in cache :: cache[x].nodes
  {
    && cache.Keys == held.Keys
    && (forall x :: x in cache ==> ChunkHas(cache[x], x, held[x]))
    && (forall x, y :: x in cache && y in cache && x != y ==> cache[x].nodes != cache[y].nodes)
  }

  ghost predicate ChunkHas(chunk: NodeChunk, x: int, data: Leaves)
    reads chunk.nodes
  {
    chunk.Valid() && chunk.chunkRoot == x && chunk.Holds(data)
  }

  /** Setting the next leaf of one chunk of the cache. */
  method SetInCache(cache: map<int, NodeChunk>, cid: nat, chunk: NodeChunk, x: nat, leaf: Digest,
                    ghost held: map<int, Leaves>, ghost data: Leaves)
    returns (r: Result<map<int, NodeChunk>>)
    requires CacheHas(cache, held) && ChunkHas(chunk, cid, data)
    requires if cid in cache then chunk == cache[cid] else forall y :: y in cache ==> cache[y].nodes != chunk.nodes
    requires |data| < 8 && x == 16 * IndexOf(cid) + 2 * |data|
    modifies chunk.nodes
    ensures r == Ok(cache[cid := chunk]) && CacheHas(r.value, held[cid := data + [leaf]])
  {
    var placed := chunk.SetLeaf(x, leaf, data);
    if placed.Err? {
      return Err;
    }
    return Ok(cache[cid := chunk]);
  }

  /** The chunk of a leaf. */
  lemma LeafChunk(index: nat) returns (c: nat)
    ensures c == Shift(index, 3) && 8 * c <= index < 8 * c + 8
    ensures Level(2 * index) == 0 && IndexOf(2 * index) == index
    ensures Level(Id(3, c)) == 3 && IndexOf(Id(3, c)) == c
  {
    c := Shift(index, 3);
    IdCoordinates(3, c);
    RemSplit(index, 3);
    FirstFormula(3, c);
    Powers();
  }

  /** A new leaf is added to its own chunk only. */
  lemma GrowChunks(leaves: Leaves, x: Digest, c: nat)
    requires 8 * c <= |leaves| < 8 * c + 8
    ensures ChunkData(leaves + [x], c) == ChunkData(leaves, c) + [x]
    ensures forall d: nat :: d != c ==> ChunkData(leaves + [x], d) == ChunkData(leaves, d)
  {
  }

  /** The store, with the chunks of `held` written over it, is the one of `leaves`. */
  ghost predicate Pending(held: map<int, Leaves>, store: ChunkMap, leaves: Leaves) {
    && (forall x :: x in held || x in store ==> x >= 0 && Level(x) == 3)
    && (forall c: nat :: PendingChunk(held, store, leaves, c, Id(3, c)))
  }

  ghost predicate PendingChunk(held: map<int, Leaves>, store: ChunkMap, leaves: Leaves, c: nat, x: int) {
    if x in held then 8 * c < |leaves| && held[x] == ChunkData(leaves, c) else ChunkStored(store, leaves, c, x)
  }

  lemma PendingAt(held: map<int, Leaves>, store: ChunkMap, leaves: Leaves, c: nat)
    requires Pending(held, store, leaves)
    ensures var x := Id(3, c);
            ChunkData(leaves, c) == if x in held then held[x] else if x in store then store[x] else []
  {
    assert PendingChunk(held, store, leaves, c, Id(3, c));
  }

  lemma PendingNext(held: map<int, Leaves>, store: ChunkMap, leaves: Leaves, leaf: Digest, c: nat)
    requires Pending(held, store, leaves) && 8 * c <= |leaves| < 8 * c + 8
    ensures Pending(held[Id(3, c) := ChunkData(leaves, c) + [leaf]], store, leaves + [leaf])
  {
    IdCoordinates(3, c);
    GrowChunks(leaves, leaf, c);
    var held' := held[Id(3, c) := ChunkData(leaves, c) + [leaf]];
    forall d: nat
      ensures PendingChunk(held', store, leaves + [leaf], d, Id(3, d))
    {
      IdCoordinates(3, d);
      assert PendingChunk(held, store, leaves, d, Id(3, d));
    }
  }

  ghost predicate SameChunks(batch: ChunkMap, held: map<int, Leaves>) {
    (forall x :: x in batch <==> x in held) && forall x :: x in held ==> batch[x] == held[x]
  }

  lemma PendingWritten(held: map<int, Leaves>, batch: ChunkMap, store: ChunkMap, leaves: Leaves)
    requires Pending(held, store, leaves) && SameChunks(batch, held)
    ensures StoreHolds(store + batch, leaves)
  {
    forall c: nat
      ensures ChunkStored(store + batch, leaves, c, Id(3, c))
    {
      assert PendingChunk(held, store, leaves, c, Id(3, c));
    }
  }

  /** The serialized chunks of the cache, in no particular order. */
  method Flush(cache: map<int, NodeChunk>, ghost held: map<int, Leaves>) returns (batch: ChunkMap)
    requires CacheHas(cache, held)
    modifies set x | x in cache :: cache[x].nodes
    ensures SameChunks(batch, held)
  {
    batch := map[];
    var rest: set<int> := cache.Keys;
    while exists x :: x in rest
      invariant CacheHas(cache, held)
      invariant rest <= cache.Keys && batch.Keys == cache.Keys - rest
      invariant forall x :: x in batch ==> batch[x] == held[x]
      decreases rest
    {
      var x :| x in rest;
      cache[x].Recompute(held[x]);
      var out := cache[x].Serialize(held[x]);
      batch := batch[x := out];
      rest := rest - {x};
    }
  }
}
