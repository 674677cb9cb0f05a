/**
 * Immutable entries of the persistent prefix tree (src/tree/prefix/entry.rs) and what it means
 * for a stored entry to stand for a subtree of a map.
 */
module PrefixEntry {
  import opened Digests
  import opened SparseTree

  /** A sibling on an entry's path: its value and the entry that stands for its subtree. */
  datatype ParentNode = ParentNode(hash: Digest, ptr: Option<int>)

  datatype LogEntry = LogEntry(index: Index, copath: seq<ParentNode>, leaf: Option<Commitment>)

  /** Entries by position. */
  type Store = map<int, LogEntry>

  /** Siblings below the recorded copath are empty stand-ins. */
  function Sibling(e: LogEntry, level: nat): (n: ParentNode) {
    if level < |e.copath| then e.copath[level] else ParentNode(Zero, None)
  }

  /** The level at which hashing an entry upwards starts. */
  function Height(e: LogEntry): (h: nat) {
    if e.leaf.Some? then INDEX_BITS else |e.copath|
  }

  function Bottom(e: LogEntry): (h: Digest) {
    if e.leaf.Some? then PrefixLeaf(e.index, e.leaf.value) else Zero
  }

  /** The value of the node at `level` on the entry's path, hashed from scratch. */
  function Rollup(e: LogEntry, level: nat): (h: Digest)
    requires |e.copath| <= INDEX_BITS
    decreases INDEX_BITS - level, e
  {
    if level >= Height(e) then Bottom(e)
    else Combine(e.index[level], Sibling(e, level).hash, Rollup(e, level + 1))
  }

  function CombineCopaths(primary: seq<ParentNode>, secondary: seq<ParentNode>): (out: seq<ParentNode>)
    ensures primary <= out && |out| == if |primary| < |secondary| then |secondary| else |primary|
    ensures forall k :: |primary| <= k < |out| ==> out[k] == secondary[k]
  {
    if |secondary| <= |primary| then primary else primary + secondary[|primary|..]
  }

  /**
   * An entry with its lazily filled hash cache: one slot per level, written once.
   */
  class CachedLogEntry {
    const inner: LogEntry
    var parents: seq<Option<Digest>>

    /** Every filled slot holds the value that hashing from scratch gives. */
    ghost predicate Valid()
      reads this
    {
      && |inner.copath| <= INDEX_BITS
      && |parents| == Height(inner) + 1
      && forall i :: 0 <= i < |parents| && parents[i].Some? ==> parents[i].value == Rollup(inner, i)
    }

    constructor (entry: LogEntry)
      requires |entry.copath| <= INDEX_BITS
      ensures Valid() && inner == entry
    {
      inner := entry;
      parents := seq(Height(entry) + 1, _ => None);
    }

    /** Cached hashing is hashing: whatever is cached, the result is the value from scratch. */
    method RollupCached(level: nat) returns (acc: Digest)
      requires Valid()
      modifies this
      ensures Valid()
      ensures acc == Rollup(inner, level)
    {
      var curr := Height(inner);
      acc := Bottom(inner);
      while curr > level
        invariant level <= curr <= Height(inner) || curr == Height(inner) < level
        invariant Valid()
        invariant acc == Rollup(inner, curr)
      {
        curr := curr - 1;
        if parents[curr].Some? {
          acc := parents[curr].value;
        } else {
          acc := Combine(inner.index[curr], Sibling(inner, curr).hash, acc);
          parents := parents[curr := Some(acc)];
        }
      }
    }
  }

  /**
   * The entry at `ptr` stands for the subtree of `m` at `level` on its path: its leaf is there
   * and every sibling further down is recorded with its value and a pointer that stands for it.
   * An entry without a leaf stands for a path that ends in an empty subtree.
   */
  ghost predicate Represents(store: Store, ptr: int, level: nat, m: Contents)
    decreases INDEX_BITS - level, 1, ptr
  {
    && level <= INDEX_BITS
    && ptr in store
    && var e := store[ptr];
       && |e.copath| <= INDEX_BITS
       && EndsIn(e, level, m)
       && forall k :: level <= k < Height(e) ==> PointsAt(store, e, k, m)
  }

  ghost predicate PointsAt(store: Store, e: LogEntry, k: nat, m: Contents)
    decreases INDEX_BITS - k, 0
  {
    k < INDEX_BITS && Points(store, Sibling(e, k), SiblingPath(e.index, k), m)
  }

  ghost predicate EndsIn(e: LogEntry, level: nat, m: Contents)
    requires |e.copath| <= INDEX_BITS
  {
    match e.leaf
    case Some(c) => e.index in m && m[e.index] == c
    case None =>
      && level <= |e.copath|
      && !Occupied(m, e.index[..|e.copath|])
      && (level < |e.copath| ==> Occupied(m, e.index[..|e.copath| - 1]))
  }

  /** `node` holds the value of the subtree of `m` at `p` and leads to an entry that stands for it. */
  ghost predicate Points(store: Store, node: ParentNode, p: Path, m: Contents)
    decreases INDEX_BITS - |p|, 3, m
  {
    && |p| <= INDEX_BITS
    && node.hash == NodeHash(m, p)
    && match node.ptr
       case None => !Occupied(m, p)
       case Some(q) => StandsFor(store, q, p, m)
  }

  /** The entry at `ptr` lies below `p` and stands for all of the subtree of `m` at `p`. */
  ghost predicate StandsFor(store: Store, ptr: int, p: Path, m: Contents)
    decreases INDEX_BITS - |p|, 2, ptr
  {
    && |p| <= INDEX_BITS
    && ptr in store && Above(p, store[ptr].index)
    && Represents(store, ptr, |p|, m)
  }

  /** The recorded siblings of the path of `target`, one per level from the root down. */
  ghost predicate CopathOf(store: Store, copath: seq<ParentNode>, target: Index, m: Contents) {
    && |copath| <= INDEX_BITS
    && forall k :: 0 <= k < |copath| ==> Points(store, copath[k], SiblingPath(target, k), m)
  }

  lemma RepresentsIntro(store: Store, ptr: int, level: nat, m: Contents)
    requires level <= INDEX_BITS && ptr in store && |store[ptr].copath| <= INDEX_BITS
    requires EndsIn(store[ptr], level, m)
    requires forall k :: level <= k < Height(store[ptr]) ==> PointsAt(store, store[ptr], k, m)
    ensures Represents(store, ptr, level, m)
  {}

  /** Standing for a subtree means standing for every smaller subtree on the path. */
  lemma RepresentsDeeper(store: Store, ptr: int, level: nat, deeper: nat, m: Contents)
    requires Represents(store, ptr, level, m)
    requires level <= deeper <= Height(store[ptr])
    ensures Represents(store, ptr, deeper, m)
  {}

  /** Hashing an entry that stands for a subtree gives that subtree's value, at every level. */
  lemma {:induction false} RollupIsNodeHash(store: Store, ptr: int, level: nat, d: nat, m: Contents)
    requires Represents(store, ptr, level, m)
    requires level <= d <= Height(store[ptr])
    ensures Rollup(store[ptr], d) == NodeHash(m, store[ptr].index[..d])
    decreases INDEX_BITS - d
  {
    if d < Height(store[ptr]) {
      RollupIsNodeHash(store, ptr, level, d + 1, m);
      RollupStep(store, ptr, level, d, m);
    } else {
      RollupBottom(store, ptr, level, m);
    }
  }

  lemma RollupBottom(store: Store, ptr: int, level: nat, m: Contents)
    requires Represents(store, ptr, level, m)
    requires level <= Height(store[ptr])
    ensures Bottom(store[ptr]) == NodeHash(m, store[ptr].index[..Height(store[ptr])])
  {
    var e := store[ptr];
    if e.leaf.Some? {
      assert e.index[..INDEX_BITS] == e.index;
      NodeHashLeaf(m, e.index);
    }
  }

  lemma RollupStep(store: Store, ptr: int, level: nat, d: nat, m: Contents)
    requires Represents(store, ptr, level, m)
    requires level <= d < Height(store[ptr])
    requires Rollup(store[ptr], d + 1) == NodeHash(m, store[ptr].index[..d + 1])
    ensures Rollup(store[ptr], d) == NodeHash(m, store[ptr].index[..d])
  {
    var e := store[ptr];
    assert PointsAt(store, e, d, m);
    assert Points(store, Sibling(e, d), SiblingPath(e.index, d), m);
    OnPathOccupied(store, ptr, level, d, m);
    NodeHashStep(m, e.index, d);
    assert Rollup(e, d) == Combine(e.index[d], Sibling(e, d).hash, Rollup(e, d + 1));
  }

  /** Every node strictly above the end of an entry's path holds a key. */
  lemma OnPathOccupied(store: Store, ptr: int, level: nat, d: nat, m: Contents)
    requires Represents(store, ptr, level, m)
    requires level <= d < Height(store[ptr])
    ensures Occupied(m, store[ptr].index[..d])
  {
    var e := store[ptr];
    if e.leaf.Some? {
      assert Above(e.index[..d], e.index);
    } else {
      assert Above(e.index[..d], e.index[..|e.copath| - 1]);
      OccupiedAbove(m, e.index[..d], e.index[..|e.copath| - 1]);
    }
  }

  ghost predicate Extends(store: Store, store': Store) {
    forall q :: q in store ==> q in store' && store'[q] == store[q]
  }

  /**
   * What an entry stands for depends only on the entries it can reach and on the leaves below:
   * later entries and changes elsewhere in the map leave it alone.
   */
  lemma {:induction false} RepresentsFrame(
      store: Store, store': Store, ptr: int, level: nat, m: Contents, m': Contents)
    requires Represents(store, ptr, level, m) && Extends(store, store')
    requires AgreeBelow(m, m', store[ptr].index[..level])
    ensures Represents(store', ptr, level, m')
    decreases INDEX_BITS - level, 0
  {
    var e := store[ptr];
    if e.leaf.Some? {
      assert Above(e.index[..level], e.index);
      assert SameAt(m, m', e.index);
    } else {
      AgreeAt(m, m', e.index[..level], e.index[..|e.copath|]);
      if |e.copath| > level {
        AgreeAt(m, m', e.index[..level], e.index[..|e.copath| - 1]);
      }
    }
    forall k | level <= k < Height(e)
      ensures PointsAt(store', e, k, m')
    {
      assert PointsAt(store, e, k, m);
      AboveSibling(e.index, level, k);
      AgreeNarrow(m, m', e.index[..level], SiblingPath(e.index, k));
      PointsFrame(store, store', Sibling(e, k), SiblingPath(e.index, k), m, m');
    }
  }

  lemma {:induction false} PointsFrame(
      store: Store, store': Store, node: ParentNode, p: Path, m: Contents, m': Contents)
    requires Points(store, node, p, m) && Extends(store, store')
    requires AgreeBelow(m, m', p)
    ensures Points(store', node, p, m')
    decreases INDEX_BITS - |p|, 1
  {
    NodeHashLocal(m, m', p);
    AgreeOccupied(m, m', p);
    if node.ptr.Some? {
      assert StandsFor(store, node.ptr.value, p, m);
      assert store[node.ptr.value].index[..|p|] == p;
      RepresentsFrame(store, store', node.ptr.value, |p|, m, m');
    }
  }

  lemma AboveSibling(key: Index, level: nat, k: nat)
    requires level <= k < INDEX_BITS
    ensures Above(key[..level], SiblingPath(key, k))
  {
    assert SiblingPath(key, k)[..level] == key[..level];
  }

  lemma AgreeAt(m: Contents, m': Contents, p: Path, q: Path)
    requires AgreeBelow(m, m', p) && Above(p, q)
    ensures Occupied(m, q) <==> Occupied(m', q)
  {
    AgreeNarrow(m, m', p, q);
    AgreeOccupied(m, m', q);
  }
}
