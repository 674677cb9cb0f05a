/** Looking an index up by following pointers, in any store (src/tree/prefix/read.rs, search). */
module PrefixSearch {
  import opened Digests
  import opened SparseTree
  import opened PrefixEntry
  import P = PrefixTree

  /** The answer to a lookup: an entry that is needed is missing, the index is absent, or where it is and its leaf. */
  datatype Answer = Missing | Absent | Present(pos: int, commitment: Commitment)

  /** Where an entry sends a search on whose path it shares down to a depth, if anywhere: the entry and its depth. */
  function Onward(e: LogEntry, target: Index, depth: nat): (next: Option<(int, nat)>)
    requires |e.copath| <= INDEX_BITS
    ensures next.Some? ==> depth < next.value.1 <= |e.copath|
    decreases |e.copath| - depth
  {
    if depth >= |e.copath| then None
    else if e.index[depth] == target[depth] then Onward(e, target, depth + 1)
    else
      match e.copath[depth].ptr
      case Some(q) => Some((q, depth + 1))
      case None => None
  }

  /** The entry holds the index itself. */
  predicate IsLeafOf(e: LogEntry, target: Index) {
    e.leaf.Some? && e.index == target
  }

  /** The search from an entry on. */
  function Walk(store: Store, ptr: int, target: Index, depth: nat): (r: Answer)
    requires P.WellFormed(store)
    decreases INDEX_BITS - depth
  {
    if ptr !in store then Missing
    else if IsLeafOf(store[ptr], target) then Present(ptr, store[ptr].leaf.value)
    else
      match Onward(store[ptr], target, depth)
      case Some((q, deeper)) => Walk(store, q, target, deeper)
      case None => Absent
  }

  /** Each entry on the way shares the index down to its depth, as the pointers of its siblings promise. */
  ghost predicate Aligned(store: Store, ptr: int, target: Index, depth: nat)
    requires P.WellFormed(store)
    decreases INDEX_BITS - depth
  {
    ptr in store ==>
      && depth <= INDEX_BITS && store[ptr].index[..depth] == target[..depth]
      && (IsLeafOf(store[ptr], target) || Onward(store[ptr], target, depth).None? ||
          Aligned(store, Onward(store[ptr], target, depth).value.0, target, Onward(store[ptr], target, depth).value.1))
  }

  /** A search that comes through. */
  ghost predicate Gives(store: Store, ptr: int, target: Index, depth: nat, r: Answer)
    requires P.WellFormed(store)
  {
    Aligned(store, ptr, target, depth) && Walk(store, ptr, target, depth) == r
  }

  // ---- the code ----

  /** The loop of `step`, without the siblings it collects. */
  method FollowEntry(e: LogEntry, target: Index, depth: nat) returns (next: Option<(int, nat)>)
    requires |e.copath| <= INDEX_BITS && depth <= INDEX_BITS && !IsLeafOf(e, target)
    requires e.index[..depth] == target[..depth]
    ensures next == Onward(e, target, depth)
  {
    var d := depth;
    while true
      invariant depth <= d <= INDEX_BITS && e.index[..d] == target[..d]
      invariant Onward(e, target, depth) == Onward(e, target, d)
      decreases INDEX_BITS - d
    {
      if d < |e.copath| {
        if e.index[d] != target[d] {
          return match e.copath[d].ptr case Some(q) => Some((q, d + 1)) case None => None;
        }
      } else if e.leaf.None? {
        return None;
      } else {
        P.ProperlyShorter(target, e.index, d);
        if e.index[d] != target[d] {
          return None;
        }
      }
      d := d + 1;
    }
  }

  /** `search`. */
  method Search(tree: P.PrefixTree, ptr: int, index: Index) returns (r: Answer)
    requires tree.Ready(map[]) && tree.full == tree.store && Aligned(tree.store, ptr, index, 0)
    modifies tree`nodeCache
    ensures tree.Ready(map[]) && r == Walk(tree.store, ptr, index, 0)
  {
    var curr, depth := ptr, 0;
    while true
      invariant tree.Ready(map[]) && depth <= INDEX_BITS && Aligned(tree.store, curr, index, depth)
      invariant Walk(tree.store, curr, index, depth) == Walk(tree.store, ptr, index, 0)
      decreases INDEX_BITS - depth
    {
      var got := tree.GetEntry(curr, map[]);
      if got.Err? {
        return Missing;
      }
      var entry := got.value.inner;
      if entry.leaf.Some? && entry.index == index {
        return Present(curr, entry.leaf.value);
      }
      var next := FollowEntry(entry, index, depth);
      if next.None? {
        return Absent;
      }
      curr, depth := next.value.0, next.value.1;
    }
  }

  // ---- trees of a whole map ----

  /** From an entry that the search for a target reaches, it goes on to one that it reaches, or the target is absent. */
  lemma {:induction false} OnwardReaches(store: Store, ptr: int, copath: seq<ParentNode>, target: Index, m: Contents)
    returns (copath': seq<ParentNode>)
    requires P.WellFormed(store) && P.Reaches(store, ptr, copath, target, m) && !IsLeafOf(store[ptr], target)
    ensures match Onward(store[ptr], target, |copath|)
            case None => target !in m
            case Some((q, d)) => |copath'| == d && P.Reaches(store, q, copath', target, m)
    decreases INDEX_BITS - |copath|
  {
    var e, depth := store[ptr], |copath|;
    copath' := copath;
    if depth >= |e.copath| && e.leaf.None? {
      P.ExhaustedOutcome(store, ptr, depth, copath, target, m);
      return;
    }
    if e.leaf.Some? { P.ProperlyShorter(target, e.index, depth); }
    if e.index[depth] == target[depth] {
      P.Follow(store, ptr, copath, target, m);
      copath' := OnwardReaches(store, ptr, copath + [Sibling(e, depth)], target, m);
    } else {
      var node := ParentNode(Rollup(e, depth + 1), Some(ptr));
      if Sibling(e, depth).ptr.Some? {
        P.DivergesOn(store, ptr, depth, copath, node, Sibling(e, depth).ptr.value, target, m);
        copath' := copath + [node];
      } else {
        P.DivergesOut(store, ptr, depth, copath, node, target, m);
      }
    }
  }

  /** The right answer about a map: its commitment where it has the index. */
  ghost predicate Right(r: Answer, target: Index, m: Contents) {
    if target in m then r.Present? && r.commitment == m[target] else r == Absent
  }

  lemma {:induction false} ReachedIsRight(store: Store, ptr: int, copath: seq<ParentNode>, target: Index, m: Contents)
    requires P.WellFormed(store) && P.Reaches(store, ptr, copath, target, m)
    ensures Aligned(store, ptr, target, |copath|) && Right(Walk(store, ptr, target, |copath|), target, m)
    decreases INDEX_BITS - |copath|
  {
    if !IsLeafOf(store[ptr], target) {
      var copath' := OnwardReaches(store, ptr, copath, target, m);
      var next := Onward(store[ptr], target, |copath|);
      if next.Some? { ReachedIsRight(store, next.value.0, copath', target, m); }
    }
  }

  /** A tree that stands for a whole map answers every lookup right. */
  lemma {:induction false} WholeIsRight(store: Store, ptr: int, target: Index, m: Contents)
    requires P.WellFormed(store) && P.RootOf(store, ptr, m)
    ensures Aligned(store, ptr, target, 0) && Right(Walk(store, ptr, target, 0), target, m)
  {
    ReachedIsRight(store, ptr, [], target, m);
  }
}
