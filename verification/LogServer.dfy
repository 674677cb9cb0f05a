/** The nodes the server sends for an inclusion proof (src/tree/log.rs, get_batch_proof_for_nodes). */
module LogServer {
  import opened Digests
  import opened LogMath
  import opened LogTree
  import opened StoredLog
  import opened LogProofs

  /** A node of the skeleton: one above a provided leaf, or properly above a boundary leaf. */
  predicate Marked(positions: set<nat>, bounds: set<nat>, k: nat, j: nat) {
    Visited(positions, k, j) || (k > 0 && Visited(bounds, k, j))
  }

  /** The nodes to send for the node at level k and index j. */
  function Needed(n: nat, positions: set<nat>, bounds: set<nat>, retained: set<nat>, k: nat, j: nat): (nodes: seq<Node>)
    decreases k, n
  {
    if !Marked(positions, bounds, k, j) then (if Id(k, j) in retained then [] else [Node(k, j)])
    else if k == 0 then []
    else if RightIndex(k - 1, j, n) == 2 * j then Needed(n, positions, bounds, retained, k - 1, 2 * j)
    else Needed(n, positions, bounds, retained, k - 1, 2 * j) + Needed(n, positions, bounds, retained, k - 1, 2 * j + 1)
  }

  /** Every node of a needed list is in the tree. */
  lemma {:induction false} NeededPresent(n: nat, positions: set<nat>, bounds: set<nat>, retained: set<nat>, k: nat,
                                         j: nat)
    requires Present(k, j, n)
    ensures forall t :: t in Needed(n, positions, bounds, retained, k, j) ==> Present(t.level, t.index, n)
    decreases k
  {
    if Marked(positions, bounds, k, j) && k > 0 {
      PresentLeft(k, j, n);
      NeededPresent(n, positions, bounds, retained, k - 1, 2 * j);
      if Present(k - 1, 2 * j + 1, n) { NeededPresent(n, positions, bounds, retained, k - 1, 2 * j + 1); }
    }
  }

  /** The values of nodes of the log. */
  function ValuesOf(leaves: Leaves, nodes: seq<Node>): (vs: seq<Digest>)
    requires forall t :: t in nodes ==> Present(t.level, t.index, |leaves|)
    ensures |vs| == |nodes|
    ensures forall i :: 0 <= i < |nodes| ==> vs[i] == NodeValue(leaves, nodes[i].level, nodes[i].index)
  {
    seq(|nodes|, i requires 0 <= i < |nodes| => NodeValue(leaves, nodes[i].level, nodes[i].index))
  }

  /** The proof for a tree of n leaves, given what the client retains. */
  function BatchProof(leaves: Leaves, positions: set<nat>, bounds: set<nat>, retained: set<nat>): (proof: seq<Digest>)
    requires leaves != []
  {
    var n := |leaves|;
    RootPresent(n);
    NeededPresent(n, positions, bounds, retained, Height(n), 0);
    ValuesOf(leaves, Needed(n, positions, bounds, retained, Height(n), 0))
  }

  // ---- the server's code ----

  /** The ids of the skeleton up to the root of n leaves. */
  ghost predicate IsSkeleton(skeleton: set<nat>, positions: set<nat>, bounds: set<nat>, height: nat) {
    forall k: nat, j: nat :: k <= height ==> (Id(k, j) in skeleton <==> Marked(positions, bounds, k, j))
  }

  /** Climbing from a leaf to the root, adding every node above the leaf. */
  method AddPath(skeleton: set<nat>, leaf: nat, n: nat) returns (skeleton': set<nat>)
    requires leaf < n && Height(n) <= 62
    ensures forall k: nat, j: nat :: k <= Height(n) ==>
              (Id(k, j) in skeleton' <==> Id(k, j) in skeleton || (k > 0 && Shift(leaf, k) == j))
  {
    skeleton' := skeleton;
    var curr := 2 * leaf;
    ghost var t := 0;
    RootOfAll(n, leaf);
    Climb(leaf, 0);
    Climb(leaf, Height(n));
    for i := 0 to 64
      invariant t == i <= Height(n) && curr == Id(t, Shift(leaf, t)) && Level(curr) == t
      invariant forall k: nat, j: nat :: Id(k, j) in skeleton' <==>
              Id(k, j) in skeleton || (0 < k <= t && Shift(leaf, k) == j)
    {
      if curr == MerkleRoot(n) {
        break;
      }
      Climb(leaf, t);
      Climb(leaf, t + 1);
      curr := Parent(curr);
      AddId(skeleton', t + 1, Shift(leaf, t + 1));
      skeleton' := skeleton' + {curr};
      t := t + 1;
    }
  }

  lemma AddId(ids: set<nat>, t: nat, i: nat)
    ensures forall k: nat, j: nat :: Id(k, j) in ids + {Id(t, i)} <==> Id(k, j) in ids || (k == t && j == i)
  {
    forall k: nat, j: nat
      ensures Id(k, j) in ids + {Id(t, i)} <==> Id(k, j) in ids || (k == t && j == i)
    {
      IdCoordinates(k, j);
      IdCoordinates(t, i);
    }
  }

  function Members(xs: seq<nat>, n: nat): (s: set<nat>)
    requires n <= |xs|
    ensures forall x :: x in s <==> x in xs[..n]
    decreases n, xs
  {
    if n == 0 then {} else Members(xs, n - 1) + {xs[n - 1]}
  }

  /** The boundary leaves: the last leaf of each historical size. */
  function Bounds(sizes: seq<nat>, n: nat, i: nat): (s: set<nat>)
    requires i <= |sizes|
    decreases i, sizes
  {
    if i == 0 then {}
    else if sizes[i - 1] == 0 || sizes[i - 1] > n then Bounds(sizes, n, i - 1)
    else Bounds(sizes, n, i - 1) + {sizes[i - 1] - 1}
  }

  lemma VisitedAdd(s: set<nat>, x: nat, k: nat, j: nat)
    ensures Visited(s + {x}, k, j) <==> Visited(s, k, j) || Shift(x, k) == j
  {
    if Shift(x, k) == j { assert x in s + {x}; }
    if Visited(s, k, j) {
      var i :| i in s && Shift(i, k) == j;
      assert i in s + {x};
    }
  }

  /** The paths of the provided leaves, then those above the boundary leaves. */
  method BuildSkeleton(positions: seq<nat>, sizes: seq<nat>, n: nat) returns (skeleton: set<nat>)
    requires 0 < n && Height(n) <= 62 && forall i :: 0 <= i < |positions| ==> positions[i] < n
    ensures IsSkeleton(skeleton, Members(positions, |positions|), Bounds(sizes, n, |sizes|), Height(n))
  {
    skeleton := {};
    for i := 0 to |positions|
      invariant IsSkeleton(skeleton, Members(positions, i), {}, Height(n))
    {
      skeleton := AddLeafPath(skeleton, positions[i], n, Members(positions, i));
    }
    for i := 0 to |sizes|
      invariant IsSkeleton(skeleton, Members(positions, |positions|), Bounds(sizes, n, i), Height(n))
    {
      if sizes[i] == 0 || sizes[i] > n {
        continue;
      }
      skeleton := AddBoundaryPath(skeleton, sizes[i] - 1, n, Members(positions, |positions|), Bounds(sizes, n, i));
    }
  }

  method AddLeafPath(skeleton: set<nat>, leaf: nat, n: nat, ghost s: set<nat>) returns (skeleton': set<nat>)
    requires leaf < n && Height(n) <= 62 && IsSkeleton(skeleton, s, {}, Height(n))
    ensures IsSkeleton(skeleton', s + {leaf}, {}, Height(n))
  {
    AddId(skeleton, 0, leaf);
    skeleton' := AddPath(skeleton + {2 * leaf}, leaf, n);
    forall k: nat, j: nat | k <= Height(n)
      ensures Id(k, j) in skeleton' <==> Marked(s + {leaf}, {}, k, j)
    {
      VisitedAdd(s, leaf, k, j);
      assert Shift(leaf, 0) == leaf && Id(0, leaf) == 2 * leaf;
    }
  }

  method AddBoundaryPath(skeleton: set<nat>, leaf: nat, n: nat, ghost s: set<nat>, ghost bounds: set<nat>)
    returns (skeleton': set<nat>)
    requires leaf < n && Height(n) <= 62 && IsSkeleton(skeleton, s, bounds, Height(n))
    ensures IsSkeleton(skeleton', s, bounds + {leaf}, Height(n))
  {
    skeleton' := AddPath(skeleton, leaf, n);
    forall k: nat, j: nat | k <= Height(n)
      ensures Id(k, j) in skeleton' <==> Marked(s, bounds + {leaf}, k, j)
    {
      VisitedAdd(bounds, leaf, k, j);
    }
  }

  /** `recursive_needed`. */
  method RecursiveNeeded(x: nat, n: nat, skeleton: set<nat>, retained: set<nat>, ghost k: nat, ghost j: nat,
                         ghost positions: set<nat>, ghost bounds: set<nat>)
    returns (ids: seq<nat>)
    requires x == Id(k, j) && k <= Height(n) && IsSkeleton(skeleton, positions, bounds, Height(n))
    ensures ids == Ids(Needed(n, positions, bounds, retained, k, j))
    decreases k
  {
    IdCoordinates(k, j);
    if x in retained {
      if x !in skeleton {
        return [];
      }
    }
    if x !in skeleton {
      return [x];
    }
    if IsLeaf(x) {
      return [];
    }
    Children(x, k, j);
    var l := LeftChild(x);
    var r := RightChild(x, n);
    if l == r {
      ids := RecursiveNeeded(l, n, skeleton, retained, k - 1, 2 * j, positions, bounds);
      return;
    }
    var left := RecursiveNeeded(l, n, skeleton, retained, k - 1, 2 * j, positions, bounds);
    var right := RecursiveNeeded(r, n, skeleton, retained, k - 1, 2 * j + 1, positions, bounds);
    return left + right;
  }

  /** `get_batch_proof_for_nodes`, at the current size; a last size of 0 or past the end retains nothing. */
  method GetBatchProof(log: StoredLog, positions: seq<nat>, n: nat, lastSize: nat, sizes: seq<nat>)
    returns (r: Result<seq<Digest>>)
    requires log.Valid() && n == |log.entries| > 0 && Height(n) <= 62
    requires forall i :: 0 <= i < |positions| ==> positions[i] < n
    ensures r == Ok(BatchProof(LeavesOf(log.entries), Members(positions, |positions|), Bounds(sizes, n, |sizes|),
                               if 0 < lastSize <= n then PeakIds(lastSize) else {}))
  {
    var skeleton := BuildSkeleton(positions, sizes, n);
    var retained := {};
    if 0 < lastSize <= n {
      var roots := GetRoots(lastSize);
      retained := set i | 0 <= i < |roots| :: roots[i];
    }
    ghost var s, b := Members(positions, |positions|), Bounds(sizes, n, |sizes|);
    MerkleRootIsFirst(n);
    var ids := RecursiveNeeded(MerkleRoot(n), n, skeleton, retained, Height(n), 0, s, b);
    RootPresent(n);
    NeededPresent(n, s, b, retained, Height(n), 0);
    r := ReadAll(log, n, ids, Needed(n, s, b, retained, Height(n), 0));
  }

  method ReadAll(log: StoredLog, n: nat, ids: seq<nat>, ghost nodes: seq<Node>) returns (r: Result<seq<Digest>>)
    requires log.Valid() && n == |log.entries| && ids == Ids(nodes)
    requires forall t :: t in nodes ==> Present(t.level, t.index, |log.entries|)
    ensures r == Ok(ValuesOf(LeavesOf(log.entries), nodes))
  {
    var proof := [];
    for i := 0 to |ids|
      invariant |proof| == i
      invariant forall t :: 0 <= t < i ==> proof[t] == ValuesOf(LeavesOf(log.entries), nodes)[t]
    {
      IdCoordinates(nodes[i].level, nodes[i].index);
      assert nodes[i] in nodes;
      ReadNow(LeavesOf(log.entries), nodes[i].level, nodes[i].index);
      var v := log.ResolveNode(ids[i], n);
      if v.Err? {
        return Err;
      }
      proof := proof + [v.value];
    }
    assert proof == ValuesOf(LeavesOf(log.entries), nodes);
    return Ok(proof);
  }
}
