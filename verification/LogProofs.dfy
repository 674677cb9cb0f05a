/**
 * Inclusion proofs of the log tree: the client's reconstruction (src/client/verifier.rs,
 * recursive_hash) and the nodes the server sends for it (src/tree/log.rs, recursive_needed).
 */
module LogProofs {
  import opened Digests
  import opened LogMath
  import opened LogTree

  type Values = map<nat, Digest>

  /**
   * What the client reconstructs a root from: the tree size, the leaf values it has by position,
   * the retained values and the wanted nodes by id.
   */
  datatype Query = Query(n: nat, provided: Values, retained: Values, wanted: set<nat>)

  /** Where a reconstruction stands: the value of the last node, the proof elements used and the values captured. */
  datatype Reading = Reading(value: Digest, used: nat, captured: Values)

  /** Some provided leaf lies below the node. */
  predicate Visited(positions: set<nat>, k: nat, j: nat) {
    exists i :: i in positions && Shift(i, k) == j
  }

  /** `record`. */
  function Note(q: Query, x: nat, v: Digest, used: nat, captured: Values): (r: Reading) {
    Reading(v, used, if x in q.wanted then captured[x := v] else captured)
  }

  /** The value of a node without provided leaves: the retained one, or the next proof element. */
  function Given(q: Query, x: nat, proof: seq<Digest>, used: nat, captured: Values): (r: Result<Reading>) {
    if x in q.retained then Ok(Note(q, x, q.retained[x], used, captured))
    else if used < |proof| then Ok(Note(q, x, proof[used], used + 1, captured))
    else Err
  }

  /** The reconstruction of the node at level k and index j. */
  function Rebuild(q: Query, k: nat, j: nat, proof: seq<Digest>, used: nat, captured: Values): (r: Result<Reading>)
    decreases k, q
  {
    if k == 0 && j in q.provided then Ok(Note(q, Id(k, j), q.provided[j], used, captured))
    else if !Visited(q.provided.Keys, k, j) then Given(q, Id(k, j), proof, used, captured)
    else if k == 0 then Err
    else
      var l := Rebuild(q, k - 1, 2 * j, proof, used, captured);
      if l.Err? then Err
      else if RightIndex(k - 1, j, q.n) == 2 * j
          then Ok(Note(q, Id(k, j), l.value.value, l.value.used, l.value.captured))
      else
        var r := Rebuild(q, k - 1, 2 * j + 1, proof, l.value.used, l.value.captured);
        if r.Err? then Err
        else Ok(Note(q, Id(k, j), LogNode(l.value.value, k == 1, r.value.value, k == 1), r.value.used,
                     r.value.captured))
  }

  /** `calculate_root_capturing`: the root and the captured values, if the proof is used up exactly. */
  function CalculatedRoot(q: Query, proof: seq<Digest>): (r: Result<(Digest, Values)>) {
    if q.n == 0 then Ok((Zero, map[]))
    else
      var r := Rebuild(q, Height(q.n), 0, proof, 0, map[]);
      if r.Ok? && r.value.used >= |proof| then Ok((r.value.value, r.value.captured)) else Err
  }

  // ---- the client's code ----

  /** The ancestor of a leaf at level t, and the one above it. */
  lemma Climb(leaf: nat, t: nat)
    ensures Level(Id(t, Shift(leaf, t))) == t && IndexOf(Id(t, Shift(leaf, t))) == Shift(leaf, t)
    ensures t < 62 ==> Parent(Id(t, Shift(leaf, t))) == Id(t + 1, Shift(leaf, t + 1))
  {
    IdCoordinates(t, Shift(leaf, t));
    if t < 62 { ParentIsAbove(t, Shift(leaf, t)); }
    ShiftSplit(leaf, t);
  }

  lemma RootOfAll(n: nat, leaf: nat)
    requires leaf < n
    ensures MerkleRoot(n) == Id(Height(n), Shift(leaf, Height(n))) && Shift(leaf, Height(n)) == 0
  {
    RootPresent(n);
    MerkleRootIsFirst(n);
    ShiftMonotone(leaf, n - 1, Height(n));
  }

  /** Climbing from a leaf meets the node unless it meets the root first. */
  method Climbs(leaf: nat, x: nat, n: nat, ghost k: nat, ghost j: nat) returns (below: bool)
    requires x == Id(k, j) && k <= Height(n) <= 62 && leaf < n
    ensures below <==> Shift(leaf, k) == j
  {
    var curr := 2 * leaf;
    ghost var t := 0;
    IdCoordinates(k, j);
    RootOfAll(n, leaf);
    Climb(leaf, 0);
    Climb(leaf, Height(n));
    while curr != x
      invariant t <= Height(n) && curr == Id(t, Shift(leaf, t))
      invariant Level(curr) == t && IndexOf(curr) == Shift(leaf, t)
      invariant t > k ==> Shift(leaf, k) != j
      decreases Height(n) - t
    {
      if curr == MerkleRoot(n) {
        return false;
      }
      Climb(leaf, t);
      Climb(leaf, t + 1);
      curr := Parent(curr);
      t := t + 1;
    }
    return true;
  }

  /** Every provided position is in the tree, whose ids the climb can reach. */
  predicate InRange(q: Query) {
    Height(q.n) <= 62 && forall i :: i in q.provided ==> i < q.n
  }

  method IsAncestor(x: nat, q: Query, ghost k: nat, ghost j: nat) returns (visited: bool)
    requires x == Id(k, j) && k <= Height(q.n) && InRange(q)
    ensures visited <==> Visited(q.provided.Keys, k, j)
  {
    var rest := q.provided.Keys;
    while exists i :: i in rest
      invariant rest <= q.provided.Keys
      invariant forall i :: i in q.provided && i !in rest ==> Shift(i, k) != j
      decreases rest
    {
      var i :| i in rest;
      visited := Climbs(i, x, q.n, k, j);
      if visited {
        return;
      }
      rest := rest - {i};
    }
    return false;
  }

  lemma Children(x: nat, k: nat, j: nat)
    requires x == Id(k, j) && k > 0
    ensures Level(x) == k && IndexOf(x) == j
    ensures LeftChild(x) == Id(k - 1, 2 * j) && Id(k - 1, 2 * j) != Id(k - 1, 2 * j + 1)
    ensures IsLeaf(Id(k - 1, 2 * j)) <==> k == 1
    ensures IsLeaf(Id(k - 1, 2 * j + 1)) <==> k == 1
  {
    IdCoordinates(k, j);
    ChildrenAreBelow(k, j);
    IdCoordinates(k - 1, 2 * j);
    IdCoordinates(k - 1, 2 * j + 1);
  }

  /** The iterator over proof elements and the captured values. */
  class Reconstruction {
    const proof: seq<Digest>
    var used: nat
    var captured: Values

    constructor (elements: seq<Digest>)
      ensures proof == elements && used == 0 && captured == map[]
    {
      proof, used, captured := elements, 0, map[];
    }

    method Record(x: nat, v: Digest, q: Query) returns (r: Result<Digest>)
      modifies this`captured
      ensures r == Ok(v) && Note(q, x, v, used, old(captured)) == Reading(v, used, captured)
    {
      if x in q.wanted {
        captured := captured[x := v];
      }
      return Ok(v);
    }

    /** The outcome and the new state are those of a reconstruction. */
    ghost predicate Matches(r: Result<Digest>, s: Result<Reading>)
      reads this
    {
      if s.Ok? then r.Ok? && s.value == Reading(r.value, used, captured) else r.Err?
    }

    method TakeGiven(x: nat, q: Query) returns (r: Result<Digest>)
      modifies this
      ensures Matches(r, Given(q, x, proof, old(used), old(captured)))
    {
      if x in q.retained {
        r := Record(x, q.retained[x], q);
      } else if used < |proof| {
        used := used + 1;
        r := Record(x, proof[used - 1], q);
      } else {
        r := Err;
      }
    }

    /** `recursive_hash`. */
    method RecursiveHash(x: nat, q: Query, ghost k: nat, ghost j: nat) returns (r: Result<Digest>)
      requires x == Id(k, j) && k <= Height(q.n) && InRange(q)
      modifies this
      ensures Matches(r, Rebuild(q, k, j, proof, old(used), old(captured)))
      decreases k, 1
    {
      IdCoordinates(k, j);
      if IsLeaf(x) && x / 2 in q.provided {
        r := Record(x, q.provided[x / 2], q);
        return;
      }
      var isAncestor := IsAncestor(x, q, k, j);
      if !isAncestor {
        r := TakeGiven(x, q);
        return;
      }
      if IsLeaf(x) {
        return Err;
      }
      r := HashChildren(x, q, k, j);
    }

    method HashChildren(x: nat, q: Query, ghost k: nat, ghost j: nat) returns (r: Result<Digest>)
      requires x == Id(k, j) && 0 < k <= Height(q.n) && InRange(q)
      requires Visited(q.provided.Keys, k, j)
      modifies this
      ensures Matches(r, Rebuild(q, k, j, proof, old(used), old(captured)))
      decreases k, 0
    {
      Children(x, k, j);
      var left := LeftChild(x);
      var right := RightChild(x, q.n);
      var l := RecursiveHash(left, q, k - 1, 2 * j);
      if l.Err? {
        return Err;
      }
      if left == right {
        r := Record(x, l.value, q);
        return;
      }
      var h := RecursiveHash(right, q, k - 1, 2 * j + 1);
      if h.Err? {
        return Err;
      }
      r := Record(x, LogNode(l.value, IsLeaf(left), h.value, IsLeaf(right)), q);
    }
  }

  /** The hashes by position. */
  function Pairs(positions: seq<nat>, hashes: seq<Digest>, n: nat): (m: Values)
    requires n <= |positions| && n <= |hashes|
    decreases n, positions
  {
    if n == 0 then map[] else Pairs(positions, hashes, n - 1)[positions[n - 1] := hashes[n - 1]]
  }

  lemma {:induction false} PairsAt(positions: seq<nat>, hashes: seq<Digest>, n: nat)
    requires n <= |positions| && n <= |hashes|
    ensures forall i :: i in Pairs(positions, hashes, n) <==> i in positions[..n]
  {
    if n > 0 {
      PairsAt(positions, hashes, n - 1);
      assert positions[..n] == positions[..n - 1] + [positions[n - 1]];
    }
  }

  /** `calculate_root_capturing`. */
  method CalculateRootCapturing(positions: seq<nat>, hashes: seq<Digest>, n: nat, proof: seq<Digest>, retained: Values,
                                wanted: set<nat>)
    returns (r: Result<(Digest, Values)>)
    requires forall a, b :: 0 <= a < b < |positions| ==> positions[a] != positions[b]
    requires Height(n) <= 62 && forall a :: 0 <= a < |positions| ==> n == 0 || positions[a] < n
    ensures r == if |positions| != |hashes| then Err
                 else CalculatedRoot(Query(n, Pairs(positions, hashes, |positions|), retained, wanted), proof)
  {
    if |positions| != |hashes| {
      return Err;
    }
    if n == 0 {
      return Ok((Zero, map[]));
    }
    var provided: Values := map[];
    for i := 0 to |positions|
      invariant provided == Pairs(positions, hashes, i)
    {
      provided := provided[positions[i] := hashes[i]];
    }
    PairsAt(positions, hashes, |positions|);
    var q := Query(n, provided, retained, wanted);
    RootPresent(n);
    MerkleRootIsFirst(n);
    var state := new Reconstruction(proof);
    var root := state.RecursiveHash(MerkleRoot(n), q, Height(n), 0);
    if root.Err? || state.used < |proof| {
      return Err;
    }
    return Ok((root.value, state.captured));
  }

  /** The ids of the full subtrees of n leaves. */
  function PeakIds(n: nat): (ids: set<nat>) {
    set i | 0 <= i < |Ids(Peaks(n, 0))| :: Ids(Peaks(n, 0))[i]
  }

  /** `calculate_root_with_retained`: also capturing the full subtrees of the tree. */
  method CalculateRootWithRetained(positions: seq<nat>, hashes: seq<Digest>, n: nat, proof: seq<Digest>,
                                   retained: Values)
    returns (r: Result<(Digest, Values)>)
    requires forall a, b :: 0 <= a < b < |positions| ==> positions[a] != positions[b]
    requires Height(n) <= 62 && forall a :: 0 <= a < |positions| ==> n == 0 || positions[a] < n
    ensures r == if |positions| != |hashes| then Err
                 else CalculatedRoot(Query(n, Pairs(positions, hashes, |positions|), retained, PeakIds(n)), proof)
  {
    var roots := GetRoots(n);
    var peakSet := set i | 0 <= i < |roots| :: roots[i];
    r := CalculateRootCapturing(positions, hashes, n, proof, retained, peakSet);
  }
}
