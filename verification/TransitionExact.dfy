/** What an accepted transition means for the map under the old root. */
module TransitionExact {
  import opened Digests
  import opened SparseTree
  import opened PrefixProofs
  import opened PartialTree
  import opened Transition

  /** The partial tree gives the node at `p` the value it has in the tree over `m`. */
  ghost predicate Tracks(nodes: Nodes, m: Contents, p: Path) {
    |p| <= INDEX_BITS && Resolve(nodes, p) == NodeHash(m, p)
  }

  /**
   * Resolving `p` never hashes two empty children. It would if a removal left siblings behind
   * that are all empty, where the tree over the map has an empty node.
   */
  predicate Tight(nodes: Nodes, p: Path)
    requires |p| <= INDEX_BITS
    decreases INDEX_BITS - |p|, nodes
  {
    p in nodes || |p| == INDEX_BITS || !HasDescendant(nodes, p) ||
    (Tight(nodes, p + [false]) && Tight(nodes, p + [true]) &&
     !(Resolve(nodes, p + [false]) == Zero && Resolve(nodes, p + [true]) == Zero))
  }

  lemma ResolveInner(nodes: Nodes, p: Path)
    requires |p| < INDEX_BITS && p !in nodes && HasDescendant(nodes, p)
    ensures Resolve(nodes, p) == PrefixNode(Resolve(nodes, p + [false]), Resolve(nodes, p + [true]))
  {}

  lemma NoDescendantBelow(nodes: Nodes, p: Path, bit: bool)
    requires |p| < INDEX_BITS && !HasDescendant(nodes, p)
    ensures p + [bit] !in nodes && !HasDescendant(nodes, p + [bit])
    ensures Resolve(nodes, p + [bit]) == Zero
  {
    var c := p + [bit];
    assert Above(p, c) && |c| > |p|;
    forall q | Above(c, q) ensures Above(p, q) { AboveTransitive(p, c, q); }
  }

  lemma TracksChild(nodes: Nodes, m: Contents, p: Path, bit: bool)
    requires Tracks(nodes, m, p) && |p| < INDEX_BITS && p !in nodes
    ensures Tracks(nodes, m, p + [bit])
  {
    if HasDescendant(nodes, p) {
      ResolveInner(nodes, p);
      assert Occupied(m, p);
    } else {
      NoDescendantBelow(nodes, p, bit);
      assert !Occupied(m, p);
      OccupiedChildren(m, p);
    }
  }

  /** A key of the map is never invisible: a recorded node lies on its path. */
  lemma {:induction false} VisibleNode(nodes: Nodes, m: Contents, p: Path, key: Index) returns (q: Path)
    requires Tracks(nodes, m, p) && key in m && Above(p, key)
    ensures q in nodes && Above(p, q) && Above(q, key)
    decreases INDEX_BITS - |p|
  {
    if p in nodes {
      return p;
    }
    assert Occupied(m, p);
    assert |p| < INDEX_BITS;
    AboveChild(p, key[|p|], key);
    TracksChild(nodes, m, p, key[|p|]);
    q := VisibleNode(nodes, m, p + [key[|p|]], key);
    assert Above(p, p + [key[|p|]]);
    AboveTransitive(p, p + [key[|p|]], q);
  }

  lemma SpansNoneAgrees(m: Contents, added: seq<Leaf>, removed: seq<Leaf>, p: Path)
    requires SpansNone(p, Keys(added) + Keys(removed))
    ensures AgreeBelow(m, Changed(m, added, removed), p)
  {
    forall key: Index | Above(p, key) ensures SameAt(m, Changed(m, added, removed), key) {
      AppliedAt(map[], m, added, removed, key);
    }
  }

  /** A recorded node keeps the value that the changed map gives it. */
  lemma RecordedTracks(nodes: Nodes, m: Contents, added: seq<Leaf>, removed: seq<Leaf>, p: Path)
    requires Tracks(nodes, m, p)
    requires p in nodes && |p| < INDEX_BITS ==> SpansNone(p, Keys(added) + Keys(removed))
    requires p in Apply(nodes, added, removed) || |p| == INDEX_BITS
    ensures Tracks(Apply(nodes, added, removed), Changed(m, added, removed), p)
  {
    var m' := Changed(m, added, removed);
    AppliedAt(nodes, m, added, removed, p);
    if |p| < INDEX_BITS {
      SpansNoneAgrees(m, added, removed, p);
      NodeHashLocal(m, m', p);
    } else {
      LeafValue(m, p);
      LeafValue(m', p);
    }
  }

  lemma LeafValue(m: Contents, p: Path)
    requires |p| == INDEX_BITS
    ensures NodeHash(m, p) == if p in m then PrefixLeaf(p, m[p]) else Zero
  {
    assert Above(p, p);
    assert forall key: Index | Above(p, key) :: key == p;
  }

  /** Every key of the changed map has a recorded node on its path, at `p` or below. */
  lemma RecordedBelow(nodes: Nodes, m: Contents, added: seq<Leaf>, removed: seq<Leaf>, p: Path, key: Index)
    returns (q: Path)
    requires Tracks(nodes, m, p) && |p| < INDEX_BITS
    requires key in Changed(m, added, removed) && Above(p, key)
    ensures q in Apply(nodes, added, removed) && Above(p, q)
    ensures |q| > |p| || q == p
  {
    AppliedAt(nodes, m, added, removed, key);
    if key in Keys(added) {
      q := key;
    } else {
      q := VisibleNode(nodes, m, p, key);
      AppliedAt(nodes, m, added, removed, q);
      assert q in Keys(removed) ==> q == key;
    }
  }

  /** Where nothing is recorded after the change, the changed map is empty. */
  lemma UnrecordedEmpty(nodes: Nodes, m: Contents, added: seq<Leaf>, removed: seq<Leaf>, p: Path)
    requires Tracks(nodes, m, p) && |p| < INDEX_BITS
    requires var nodes' := Apply(nodes, added, removed); p !in nodes' && !HasDescendant(nodes', p)
    ensures !Occupied(Changed(m, added, removed), p)
  {
    if key :| key in Changed(m, added, removed) && Above(p, key) {
      var q := RecordedBelow(nodes, m, added, removed, p, key);
    }
  }

  /**
   * A partial tree that tracks the old map resolves, after the declared changes, to the changed
   * map's node exactly when it is tight there.
   */
  lemma {:induction false} ExactBelow(nodes: Nodes, m: Contents, added: seq<Leaf>, removed: seq<Leaf>, p: Path)
    requires Tracks(nodes, m, p)
    requires forall q :: q in nodes && |q| < INDEX_BITS ==> SpansNone(q, Keys(added) + Keys(removed))
    ensures Tracks(Apply(nodes, added, removed), Changed(m, added, removed), p)
            <==> Tight(Apply(nodes, added, removed), p)
    decreases INDEX_BITS - |p|
  {
    var nodes' := Apply(nodes, added, removed);
    var m' := Changed(m, added, removed);
    if p in nodes' || |p| == INDEX_BITS {
      RecordedTracks(nodes, m, added, removed, p);
    } else if !HasDescendant(nodes', p) {
      UnrecordedEmpty(nodes, m, added, removed, p);
    } else {
      AppliedAt(nodes, m, added, removed, p);
      TracksChild(nodes, m, p, false);
      TracksChild(nodes, m, p, true);
      ExactBelow(nodes, m, added, removed, p + [false]);
      ExactBelow(nodes, m, added, removed, p + [true]);
      ResolveInner(nodes', p);
      OccupiedChildren(m', p);
    }
  }

  /**
   * Whatever the proof: a transition accepted against the root of `m` returns the root of the
   * changed map if and only if the changed partial tree is tight.
   */
  lemma AcceptedTransitionIsExact(m: Contents, added: seq<Leaf>, removed: seq<Leaf>, proof: PrefixProof)
    requires NextRoot(Root(m), added, removed, proof).Ok?
    ensures var a := Assemble(added, removed, proof, |proof.results|).value;
            NextRoot(Root(m), added, removed, proof).value == Root(Changed(m, added, removed))
            <==> Tight(Apply(a.nodes, added, removed), [])
  {
    AssembleWellPlaced(added, removed, proof, |proof.results|);
    ExactBelow(Assemble(added, removed, proof, |proof.results|).value.nodes, m, added, removed, []);
  }

  /** When every removed key is added again, nothing recorded is left over an empty subtree. */
  lemma ReaddedOccupied(nodes: Nodes, m: Contents, added: seq<Leaf>, removed: seq<Leaf>, p: Path)
    requires Tracks(nodes, m, p) && |p| < INDEX_BITS && p !in nodes
    requires Keys(removed) <= Keys(added)
    requires HasDescendant(Apply(nodes, added, removed), p)
    ensures Occupied(Changed(m, added, removed), p)
  {
    var key: Path;
    if HasDescendant(nodes, p) {
      ResolveInner(nodes, p);
      assert Occupied(m, p);
      key :| key in m && Above(p, key);
    } else {
      key :| key in Apply(nodes, added, removed) && |key| > |p| && Above(p, key);
    }
    AppliedAt(nodes, m, added, removed, key);
    assert key in Changed(m, added, removed) && Above(p, key);
  }

  lemma {:induction false} ReaddedIsTight(nodes: Nodes, m: Contents, added: seq<Leaf>, removed: seq<Leaf>, p: Path)
    requires Tracks(nodes, m, p) && Keys(removed) <= Keys(added)
    requires forall q :: q in nodes && |q| < INDEX_BITS ==> SpansNone(q, Keys(added) + Keys(removed))
    ensures Tight(Apply(nodes, added, removed), p)
    decreases INDEX_BITS - |p|
  {
    var nodes' := Apply(nodes, added, removed);
    if p !in nodes' && |p| < INDEX_BITS && HasDescendant(nodes', p) {
      AppliedAt(nodes, m, added, removed, p);
      TracksChild(nodes, m, p, false);
      TracksChild(nodes, m, p, true);
      ReaddedIsTight(nodes, m, added, removed, p + [false]);
      ReaddedIsTight(nodes, m, added, removed, p + [true]);
      ExactBelow(nodes, m, added, removed, p + [false]);
      ExactBelow(nodes, m, added, removed, p + [true]);
      ReaddedOccupied(nodes, m, added, removed, p);
      OccupiedChildren(Changed(m, added, removed), p);
    }
  }

  /** Removing keys and adding them again is only adding them. */
  lemma ReaddedIsAdded(m: Contents, added: seq<Leaf>, removed: seq<Leaf>)
    requires Keys(removed) <= Keys(added)
    ensures Changed(m, added, removed) == AddAll(m, added, |added|)
  {
    var m1, m2 := Changed(m, added, removed), AddAll(m, added, |added|);
    assert added[..|added|] == added;
    forall key: Index ensures SameAt(m1, m2, key) {
      AppliedAt(map[], m, added, removed, key);
      SetLeavesAt(map[], m, added, |added|, key);
      SetLeavesAt(map[], m - Keys(removed), added, |added|, key);
      if key in Keys(added) { AddedValue(m, m - Keys(removed), added, |added|, key); }
    }
    assert forall key: Index | key in m1 :: SameAt(m1, m2, key);
    assert forall key: Index | key in m2 :: SameAt(m1, m2, key);
  }

  lemma {:induction false} AddedValue(m1: Contents, m2: Contents, leaves: seq<Leaf>, n: nat, key: Index)
    requires n <= |leaves| && key in Keys(leaves[..n])
    ensures key in AddAll(m1, leaves, n) && key in AddAll(m2, leaves, n)
    ensures AddAll(m1, leaves, n)[key] == AddAll(m2, leaves, n)[key]
  {
    assert leaves[..n] == leaves[..n - 1] + [leaves[n - 1]];
    if leaves[n - 1].vrfOutput != key {
      AddedValue(m1, m2, leaves, n - 1, key);
    }
  }

  /**
   * With every removed key also added, any accepted transition against the root of `m` returns
   * the root of `m` overridden by the added leaves.
   */
  lemma AcceptedTransitionAdds(m: Contents, added: seq<Leaf>, removed: seq<Leaf>, proof: PrefixProof)
    requires Keys(removed) <= Keys(added)
    requires NextRoot(Root(m), added, removed, proof).Ok?
    ensures NextRoot(Root(m), added, removed, proof) == Ok(Root(AddAll(m, added, |added|)))
  {
    AcceptedTransitionIsExact(m, added, removed, proof);
    AssembleWellPlaced(added, removed, proof, |proof.results|);
    ReaddedIsTight(Assemble(added, removed, proof, |proof.results|).value.nodes, m, added, removed, []);
    ReaddedIsAdded(m, added, removed);
  }
}
