/**
 * The auditor's step from one prefix root to the next (src/client/verifier.rs,
 * PrefixTransitioner; section 15.2 of draft-ietf-keytrans-protocol-05, steps 6 and 7).
 */
module Transition {
  import opened Digests
  import opened SparseTree
  import opened PrefixProofs
  import opened PartialTree

  /** The nodes known so far, the elements that span another batch key, and the elements used. */
  datatype Assembly = Assembly(nodes: Nodes, covering: seq<(Path, Digest)>, offset: nat)

  function Keys(leaves: seq<Leaf>): (keys: set<Index>)
    ensures forall i :: 0 <= i < |leaves| ==> leaves[i].vrfOutput in keys
    ensures forall k :: k in keys ==> exists i :: 0 <= i < |leaves| && leaves[i].vrfOutput == k
  {
    set leaf | leaf in leaves :: leaf.vrfOutput
  }

  predicate CoversBatchKey(batch: set<Index>, key: Index, p: Path) {
    exists other :: other in batch && other != key && Above(p, other)
  }

  /** The siblings of `key`, added one level at a time. */
  function AddSiblings(a: Assembly, key: Index, elements: seq<Digest>, batch: set<Index>, n: nat): (r: Result<Assembly>)
    requires n <= |elements| <= INDEX_BITS
    decreases n
  {
    if n == 0 then Ok(a)
    else
      var b :- AddSiblings(a, key, elements, batch, n - 1);
      var p := SiblingPath(key, n - 1);
      var v := elements[n - 1];
      if CoversBatchKey(batch, key, p) then Ok(b.(covering := b.covering + [(p, v)]))
      else if p in b.nodes && b.nodes[p] != v then Err
      else Ok(b.(nodes := b.nodes[p := v]))
  }

  function LeafHash(leaf: Leaf): Digest {
    PrefixLeaf(leaf.vrfOutput, leaf.commitment)
  }

  /** The old tree's leaf at the end of the searched path, where the outcome names one. */
  function AddTerminal(nodes: Nodes, item: Leaf, result: SearchResult, isRemoved: bool, removedKeys: set<Index>)
    : (r: Result<Nodes>) {
    match result.resultType
    case 1 =>
      if isRemoved then Ok(nodes[item.vrfOutput := LeafHash(item)])
      else if item.vrfOutput !in removedKeys then Err
      else Ok(nodes)
    case 2 =>
      if result.leaf.None? || result.leaf.value.vrfOutput == item.vrfOutput then Err
      else Ok(nodes[result.leaf.value.vrfOutput := LeafHash(result.leaf.value)])
    case 3 => Ok(nodes)
    case _ => Err
  }

  /** One outcome of the batch proof: its terminal, then its siblings. */
  function Absorb(a: Assembly, item: Leaf, result: SearchResult, isRemoved: bool, removedKeys: set<Index>,
                  batch: set<Index>, elements: seq<Digest>): (r: Result<Assembly>)
  {
    var end := a.offset + result.depth;
    if result.depth > INDEX_BITS || end > |elements| then Err
    else
      var nodes :- AddTerminal(a.nodes, item, result, isRemoved, removedKeys);
      AddSiblings(Assembly(nodes, a.covering, end), item.vrfOutput, elements[a.offset..end], batch, result.depth)
  }

  /** What the first `n` outcomes of the batch proof say about the old tree. */
  function Assemble(added: seq<Leaf>, removed: seq<Leaf>, proof: PrefixProof, n: nat): (r: Result<Assembly>)
    requires n <= |proof.results| == |added| + |removed|
    decreases n
  {
    if n == 0 then Ok(Assembly(map[], [], 0))
    else
      var a :- Assemble(added, removed, proof, n - 1);
      Absorb(a, (added + removed)[n - 1], proof.results[n - 1], n - 1 >= |added|, Keys(removed),
             Keys(added) + Keys(removed), proof.elements)
  }

  predicate CoveringAgrees(a: Assembly)
    requires forall i :: 0 <= i < |a.covering| ==> |a.covering[i].0| <= INDEX_BITS
  {
    forall i :: 0 <= i < |a.covering| ==> Resolve(a.nodes, a.covering[i].0) == a.covering[i].1
  }

  /** The declared changes, applied to the assembled leaves: removals, then additions. */
  function Apply(nodes: Nodes, added: seq<Leaf>, removed: seq<Leaf>): (nodes': Nodes) {
    SetLeaves(nodes - Keys(removed), added, |added|)
  }

  function SetLeaves(nodes: Nodes, leaves: seq<Leaf>, n: nat): (nodes': Nodes)
    requires n <= |leaves|
    decreases n
  {
    if n == 0 then nodes
    else SetLeaves(nodes, leaves, n - 1)[leaves[n - 1].vrfOutput := LeafHash(leaves[n - 1])]
  }

  /** Every node and covering element recorded is a node of the tree, and no inner one spans a batch key. */
  ghost predicate WellPlaced(a: Assembly, batch: set<Index>) {
    && (forall p :: p in a.nodes ==> |p| <= INDEX_BITS && (|p| < INDEX_BITS ==> SpansNone(p, batch)))
    && (forall i :: 0 <= i < |a.covering| ==> |a.covering[i].0| <= INDEX_BITS)
  }

  ghost predicate SpansNone(p: Path, batch: set<Index>) {
    forall key :: key in batch ==> !Above(p, key)
  }

  lemma {:induction false} SiblingsWellPlaced(a: Assembly, key: Index, elements: seq<Digest>, batch: set<Index>, n: nat)
    requires n <= |elements| <= INDEX_BITS && WellPlaced(a, batch)
    ensures AddSiblings(a, key, elements, batch, n).Ok? ==>
            WellPlaced(AddSiblings(a, key, elements, batch, n).value, batch)
  {
    if n > 0 { SiblingsWellPlaced(a, key, elements, batch, n - 1); }
  }

  lemma AbsorbWellPlaced(a: Assembly, item: Leaf, result: SearchResult, isRemoved: bool, removedKeys: set<Index>,
                         batch: set<Index>, elements: seq<Digest>)
    requires WellPlaced(a, batch)
    ensures var r := Absorb(a, item, result, isRemoved, removedKeys, batch, elements);
            r.Ok? ==> WellPlaced(r.value, batch)
  {
    var end := a.offset + result.depth;
    if Absorb(a, item, result, isRemoved, removedKeys, batch, elements).Ok? {
      var nodes := AddTerminal(a.nodes, item, result, isRemoved, removedKeys).value;
      SiblingsWellPlaced(Assembly(nodes, a.covering, end), item.vrfOutput, elements[a.offset..end], batch,
                         result.depth);
    }
  }

  lemma {:induction false} AssembleWellPlaced(added: seq<Leaf>, removed: seq<Leaf>, proof: PrefixProof, n: nat)
    requires n <= |proof.results| == |added| + |removed|
    ensures var r := Assemble(added, removed, proof, n); r.Ok? ==> WellPlaced(r.value, Keys(added) + Keys(removed))
  {
    if n > 0 && Assemble(added, removed, proof, n).Ok? {
      AssembleWellPlaced(added, removed, proof, n - 1);
      var before := Assemble(added, removed, proof, n - 1).value;
      AbsorbWellPlaced(before, (added + removed)[n - 1], proof.results[n - 1],
                       n - 1 >= |added|, Keys(removed), Keys(added) + Keys(removed), proof.elements);
    }
  }

  /** `verify_and_transition`: the new root, or rejection. */
  function NextRoot(oldRoot: Digest, added: seq<Leaf>, removed: seq<Leaf>, proof: PrefixProof): (r: Result<Digest>) {
    if |proof.results| != |added| + |removed| then Err
    else
      var a :- Assemble(added, removed, proof, |proof.results|);
      AssembleWellPlaced(added, removed, proof, |proof.results|);
      if a.offset != |proof.elements| then Err
      else if !CoveringAgrees(a) then Err
      else
        var computedOld := Resolve(a.nodes, []);
        if computedOld != oldRoot && !(oldRoot == Zero && computedOld == Zero) then Err
        else Ok(Resolve(Apply(a.nodes, added, removed), []))
  }

  /** The map after the declared changes. */
  function Changed(m: Contents, added: seq<Leaf>, removed: seq<Leaf>): (m': Contents) {
    AddAll(m - Keys(removed), added, |added|)
  }

  function AddAll(m: Contents, leaves: seq<Leaf>, n: nat): (m': Contents)
    requires n <= |leaves|
    decreases n
  {
    if n == 0 then m else With(AddAll(m, leaves, n - 1), leaves[n - 1].vrfOutput, leaves[n - 1].commitment)
  }

  /** Setting leaves in the partial tree is adding them to the map. */
  lemma {:induction false} SetLeavesAt(nodes: Nodes, m: Contents, leaves: seq<Leaf>, n: nat, p: Path)
    requires n <= |leaves|
    ensures var set' := SetLeaves(nodes, leaves, n); var m' := AddAll(m, leaves, n);
            if p in Keys(leaves[..n])
            then |p| == INDEX_BITS && p in set' && p in m' && set'[p] == PrefixLeaf(p, m'[p])
            else && (p in set' <==> p in nodes) && (p in nodes ==> set'[p] == nodes[p])
                 && (|p| == INDEX_BITS ==> (p in m' <==> p in m) && (p in m ==> m'[p] == m[p]))
  {
    if n > 0 {
      SetLeavesAt(nodes, m, leaves, n - 1, p);
      assert leaves[..n] == leaves[..n - 1] + [leaves[n - 1]];
    }
  }

  /** How the partial tree and the map change at one path: alike. */
  lemma AppliedAt(nodes: Nodes, m: Contents, added: seq<Leaf>, removed: seq<Leaf>, p: Path)
    ensures var nodes' := Apply(nodes, added, removed); var m' := Changed(m, added, removed);
            if p in Keys(added)
            then |p| == INDEX_BITS && p in nodes' && p in m' && nodes'[p] == PrefixLeaf(p, m'[p])
            else if p in Keys(removed)
            then |p| == INDEX_BITS && p !in nodes' && p !in m'
            else && (p in nodes' <==> p in nodes) && (p in nodes ==> nodes'[p] == nodes[p])
                 && (|p| == INDEX_BITS ==> (p in m' <==> p in m) && (p in m ==> m'[p] == m[p]))
  {
    SetLeavesAt(nodes - Keys(removed), m - Keys(removed), added, |added|, p);
    assert added[..|added|] == added;
  }

  /** The inner loop of `verify_and_transition`: the siblings of one path. */
  method PlaceSiblings(tree: PartialPrefixTree, covering: seq<(Path, Digest)>, key: Index, elements: seq<Digest>,
                       batchKeys: set<Index>, ghost offset: nat)
    returns (ok: bool, covering': seq<(Path, Digest)>)
    requires |elements| <= INDEX_BITS
    modifies tree
    ensures var r := AddSiblings(Assembly(old(tree.nodes), covering, offset), key, elements, batchKeys, |elements|);
            if ok then r == Ok(Assembly(tree.nodes, covering', offset)) else r == Err
  {
    ghost var a := Assembly(tree.nodes, covering, offset);
    covering' := covering;
    for k := 0 to |elements|
      invariant AddSiblings(a, key, elements, batchKeys, k) == Ok(Assembly(tree.nodes, covering', offset))
    {
      var sibPath := SiblingPath(key, k);
      if CoversBatchKey(batchKeys, key, sibPath) {
        covering' := covering' + [(sibPath, elements[k])];
      } else {
        var agrees := tree.Insert(sibPath, elements[k]);
        if !agrees {
          FailedSiblings(a, key, elements, batchKeys, k + 1, |elements|);
          return false, covering';
        }
      }
    }
    ok := true;
  }

  lemma {:induction false} FailedSiblings(a: Assembly, key: Index, elements: seq<Digest>, batch: set<Index>, n: nat,
                                          n': nat)
    requires n <= n' <= |elements| <= INDEX_BITS && AddSiblings(a, key, elements, batch, n).Err?
    ensures AddSiblings(a, key, elements, batch, n').Err?
    decreases n'
  {
    if n < n' { FailedSiblings(a, key, elements, batch, n, n' - 1); }
  }

  lemma {:induction false} FailedAssembly(added: seq<Leaf>, removed: seq<Leaf>, proof: PrefixProof, n: nat, n': nat)
    requires n <= n' <= |proof.results| == |added| + |removed| && Assemble(added, removed, proof, n).Err?
    ensures Assemble(added, removed, proof, n').Err?
    decreases n'
  {
    if n < n' { FailedAssembly(added, removed, proof, n, n' - 1); }
  }

  /** One round of the outer loop: the outcome for `item` ends at a leaf or an empty node of the old tree. */
  method PlaceOutcome(tree: PartialPrefixTree, covering: seq<(Path, Digest)>, offset: nat, item: Leaf,
                      result: SearchResult, isRemovedResult: bool, removedKeys: set<Index>, batchKeys: set<Index>,
                      elements: seq<Digest>)
    returns (ok: bool, covering': seq<(Path, Digest)>, offset': nat)
    modifies tree
    ensures var r := Absorb(Assembly(old(tree.nodes), covering, offset), item, result, isRemovedResult, removedKeys,
                            batchKeys, elements);
            if ok then r == Ok(Assembly(tree.nodes, covering', offset')) else r == Err
  {
    covering', offset' := covering, offset;
    var depth := result.depth;
    if depth > INDEX_BITS {
      return false, covering', offset';
    }
    var end := offset + depth;
    if end > |elements| {
      return false, covering', offset';
    }
    offset' := end;
    match result.resultType {
      case 1 =>
        if isRemovedResult {
          tree.SetLeaf(item.vrfOutput, LeafHash(item));
        } else if item.vrfOutput !in removedKeys {
          return false, covering', offset';
        }
      case 2 =>
        if result.leaf.None? || result.leaf.value.vrfOutput == item.vrfOutput {
          return false, covering', offset';
        }
        tree.SetLeaf(result.leaf.value.vrfOutput, LeafHash(result.leaf.value));
      case 3 =>
      case _ =>
        return false, covering', offset';
    }
    ok, covering' := PlaceSiblings(tree, covering, item.vrfOutput, elements[offset..end], batchKeys, end);
  }

  /** The outer loop: every outcome of the batch, in order. */
  method PlaceBatch(tree: PartialPrefixTree, added: seq<Leaf>, removed: seq<Leaf>, proof: PrefixProof)
    returns (ok: bool, covering: seq<(Path, Digest)>, offset: nat)
    requires |proof.results| == |added| + |removed| && tree.nodes == map[]
    modifies tree
    ensures var r := Assemble(added, removed, proof, |proof.results|);
            if ok then r == Ok(Assembly(tree.nodes, covering, offset)) else r == Err
  {
    var removedKeys := Keys(removed);
    var batchKeys := Keys(added) + Keys(removed);
    var items := added + removed;
    covering, offset := [], 0;
    for i := 0 to |items|
      invariant Assemble(added, removed, proof, i) == Ok(Assembly(tree.nodes, covering, offset))
    {
      ok, covering, offset := PlaceOutcome(tree, covering, offset, items[i], proof.results[i],
                                           i >= |added|, removedKeys, batchKeys, proof.elements);
      if !ok {
        assert Assemble(added, removed, proof, i + 1).Err?;
        FailedAssembly(added, removed, proof, i + 1, |proof.results|);
        return;
      }
    }
    ok := true;
  }

  /** Covering elements are compared with what the spanned keys' own paths give. */
  method CheckCovering(nodes: Nodes, covering: seq<(Path, Digest)>) returns (agrees: bool)
    requires forall j :: 0 <= j < |covering| ==> |covering[j].0| <= INDEX_BITS
    ensures agrees <==> forall j :: 0 <= j < |covering| ==> Resolve(nodes, covering[j].0) == covering[j].1
  {
    for i := 0 to |covering|
      invariant forall j :: 0 <= j < i ==> Resolve(nodes, covering[j].0) == covering[j].1
    {
      var derived := Resolve(nodes, covering[i].0);
      if derived != covering[i].1 {
        return false;
      }
    }
    return true;
  }

  method ApplyChanges(tree: PartialPrefixTree, added: seq<Leaf>, removed: seq<Leaf>)
    modifies tree
    ensures tree.nodes == Apply(old(tree.nodes), added, removed)
  {
    for i := 0 to |removed|
      invariant tree.nodes == old(tree.nodes) - Keys(removed[..i])
    {
      assert removed[..i + 1] == removed[..i] + [removed[i]];
      tree.RemoveLeaf(removed[i].vrfOutput);
    }
    assert removed[..|removed|] == removed;
    for i := 0 to |added|
      invariant tree.nodes == SetLeaves(old(tree.nodes) - Keys(removed), added, i)
    {
      tree.SetLeaf(added[i].vrfOutput, LeafHash(added[i]));
    }
  }

  /** `verify_and_transition`. */
  method VerifyAndTransition(oldRoot: Digest, added: seq<Leaf>, removed: seq<Leaf>, proof: PrefixProof)
    returns (r: Result<Digest>)
    ensures r == NextRoot(oldRoot, added, removed, proof)
  {
    if |proof.results| != |added| + |removed| {
      return Err;
    }
    var tree := new PartialPrefixTree();
    var ok, covering, elementsOffset := PlaceBatch(tree, added, removed, proof);
    if !ok || elementsOffset != |proof.elements| {
      return Err;
    }
    AssembleWellPlaced(added, removed, proof, |proof.results|);
    var agrees := CheckCovering(tree.nodes, covering);
    if !agrees {
      return Err;
    }
    var computedOld := Resolve(tree.nodes, []);
    var oldIsEmpty := oldRoot == Zero;
    if computedOld != oldRoot && !(oldIsEmpty && computedOld == Zero) {
      return Err;
    }
    ApplyChanges(tree, added, removed);
    return Ok(Resolve(tree.nodes, []));
  }
}
