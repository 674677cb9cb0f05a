/**
 * The stored log tree (src/tree/log.rs): only leaves are kept, eight to a chunk, and every other
 * node is recomputed. Chunk data is the sequence of its 32-byte values.
 */
module LogStore {
  import opened Digests
  import opened LogMath
  import opened LogTree

  // ---- chunks ----

  /** `chunk_id`: climbing to the next level that is 3 modulo 4. */
  method ChunkId(x: nat) returns (c: nat)
    ensures Level(c) >= Level(x)
    ensures Level(x) <= 3 ==> c == Id(3, Shift(IndexOf(x), 3 - Level(x)))
  {
    c := x;
    var i := 0;
    ghost var k, j := Level(x), IndexOf(x);
    CoordinatesId(x);
    while Level(c) % 4 != 3 && i < 64
      invariant c == Id(k, j) && Level(c) == k && k == Level(x) + i
      invariant Level(x) <= 3 ==> k <= 3 && Shift(j, 3 - k) == Shift(IndexOf(x), 3 - Level(x))
      decreases 64 - i
    {
      var l := Level(c);
      if l >= 62 {
        break;
      }
      ParentIsAbove(k, j);
      c := Parent(c);
      k, j := k + 1, j / 2;
      IdCoordinates(k, j);
      i := i + 1;
    }
  }

  /** `chunk_layout`: the ids of the fifteen nodes of a chunk, in order. */
  method ChunkLayout(chunkRoot: nat) returns (ids: seq<nat>)
    requires Level(chunkRoot) == 3
    ensures |ids| == 15 && forall p :: 0 <= p < 15 ==> ids[p] == 16 * IndexOf(chunkRoot) + p
  {
    LayoutIds(chunkRoot);
    var i7 := chunkRoot;
    var i3, i11 := LeftChild(i7), FullRightChild(i7);
    var i1, i5 := LeftChild(i3), FullRightChild(i3);
    var i9, i13 := LeftChild(i11), FullRightChild(i11);
    ids := [LeftChild(i1), i1, FullRightChild(i1), i3, LeftChild(i5), i5, FullRightChild(i5), i7,
            LeftChild(i9), i9, FullRightChild(i9), i11, LeftChild(i13), i13, FullRightChild(i13)];
  }

  lemma Parity(c: nat, p: nat)
    ensures IsLeaf(16 * c + p) <==> p % 2 == 0
  {
    var q := p / 2;
    assert 16 * c + p == 2 * (8 * c + q) + p % 2;
  }

  method IdMap(ids: seq<nat>, ghost base: nat) returns (m: map<int, nat>)
    requires |ids| == 15 && forall p :: 0 <= p < 15 ==> ids[p] == base + p
    ensures forall x :: x in m <==> 0 <= x - base < 15
    ensures forall x :: x in m ==> m[x] == x - base
  {
    m := map[];
    for i := 0 to 15
      invariant forall x :: x in m <==> 0 <= x - base < i
      invariant forall x :: x in m ==> m[x] == x - base
    {
      m := m[ids[i] := i];
    }
  }

  /** The children of the node k levels above the leaves, by the distance 2^k between ids. */
  lemma ChildIds(x: nat, k: nat, i: nat)
    requires x == Id(k, i) && 0 < k <= 3
    ensures Level(x) == k
    ensures LeftChild(x) == Id(k - 1, 2 * i) && FullRightChild(x) == Id(k - 1, 2 * i + 1)
    ensures LeftChild(x) == x - Pow2(k - 1) && FullRightChild(x) == x + Pow2(k - 1)
  {
    IdCoordinates(k, i);
    ChildrenAreBelow(k, i);
    IdDistance(k, i);
  }

  lemma IdDistance(k: nat, i: nat)
    requires 0 < k
    ensures Id(k - 1, 2 * i) == Id(k, i) - Pow2(k - 1) && Id(k - 1, 2 * i + 1) == Id(k, i) + Pow2(k - 1)
  {
    var d := Pow2(k - 1);
    IdFormula(k, i);
    IdFormula(k - 1, 2 * i);
    IdFormula(k - 1, 2 * i + 1);
    Spread(d, i, 2 * d);
  }

  lemma Spread(d: nat, i: nat, e: nat)
    requires e == 2 * d
    ensures e * (2 * i + 1) == 4 * (d * i) + 2 * d
    ensures d * (2 * (2 * i) + 1) == 4 * (d * i) + d && d * (2 * (2 * i + 1) + 1) == 4 * (d * i) + 3 * d
  {
  }

  ghost predicate HasChildren(x: nat, k: nat, d: nat) {
    x >= d && Level(x) == k && k > 0 && LeftChild(x) == x - d && FullRightChild(x) == x + d
  }

  lemma LayoutIds(x: nat)
    requires Level(x) == 3
    ensures x == 16 * IndexOf(x) + 7
    ensures HasChildren(x, 3, 4) && HasChildren(x - 4, 2, 2) && HasChildren(x + 4, 2, 2)
    ensures HasChildren(x - 6, 1, 1) && HasChildren(x - 2, 1, 1) && HasChildren(x + 2, 1, 1) && HasChildren(x + 6, 1, 1)
  {
    var c := IndexOf(x);
    CoordinatesId(x);
    IdFormula(3, c);
    Powers();
    ChildIds(x, 3, c);
    ChildIds(x - 4, 2, 2 * c);
    ChildIds(x + 4, 2, 2 * c + 1);
    ChildIds(x - 6, 1, 4 * c);
    ChildIds(x - 2, 1, 4 * c + 1);
    ChildIds(x + 2, 1, 4 * c + 2);
    ChildIds(x + 6, 1, 4 * c + 3);
  }

  lemma Powers()
    ensures Pow2(0) == 1 && Pow2(1) == 2 && Pow2(2) == 4 && Pow2(3) == 8
  {
  }

  /** The value of a chunk's node, which it has when all leaves below it are there. */
  function Slot(data: Leaves, k: nat, i: nat): (v: Option<Digest>) {
    if Complete(k, i, |data|) then CompleteIsPresent(k, i, |data|); Some(NodeValue(data, k, i)) else None
  }

  class NodeChunk {
    const chunkRoot: nat
    const nodes: array<Option<Digest>>
    const idMap: map<int, nat>

    ghost predicate Valid() {
      && nodes.Length == 15
      && Level(chunkRoot) == 3
      && (forall x :: x in idMap <==> 0 <= x - 16 * IndexOf(chunkRoot) < 15)
      && (forall x :: x in idMap ==> idMap[x] == x - 16 * IndexOf(chunkRoot))
    }

    /** The chunk has the first leaves of its eight, in order. */
    ghost predicate Holds(data: Leaves)
      requires Valid()
      reads nodes
    {
      |data| <= 8 && forall i :: 0 <= i < 8 ==> nodes[2 * i] == if i < |data| then Some(data[i]) else None
    }

    /** Every node whose leaves are all there has its value. */
    ghost predicate Computed(data: Leaves)
      requires Valid()
      reads nodes
    {
      && Holds(data)
      && (forall i :: 0 <= i < 4 ==> nodes[4 * i + 1] == Slot(data, 1, i))
      && nodes[3] == Slot(data, 2, 0) && nodes[11] == Slot(data, 2, 1)
      && nodes[7] == Slot(data, 3, 0)
    }

    constructor (root: nat, data: Option<seq<Digest>>)
      requires Level(root) == 3
      ensures Valid() && chunkRoot == root && fresh(nodes)
      ensures data.None? ==> Holds([])
      ensures data.Some? && |data.value| <= 8 ==> Computed(data.value)
    {
      chunkRoot := root;
      nodes := new Option<Digest>[15](_ => None);
      var ids := ChunkLayout(root);
      var m := IdMap(ids, 16 * IndexOf(root));
      idMap := m;
      new;
      if data.Some? {
        var cursor := 0;
        while cursor < 8 && cursor < |data.value|
          invariant 0 <= cursor <= 8 && cursor <= |data.value|
          invariant forall i :: 0 <= i < cursor ==> nodes[2 * i] == Some(data.value[i])
          invariant forall p :: 0 <= p < 15 && (p % 2 == 1 || p >= 2 * cursor) ==> nodes[p].None?
        {
          nodes[2 * cursor] := Some(data.value[cursor]);
          cursor := cursor + 1;
        }
        Recompute(data.value[..cursor]);
        assert |data.value| <= 8 ==> data.value[..cursor] == data.value;
      }
    }

    /** `recompute_intermediates`, bottom level first. */
    method Recompute(ghost data: Leaves)
      requires Valid() && Holds(data)
      modifies nodes
      ensures Holds(data)
      ensures old(Bare()) ==> Computed(data)
    {
      JoinPairs(data);
      JoinQuads(data);
      SlotSplit(data, 2, 0);
      Join(7, 4);
    }

    ghost predicate Bare()
      requires Valid()
      reads nodes
    {
      forall p :: 0 <= p < 15 && p % 2 == 1 ==> nodes[p].None?
    }

    method JoinPairs(ghost data: Leaves)
      requires Valid() && Holds(data)
      modifies nodes
      ensures Holds(data)
      ensures old(Bare()) ==> forall t :: 0 <= t < 4 ==> nodes[4 * t + 1] == Slot(data, 1, t)
      ensures old(Bare()) ==> nodes[3].None? && nodes[7].None? && nodes[11].None?
    {
      ghost var bare := Bare();
      for i := 0 to 4
        invariant Holds(data)
        invariant bare ==> forall t :: 0 <= t < i ==> nodes[4 * t + 1] == Slot(data, 1, t)
        invariant bare ==> forall t :: i <= t < 4 ==> nodes[4 * t + 1].None?
        invariant nodes[3] == old(nodes[3]) && nodes[7] == old(nodes[7]) && nodes[11] == old(nodes[11])
      {
        SlotSplit(data, 0, i);
        Join(4 * i + 1, 1);
      }
    }

    method JoinQuads(ghost data: Leaves)
      requires Valid() && Holds(data)
      modifies nodes
      ensures Holds(data) && nodes[7] == old(nodes[7])
      ensures forall t :: 0 <= t < 4 ==> nodes[4 * t + 1] == old(nodes[4 * t + 1])
      ensures old(nodes[3].None? && nodes[11].None?)
              && (forall t :: 0 <= t < 4 ==> nodes[4 * t + 1] == Slot(data, 1, t)) ==>
              nodes[3] == Slot(data, 2, 0) && nodes[11] == Slot(data, 2, 1)
    {
      for i := 0 to 2
        invariant Holds(data) && nodes[7] == old(nodes[7])
        invariant forall t :: 0 <= t < 4 ==> nodes[4 * t + 1] == old(nodes[4 * t + 1])
        invariant i == 0 ==> nodes[3] == old(nodes[3])
        invariant i < 2 ==> nodes[11] == old(nodes[11])
        invariant i > 0 && old(nodes[3].None? && nodes[1] == Slot(data, 1, 0) && nodes[5] == Slot(data, 1, 1)) ==>
                  nodes[3] == Slot(data, 2, 0)
        invariant i > 1 && old(nodes[11].None? && nodes[9] == Slot(data, 1, 2) && nodes[13] == Slot(data, 1, 3)) ==>
                  nodes[11] == Slot(data, 2, 1)
      {
        SlotSplit(data, 1, i);
        Join(8 * i + 3, 2);
      }
    }

    method Join(p: nat, d: nat)
      requires Valid() && 0 < d <= p && p + d < 15
      modifies nodes
      ensures forall q :: 0 <= q < 15 && q != p ==> nodes[q] == old(nodes[q])
      ensures nodes[p] == if nodes[p - d].Some? && nodes[p + d].Some?
                          then Some(LogNode(nodes[p - d].value, (p - d) % 2 == 0, nodes[p + d].value, (p + d) % 2 == 0))
                          else old(nodes[p])
    {
      var ids := ChunkLayout(chunkRoot);
      Parity(IndexOf(chunkRoot), p - d);
      Parity(IndexOf(chunkRoot), p + d);
      if nodes[p - d].Some? && nodes[p + d].Some? {
        nodes[p] := Some(LogNode(nodes[p - d].value, IsLeaf(ids[p - d]), nodes[p + d].value, IsLeaf(ids[p + d])));
      }
    }

    method SetValue(x: nat, v: Digest) returns (r: Result<()>)
      requires Valid()
      modifies nodes
      ensures r.Ok? <==> 0 <= x - 16 * IndexOf(chunkRoot) < 15 && (x - 16 * IndexOf(chunkRoot)) % 2 == 0
      ensures nodes[..] == if r.Ok? then old(nodes[..])[x - 16 * IndexOf(chunkRoot) := Some(v)] else old(nodes[..])
    {
      if x !in idMap || idMap[x] % 2 != 0 {
        return Err;
      }
      nodes[idMap[x]] := Some(v);
      return Ok(());
    }

    /** Setting the first leaf that is not there yet. */
    method SetLeaf(x: nat, v: Digest, ghost data: Leaves) returns (r: Result<()>)
      requires Valid() && Holds(data) && |data| < 8 && x == 16 * IndexOf(chunkRoot) + 2 * |data|
      modifies nodes
      ensures r.Ok? && Holds(data + [v])
    {
      r := SetValue(x, v);
      assert forall p :: 0 <= p < 15 ==> nodes[p] == nodes[..][p];
    }

    method GetValue(x: nat) returns (v: Option<Digest>)
      requires Valid()
      ensures v == if 0 <= x - 16 * IndexOf(chunkRoot) < 15 then nodes[x - 16 * IndexOf(chunkRoot)] else None
    {
      if x !in idMap {
        return None;
      }
      return nodes[idMap[x]];
    }

    method Serialize(ghost data: Leaves) returns (out: seq<Digest>)
      requires Valid() && Holds(data)
      ensures out == data
    {
      out := [];
      var i := 0;
      while i < 8
        invariant 0 <= i <= 8 && |out| == i && i <= |data| && out == data[..i]
      {
        if nodes[2 * i].None? {
          break;
        }
        out := out + [nodes[2 * i].value];
        i := i + 1;
      }
    }
  }

  /** A node is complete when both children are, and then it hashes them. */
  lemma SlotSplit(data: Leaves, k: nat, i: nat)
    ensures var (l, r) := (Slot(data, k, 2 * i), Slot(data, k, 2 * i + 1));
            Slot(data, k + 1, i) == if l.Some? && r.Some? then Some(LogNode(l.value, k == 0, r.value, k == 0)) else None
  {
    ShiftSplit(|data|, k);
    if Complete(k + 1, i, |data|) { CompleteValue(data, k, i); }
  }
}
