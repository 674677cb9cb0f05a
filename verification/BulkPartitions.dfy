/**
 * Partitions of the prefix tree by the first k bits of an index, and the hash tree over their
 * roots (src/bulk.rs).
 */
module BulkPartitions {
  import opened Digests
  import opened SparseTree
  import opened LogMath

  /** The path of the node with number j at level m. */
  function Bits(j: nat, m: nat): (p: Path)
    ensures |p| == m
    decreases m, j
  {
    if m == 0 then [] else Bits(j / 2, m - 1) + [j % 2 == 1]
  }

  /** The number of the other child of a node's parent. */
  function Sib(x: nat): (y: nat) {
    FlipBit(x, 0)
  }

  /** The last partition below the node with number x, b levels down. */
  function Rightmost(b: nat, x: nat): (p: nat)
    decreases b, x
  {
    if b == 0 then x else Rightmost(b - 1, 2 * x + 1)
  }

  /** x | ((1 << b) - 1) */
  function OrLow(x: nat, b: nat): (y: nat)
    decreases b, x
  {
    if b == 0 then x else 2 * OrLow(x / 2, b - 1) + 1
  }

  lemma {:induction false} RightmostHalf(b: nat, x: nat)
    requires b > 0
    ensures Rightmost(b, x) == 2 * Rightmost(b - 1, x) + 1
    decreases b
  {
    if b > 1 { RightmostHalf(b - 1, 2 * x + 1); }
  }

  /** `sibling_root_pid`: the representative partition of the sibling subtree at depth d. */
  function SiblingRootPid(p: nat, d: nat, k: nat): (q: nat)
    requires d < k
  {
    OrLow(FlipBit(p, k - 1 - d), k - 1 - d)
  }

  lemma {:induction false} OrFlip(p: nat, b: nat)
    ensures OrLow(FlipBit(p, b), b) == Rightmost(b, Sib(Shift(p, b)))
    decreases b
  {
    if b > 0 {
      OrFlip(p / 2, b - 1);
      RightmostHalf(b, Sib(Shift(p, b)));
      assert FlipBit(p, b) / 2 == FlipBit(p / 2, b - 1);
    }
  }

  /** It is the last partition of the sibling subtree. */
  lemma SiblingIsRightmost(p: nat, d: nat, k: nat)
    requires d < k
    ensures SiblingRootPid(p, d, k) == Rightmost(k - 1 - d, Sib(Shift(p, k - 1 - d)))
  {
    OrFlip(p, k - 1 - d);
  }

  lemma {:induction false} RightmostBound(b: nat, x: nat, m: nat)
    requires x < Pow2(m)
    ensures Rightmost(b, x) < Pow2(m + b) && (Rightmost(b, x) == Pow2(m + b) - 1 <==> x == Pow2(m) - 1)
    ensures Shift(Rightmost(b, x), b) == x && (b > 0 ==> Rightmost(b, x) % 2 == 1)
    decreases b
  {
    if b > 0 {
      RightmostHalf(b, x);
      RightmostBound(b - 1, x, m);
    }
  }

  // ---- partition ids ----

  /** `partition_id`: the first k bits as a number. */
  method PartitionId(index: Index, k: nat) returns (pid: nat)
    requires k <= INDEX_BITS
    ensures pid < Pow2(k) && Bits(pid, k) == index[..k]
  {
    pid := 0;
    for d := 0 to k
      invariant pid < Pow2(d) && Bits(pid, d) == index[..d]
    {
      assert index[..d + 1] == index[..d] + [index[d]];
      pid := 2 * pid + if index[d] then 1 else 0;
    }
  }

  lemma {:induction false} BitsUnique(a: nat, b: nat, m: nat)
    requires a < Pow2(m) && b < Pow2(m) && Bits(a, m) == Bits(b, m)
    ensures a == b
    decreases m
  {
    if m > 0 {
      BitsLast(a, m);
      BitsLast(b, m);
      BitsUnique(a / 2, b / 2, m - 1);
    }
  }

  lemma BitsLast(j: nat, m: nat)
    requires m > 0
    ensures Bits(j, m)[..m - 1] == Bits(j / 2, m - 1) && Bits(j, m)[m - 1] == (j % 2 == 1)
  {
  }

  lemma {:induction false} BitsAbove(p: nat, k: nat, m: nat)
    requires m <= k
    ensures Bits(p, k)[..m] == Bits(Shift(p, k - m), m)
    decreases k
  {
    if m < k {
      BitsAbove(p / 2, k - 1, m);
      BitsLast(p, k);
      assert Bits(p, k)[..m] == Bits(p, k)[..k - 1][..m];
    }
  }

  /** The sibling of a partition's path at a level is the node with the sibling number. */
  lemma SiblingBits(index: Index, p: nat, k: nat, d: nat)
    requires d < k <= INDEX_BITS && index[..k] == Bits(p, k)
    ensures SiblingPath(index, d) == Bits(Sib(Shift(p, k - 1 - d)), d + 1)
    ensures index[..d] == Bits(Shift(p, k - 1 - d) / 2, d)
  {
    var x := Shift(p, k - 1 - d);
    BitsAbove(p, k, d + 1);
    assert index[..d + 1] == index[..k][..d + 1];
    BitsLast(x, d + 1);
    assert index[..d] == index[..d + 1][..d];
    assert index[d] == index[..d + 1][d];
  }

  // ---- the hash tree ----

  /** The value of a node above the partitions: always a hash of two children. */
  function TreeHash(hashes: seq<Digest>, k: nat, m: nat, j: nat): (h: Digest)
    requires m <= k && j < Pow2(m) && |hashes| == Pow2(k)
    decreases k - m, j
  {
    if m == k then hashes[j]
    else PrefixNode(TreeHash(hashes, k, m + 1, 2 * j), TreeHash(hashes, k, m + 1, 2 * j + 1))
  }

  /** `build_hash_tree`: level 0 is the root, level k the partitions. */
  method BuildHashTree(hashes: seq<Digest>, k: nat) returns (tree: seq<seq<Digest>>)
    requires |hashes| == Pow2(k)
    ensures |tree| == k + 1
    ensures forall m :: 0 <= m <= k ==> |tree[m]| == Pow2(m) && forall j :: 0 <= j < Pow2(m) ==>
            tree[m][j] == TreeHash(hashes, k, m, j)
  {
    tree := seq(k + 1, _ => []);
    tree := tree[k := hashes];
    for level := k downto 0
      invariant |tree| == k + 1
      invariant forall m :: level <= m <= k ==> |tree[m]| == Pow2(m) && forall j :: 0 <= j < Pow2(m) ==>
              tree[m][j] == TreeHash(hashes, k, m, j)
    {
      var row := HashRow(tree[level + 1], Pow2(level), hashes, k, level);
      tree := tree[level := row];
    }
  }

  method HashRow(below: seq<Digest>, n: nat, ghost hashes: seq<Digest>, ghost k: nat, ghost level: nat)
    returns (row: seq<Digest>)
    requires level < k && n == Pow2(level) && |hashes| == Pow2(k) && |below| == Pow2(level + 1)
    requires forall j :: 0 <= j < Pow2(level + 1) ==> below[j] == TreeHash(hashes, k, level + 1, j)
    ensures |row| == n && forall j :: 0 <= j < n ==> row[j] == TreeHash(hashes, k, level, j)
  {
    row := [];
    for j := 0 to n
      invariant |row| == j && forall i :: 0 <= i < j ==> row[i] == TreeHash(hashes, k, level, i)
    {
      row := row + [PrefixNode(below[2 * j], below[2 * j + 1])];
    }
  }
}
