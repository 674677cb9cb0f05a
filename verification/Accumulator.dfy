/** The peak accumulator of an auditor or client (src/client/verifier.rs, LogAccumulator). */
module Accumulator {
  import opened Digests
  import opened LogMath
  import opened LogTree

  /** Peaks of the given nodes with the given values. */
  function Labelled(nodes: seq<Node>, values: seq<Digest>): (peaks: seq<Peak>)
    requires |nodes| == |values|
    ensures |peaks| == |nodes| && forall i :: 0 <= i < |peaks| ==> peaks[i] == (nodes[i].level, values[i])
  {
    seq(|nodes|, i requires 0 <= i < |nodes| => (nodes[i].level, values[i]))
  }

  lemma {:induction false} SomePeak(q: nat, h: nat)
    requires q > 0
    ensures Peaks(q, h) != []
    decreases q
  {
    if q % 2 == 0 { SomePeak(q / 2, h + 1); }
  }

  /** The fold of peaks with the same labels determines them. */
  lemma {:induction false} FoldBindsPeaks(a: seq<Peak>, b: seq<Peak>)
    requires |a| == |b| > 0 && forall i :: 0 <= i < |a| ==> a[i].0 == b[i].0
    requires FoldPeaks(a) == FoldPeaks(b)
    ensures a == b
    decreases |a|
  {
    if |a| > 1 {
      FoldBindsPeaks(a[1..], b[1..]);
      assert a == [a[0]] + a[1..] && b == [b[0]] + b[1..];
    }
  }

  class LogAccumulator {
    var treeSize: nat
    var peaks: seq<Peak>

    predicate Valid()
      reads this
    {
      treeSize > 0 ==> peaks != []
    }

    constructor ()
      ensures Valid() && treeSize == 0 && peaks == []
    {
      treeSize, peaks := 0, [];
    }

    constructor Of(size: nat, labelled: seq<Peak>)
      ensures treeSize == size && peaks == labelled
    {
      treeSize, peaks := size, labelled;
    }

    /** `from_peaks`: the values of the full subtrees of `size` leaves, left to right. */
    static method FromPeaks(size: nat, values: seq<Digest>) returns (r: Result<LogAccumulator>)
      ensures r.Ok? <==> |values| == |Peaks(size, 0)|
      ensures r.Ok? ==> fresh(r.value) && r.value.Valid() && r.value.treeSize == size
                        && r.value.peaks == Labelled(Peaks(size, 0), values)
    {
      var roots := GetRoots(size);
      if |roots| != |values| {
        return Err;
      }
      var labelled: seq<Peak> := [];
      ghost var nodes := Peaks(size, 0);
      for i := 0 to |roots|
        invariant |labelled| == i
        invariant forall k :: 0 <= k < i ==> labelled[k] == (nodes[k].level, values[k])
      {
        IdCoordinates(nodes[i].level, nodes[i].index);
        labelled := labelled + [(Level(roots[i]), values[i])];
      }
      if size > 0 { SomePeak(size, 0); }
      var a := new LogAccumulator.Of(size, labelled);
      return Ok(a);
    }

    method AppendLeaf(leaf: Digest)
      requires Valid()
      modifies this
      ensures Valid() && treeSize == old(treeSize) + 1
      ensures peaks == MergeInto(old(peaks), 0, leaf)
    {
      peaks := peaks + [(0, leaf)];
      treeSize := treeSize + 1;
      ghost var done := |peaks| - 1;
      MergeLast(old(peaks), 0, leaf);
      while |peaks| >= 2
        invariant peaks != [] && treeSize == old(treeSize) + 1
        invariant MergeLastOf(peaks) == MergeInto(old(peaks), 0, leaf)
        decreases |peaks|
      {
        var (rh, r) := peaks[|peaks| - 1];
        var (lh, l) := peaks[|peaks| - 2];
        if lh != rh {
          break;
        }
        MergeTwo(peaks);
        peaks := peaks[..|peaks| - 2] + [(lh + 1, LogNode(l, lh == 0, r, rh == 0))];
      }
      MergeNone(peaks);
    }

    /** `calculate_root`. */
    method CalculateRoot() returns (root: Digest)
      requires Valid()
      ensures root == if treeSize == 0 then Zero else FoldPeaks(peaks)
    {
      if treeSize == 0 {
        return Zero;
      }
      var i := |peaks| - 1;
      root := peaks[i].1;
      while i > 0
        invariant 0 <= i < |peaks| && root == FoldPeaks(peaks[i..])
      {
        i := i - 1;
        FoldCons(peaks[i], peaks[i + 1..]);
        assert peaks[i..] == [peaks[i]] + peaks[i + 1..];
        root := LogNode(peaks[i].1, peaks[i].0 == 0, root, false);
      }
      assert peaks[0..] == peaks;
    }
  }

  /** What is left to do once a peak has been pushed. */
  function MergeLastOf(peaks: seq<Peak>): seq<Peak>
    requires peaks != []
  {
    MergeInto(peaks[..|peaks| - 1], peaks[|peaks| - 1].0, peaks[|peaks| - 1].1)
  }

  lemma MergeLast(prefix: seq<Peak>, h: nat, v: Digest)
    ensures MergeLastOf(prefix + [(h, v)]) == MergeInto(prefix, h, v)
  {
    assert (prefix + [(h, v)])[..|prefix|] == prefix;
  }

  lemma MergeTwo(peaks: seq<Peak>)
    requires |peaks| >= 2 && peaks[|peaks| - 2].0 == peaks[|peaks| - 1].0
    ensures var (h, r) := peaks[|peaks| - 1]; var l := peaks[|peaks| - 2].1;
            MergeLastOf(peaks) == MergeLastOf(peaks[..|peaks| - 2] + [(h + 1, LogNode(l, h == 0, r, h == 0))])
  {
    var (h, r) := peaks[|peaks| - 1];
    var l := peaks[|peaks| - 2].1;
    MergeLast(peaks[..|peaks| - 2], h + 1, LogNode(l, h == 0, r, h == 0));
    assert peaks[..|peaks| - 1][..|peaks| - 2] == peaks[..|peaks| - 2];
  }

  lemma MergeNone(peaks: seq<Peak>)
    requires peaks != [] && (|peaks| >= 2 ==> peaks[|peaks| - 2].0 != peaks[|peaks| - 1].0)
    ensures MergeLastOf(peaks) == peaks
  {
    assert peaks == peaks[..|peaks| - 1] + [peaks[|peaks| - 1]];
  }
}
