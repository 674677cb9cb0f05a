/**
 * Binary ladders (src/tree/binary_ladder.rs, sections 5 and 6.2 and Appendix B of
 * draft-ietf-keytrans-protocol-05) and their decoding from outcomes alone (src/client/core.rs).
 */
module BinaryLadder {
  import opened LogMath

  /** The greatest version: u32::MAX. */
  const MAX_VERSION: nat := 0xFFFF_FFFF

  /** The k-th version of the climb: powers of two less one, up to the greatest version. */
  function Rung(k: nat): (v: nat)
    ensures v <= MAX_VERSION
  {
    if Pow2(k) - 1 > MAX_VERSION then MAX_VERSION else Pow2(k) - 1
  }

  lemma TopRung()
    ensures Pow2(32) == MAX_VERSION + 1
  {
    assert Pow2(8) == 256;
    assert Pow2(16) == 0x1_0000;
    assert Pow2(24) == 0x100_0000;
  }

  lemma RungBelow(k: nat)
    requires k <= 32
    ensures Rung(k) == Pow2(k) - 1 && (Rung(k) == MAX_VERSION <==> k == 32)
    ensures k > 0 ==> Rung(k - 1) < Rung(k)
  {
    TopRung();
    if k < 32 { Pow2Grows(k, 31); }
  }

  lemma {:induction false} Pow2Grows(a: nat, b: nat)
    requires a <= b
    ensures Pow2(a) <= Pow2(b)
    decreases b - a
  {
    if a < b { Pow2Grows(a, b - 1); }
  }

  /** An outcome that settles how the greatest version n compares with the target t. */
  predicate Settles(t: nat, n: nat, v: nat) {
    (v <= n && v > t) || (v > n && v <= t)
  }

  /** The halving between an included and a missing version, up to the first settling outcome. */
  function Halving(t: nat, n: nat, lo: nat, hi: nat): (vs: seq<nat>)
    decreases hi - lo, t
  {
    if hi <= lo + 1 then []
    else
      var v := lo + (hi - lo) / 2;
      [v] + if Settles(t, n, v) then [] else if v <= n then Halving(t, n, v, hi) else Halving(t, n, lo, v)
  }

  /** The climb from rung k on, and the halving after it, up to the first settling outcome. */
  function Climbing(t: nat, n: nat, k: nat): (vs: seq<nat>)
    requires k <= 32
    decreases 32 - k, t
  {
    RungBelow(k);
    var v := Rung(k);
    [v] + if Settles(t, n, v) || (v <= n && v == MAX_VERSION) || (v > n && k == 0) then []
          else if v <= n then Climbing(t, n, k + 1)
          else Halving(t, n, Rung(k - 1), v)
  }

  /** The ladder of a tree whose greatest version is n, for target t. */
  function SearchLadder(t: nat, n: nat): (vs: seq<nat>) {
    Climbing(t, n, 0)
  }

  /** The full ladder that shows n to be the greatest version. */
  function BaseLadder(n: nat): (vs: seq<nat>) {
    SearchLadder(n, n)
  }

  // ---- generation ----

  /** `base_binary_ladder`. */
  method BaseBinaryLadder(n: nat) returns (out: seq<nat>)
    requires n <= MAX_VERSION
    ensures out == BaseLadder(n)
  {
    out := Climb(n);
    ghost var all := BaseLadder(n);
    if |out| < 2 {
      return;
    }
    if out[|out| - 1] > n {
      var lower: nat, upper: nat := out[|out| - 2], out[|out| - 1];
      while lower < upper && upper - lower > 1
        invariant lower <= n < upper <= MAX_VERSION
        invariant out + Halving(n, n, lower, upper) == all
        decreases upper - lower
      {
        var value := lower + (upper - lower) / 2;
        HalvingStep(out, n, n, lower, upper);
        out := out + [value];
        if value <= n {
          lower := value;
        } else {
          upper := value;
        }
      }
    }
  }

  lemma HalvingStep(before: seq<nat>, t: nat, n: nat, lo: nat, hi: nat)
    requires lo + 1 < hi
    ensures var v := lo + (hi - lo) / 2;
            before + Halving(t, n, lo, hi) == before + [v] +
              if Settles(t, n, v) then [] else if v <= n then Halving(t, n, v, hi) else Halving(t, n, lo, v)
  {
  }

  lemma ClimbingStep(before: seq<nat>, t: nat, n: nat, k: nat, v: nat, prev: nat)
    requires k <= 32 && v == Rung(k) && (k > 0 ==> prev == Rung(k - 1)) && (v == MAX_VERSION <==> k == 32)
    ensures before + Climbing(t, n, k) == before + [v] +
              if Settles(t, n, v) || (v <= n && v == MAX_VERSION) || (v > n && k == 0) then []
              else if v <= n then Climbing(t, n, k + 1)
              else Halving(t, n, prev, v)
  {
    RungBelow(k);
  }

  /** The value of a rung; it is above the one before it. */
  method RungValue(len: nat, last: nat) returns (value: nat)
    requires len <= 32 && (len > 0 ==> last == Rung(len - 1))
    ensures value == Rung(len) && (value == MAX_VERSION <==> len == 32) && (len > 0 ==> value > last)
            && (len == 0 ==> value == 0)
  {
    var valueU64 := Pow2(len) - 1;
    value := if valueU64 > MAX_VERSION then MAX_VERSION else valueU64;
    RungBelow(len);
  }

  /** What the climb leaves: the halving to do between its last two rungs, if the last one is above n. */
  ghost predicate Climbed(out: seq<nat>, n: nat) {
    |out| > 0 && out[|out| - 1] <= MAX_VERSION &&
    if out[|out| - 1] > n
    then |out| >= 2 && out[|out| - 2] <= n && out + Halving(n, n, out[|out| - 2], out[|out| - 1]) == BaseLadder(n)
    else out == BaseLadder(n)
  }

  /** What one more rung leaves to do. */
  lemma ClimbsOn(before: seq<nat>, n: nat, v: nat, last: nat, all: seq<nat>)
    requires n <= MAX_VERSION && |before| <= 32 && all == BaseLadder(n) && before + Climbing(n, n, |before|) == all
    requires v == Rung(|before|) <= MAX_VERSION && (v == MAX_VERSION <==> |before| == 32)
    requires if before == [] then v == 0 else before[|before| - 1] == last == Rung(|before| - 1) && last <= n
    ensures if v > n || v == MAX_VERSION then Climbed(before + [v], n)
            else before + [v] + Climbing(n, n, |before| + 1) == all
  {
    ClimbingStep(before, n, n, |before|, v, last);
    if v > n {
      var out := before + [v];
      assert out[|out| - 1] == v && out[|out| - 2] == last;
    }
  }

  /** Powers of two less one until one is greater than n, or the greatest version is reached. */
  method Climb(n: nat) returns (out: seq<nat>)
    requires n <= MAX_VERSION
    ensures Climbed(out, n)
  {
    out := [];
    var last: nat := 0;
    ghost var all := BaseLadder(n);
    while true
      invariant |out| <= 32 && (|out| > 0 ==> out[|out| - 1] == last == Rung(|out| - 1) && last <= n)
      invariant out + Climbing(n, n, |out|) == all
      decreases 32 - |out|
    {
      var value := RungValue(|out|, last);
      if |out| > 0 && value == last {
        break;
      }
      ClimbsOn(out, n, value, last, all);
      out := out + [value];
      if value > n {
        break;
      }
      if value == MAX_VERSION {
        break;
      }
      last := value;
    }
  }

  // ---- the ladder for a target ----

  /** Up to the first settling version. */
  function Truncated(t: nat, n: nat, vs: seq<nat>): (us: seq<nat>)
    decreases |vs|, t
  {
    if vs == [] then [] else if Settles(t, n, vs[0]) then [vs[0]] else [vs[0]] + Truncated(t, n, vs[1..])
  }

  lemma {:induction false} TruncatedHalving(t: nat, n: nat, lo: nat, hi: nat)
    requires lo <= n < hi
    ensures Truncated(t, n, Halving(n, n, lo, hi)) == Halving(t, n, lo, hi)
    decreases hi - lo
  {
    if hi > lo + 1 {
      var v := lo + (hi - lo) / 2;
      var rest := if v <= n then Halving(n, n, v, hi) else Halving(n, n, lo, v);
      if v <= n { TruncatedHalving(t, n, v, hi); } else { TruncatedHalving(t, n, lo, v); }
      assert Halving(n, n, lo, hi) == [v] + rest;
    }
  }

  lemma {:induction false} TruncatedClimbing(t: nat, n: nat, k: nat)
    requires k <= 32 && n <= MAX_VERSION && (k > 0 ==> Rung(k - 1) <= n)
    ensures Truncated(t, n, Climbing(n, n, k)) == Climbing(t, n, k)
    decreases 32 - k
  {
    RungBelow(k);
    var v := Rung(k);
    if v <= n && v != MAX_VERSION {
      TruncatedClimbing(t, n, k + 1);
      assert Climbing(n, n, k) == [v] + Climbing(n, n, k + 1);
    } else if v > n && k > 0 {
      TruncatedHalving(t, n, Rung(k - 1), v);
      assert Climbing(n, n, k) == [v] + Halving(n, n, Rung(k - 1), v);
    }
  }

  /** The versions that are in neither list. */
  function Others(vs: seq<nat>, a: seq<nat>, b: seq<nat>): (us: seq<nat>)
    decreases |vs|, a
  {
    if vs == [] then []
    else if vs[0] !in a && vs[0] !in b then [vs[0]] + Others(vs[1..], a, b)
    else Others(vs[1..], a, b)
  }

  lemma {:induction false} OthersNone(vs: seq<nat>, a: seq<nat>, b: seq<nat>)
    requires a == [] && b == []
    ensures Others(vs, a, b) == vs
    decreases |vs|
  {
    if vs != [] { OthersNone(vs[1..], a, b); }
  }

  lemma {:induction false} TruncatedIsPrefix(t: nat, n: nat, vs: seq<nat>, end: nat)
    requires end <= |vs| && (forall i :: 0 <= i < end - 1 ==> !Settles(t, n, vs[i]))
    requires end == |vs| || (end > 0 && Settles(t, n, vs[end - 1]))
    ensures Truncated(t, n, vs) == vs[..end]
    decreases |vs|
  {
    if vs != [] {
      if end > 1 || !Settles(t, n, vs[0]) { TruncatedIsPrefix(t, n, vs[1..], end - 1); }
    }
  }

  /** `search_binary_ladder`. */
  method SearchBinaryLadder(t: nat, n: nat, leftInclusion: seq<nat>, rightNonInclusion: seq<nat>)
    returns (ladder: seq<nat>)
    requires n <= MAX_VERSION
    ensures ladder == Others(SearchLadder(t, n), leftInclusion, rightNonInclusion)
  {
    var out := BaseBinaryLadder(n);
    var end := 0;
    while end < |out| && !Settles(t, n, out[end])
      invariant 0 <= end <= |out| && forall i :: 0 <= i < end ==> !Settles(t, n, out[i])
    {
      end := end + 1;
    }
    if end < |out| {
      end := end + 1;
    }
    TruncatedIsPrefix(t, n, out, end);
    TruncatedClimbing(t, n, 0);
    ladder := Filtered(out[..end], leftInclusion, rightNonInclusion);
  }

  method Filtered(vs: seq<nat>, a: seq<nat>, b: seq<nat>) returns (us: seq<nat>)
    ensures us == Others(vs, a, b)
  {
    us := [];
    for i := |vs| downto 0
      invariant us == Others(vs[i..], a, b)
    {
      assert vs[i..] == [vs[i]] + vs[i + 1..];
      if vs[i] !in a && vs[i] !in b {
        us := [vs[i]] + us;
      }
    }
    assert vs[0..] == vs;
  }
}
