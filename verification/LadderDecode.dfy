/**
 * Reading a binary ladder back from outcomes alone (src/client/core.rs, decode_search_ladder), and
 * what a ladder proves.
 */
module LadderDecode {
  import opened Digests
  import opened LogMath
  import opened BinaryLadder

  datatype Lookup = Lookup(version: nat, inclusion: bool)

  datatype Ordering = Less | Equal | Greater

  function Compare(a: nat, b: nat): Ordering {
    if a < b then Less else if a == b then Equal else Greater
  }

  /** The first lookup, and then the others. */
  function Before(l: Lookup, rest: Result<seq<Lookup>>): (r: Result<seq<Lookup>>) {
    if rest.Ok? then Ok([l] + rest.value) else Err
  }

  /** Nothing may be left over. */
  function Finish(outcomes: seq<bool>, idx: nat): (r: Result<seq<Lookup>>) {
    if idx == |outcomes| then Ok([]) else Err
  }

  function DecodeHalving(outcomes: seq<bool>, target: nat, lo: nat, hi: nat, idx: nat): (r: Result<seq<Lookup>>)
    decreases hi - lo, target
  {
    if hi <= lo + 1 then Finish(outcomes, idx)
    else if idx >= |outcomes| then Err
    else
      var v := lo + (hi - lo) / 2;
      Before(Lookup(v, outcomes[idx]),
             if outcomes[idx] then (if v > target then Finish(outcomes, idx + 1)
                 else DecodeHalving(outcomes, target, v, hi, idx + 1))
             else if v <= target then Finish(outcomes, idx + 1)
             else DecodeHalving(outcomes, target, lo, v, idx + 1))
  }

  function DecodeClimbing(outcomes: seq<bool>, target: nat, k: nat, idx: nat): (r: Result<seq<Lookup>>)
    requires k <= 32
    decreases 32 - k, target
  {
    RungBelow(k);
    if idx >= |outcomes| then Err
    else
      var v := Rung(k);
      Before(Lookup(v, outcomes[idx]),
             if outcomes[idx] then (if v > target || v == MAX_VERSION then Finish(outcomes, idx + 1)
                                    else DecodeClimbing(outcomes, target, k + 1, idx + 1))
             else if v <= target || k == 0 then Finish(outcomes, idx + 1)
             else DecodeHalving(outcomes, target, Rung(k - 1), v, idx + 1))
  }

  /** The versions that outcomes are about, for a target. */
  function Decode(outcomes: seq<bool>, target: nat): (r: Result<seq<Lookup>>) {
    DecodeClimbing(outcomes, target, 0, 0)
  }

  /** What the outcomes say of the greatest version: the last one that settles it. */
  function Relation(ls: seq<Lookup>, target: nat): (o: Ordering)
    decreases |ls|
  {
    if ls == [] then Equal
    else
      var l := ls[|ls| - 1];
      if l.inclusion && l.version > target then Greater
      else if !l.inclusion && l.version <= target then Less
      else Relation(ls[..|ls| - 1], target)
  }

  // ---- the client's code ----

  /** `decode_search_ladder`. */
  method DecodeSearchLadder(outcomes: seq<bool>, target: nat) returns (r: Result<seq<Lookup>>)
    ensures r == Decode(outcomes, target)
  {
    var out: seq<Lookup> := [];
    var idx: nat, k: nat, lastIncluded: nat, upper: nat := 0, 0, 0, 0;
    ghost var all := Decode(outcomes, target);
    PrependedNone(all);
    while true
      invariant k <= 32 && idx == |out| == k && (k > 0 ==> lastIncluded == Rung(k - 1))
      invariant all == Prepended(out, DecodeClimbing(outcomes, target, k, idx))
      decreases 32 - k
    {
      var v := RungOf(k);
      if idx >= |outcomes| {
        return Err;
      }
      idx := idx + 1;
      var included := outcomes[idx - 1];
      PrependedStep(out, Lookup(v, included));
      out := out + [Lookup(v, included)];
      PrependedEnd(out, outcomes, idx);
      if included {
        if v > target || v == MAX_VERSION {
          return if idx == |outcomes| then Ok(out) else Err;
        }
        lastIncluded := v;
        k := k + 1;
      } else {
        if v <= target {
          return if idx == |outcomes| then Ok(out) else Err;
        }
        upper := v;
        break;
      }
    }
    r := FinishHalving(outcomes, target, lastIncluded, upper, idx, out);
  }

  method RungOf(k: nat) returns (v: nat)
    requires k <= 32
    ensures v == Rung(k) && (v == MAX_VERSION <==> k == 32) && (k == 0 ==> v == 0) && (k > 0 ==> v > Rung(k - 1))
  {
    var v64: nat := Pow2(k) - 1;
    v := if v64 > MAX_VERSION then MAX_VERSION else v64;
    RungBelow(k);
  }

  /** Lookups made before the ones still to decode. */
  function Prepended(out: seq<Lookup>, rest: Result<seq<Lookup>>): (r: Result<seq<Lookup>>) {
    if rest.Ok? then Ok(out + rest.value) else Err
  }

  lemma PrependedNone(rest: Result<seq<Lookup>>)
    ensures Prepended([], rest) == rest
  {
    if rest.Ok? { assert [] + rest.value == rest.value; }
  }

  lemma PrependedEnd(out: seq<Lookup>, outcomes: seq<bool>, idx: nat)
    ensures Prepended(out, Finish(outcomes, idx)) == if idx == |outcomes| then Ok(out) else Err
  {
    assert out + [] == out;
  }

  lemma PrependedStep(out: seq<Lookup>, l: Lookup)
    ensures forall rest :: Prepended(out, Before(l, rest)) == Prepended(out + [l], rest)
  {
    forall rest
      ensures Prepended(out, Before(l, rest)) == Prepended(out + [l], rest)
    {
      if rest.Ok? { assert out + ([l] + rest.value) == out + [l] + rest.value; }
    }
  }

  method FinishHalving(outcomes: seq<bool>, target: nat, lo: nat, hi: nat, from: nat, before: seq<Lookup>)
    returns (r: Result<seq<Lookup>>)
    ensures r == Prepended(before, DecodeHalving(outcomes, target, lo, hi, from))
  {
    var lower: nat, upper: nat, idx: nat, out := lo, hi, from, before;
    ghost var all := Prepended(before, DecodeHalving(outcomes, target, lo, hi, from));
    while lower + 1 < upper
      invariant all == Prepended(out, DecodeHalving(outcomes, target, lower, upper, idx))
      decreases upper - lower
    {
      var v := lower + (upper - lower) / 2;
      if idx >= |outcomes| {
        return Err;
      }
      idx := idx + 1;
      var included := outcomes[idx - 1];
      PrependedStep(out, Lookup(v, included));
      out := out + [Lookup(v, included)];
      PrependedEnd(out, outcomes, idx);
      if included {
        if v > target {
          return if idx == |outcomes| then Ok(out) else Err;
        }
        lower := v;
      } else {
        if v <= target {
          return if idx == |outcomes| then Ok(out) else Err;
        }
        upper := v;
      }
    }
    PrependedEnd(out, outcomes, idx);
    return if idx == |outcomes| then Ok(out) else Err;
  }

  // ---- decoding is the inverse of generation ----

  /** The outcomes of these lookups in a tree whose greatest version is n. */
  function Lookups(vs: seq<nat>, n: nat): (ls: seq<Lookup>)
    ensures |ls| == |vs| && forall i :: 0 <= i < |vs| ==> ls[i] == Lookup(vs[i], vs[i] <= n)
  {
    seq(|vs|, i requires 0 <= i < |vs| => Lookup(vs[i], vs[i] <= n))
  }

  /** From one place on, the outcomes are those of these versions and nothing more. */
  ghost predicate Tells(outcomes: seq<bool>, idx: nat, vs: seq<nat>, n: nat) {
    |outcomes| == idx + |vs| && forall i :: idx <= i < |outcomes| ==> (outcomes[i] <==> vs[i - idx] <= n)
  }

  lemma LookupsFirst(v: nat, vs: seq<nat>, n: nat)
    ensures Lookups([v] + vs, n) == [Lookup(v, v <= n)] + Lookups(vs, n)
  {
  }

  lemma TellsRest(outcomes: seq<bool>, idx: nat, v: nat, vs: seq<nat>, n: nat)
    requires Tells(outcomes, idx, [v] + vs, n)
    ensures idx < |outcomes| && (outcomes[idx] <==> v <= n) && Tells(outcomes, idx + 1, vs, n)
  {
    var all := [v] + vs;
    assert all[0] == v;
    forall i | idx + 1 <= i < |outcomes|
      ensures outcomes[i] <==> vs[i - (idx + 1)] <= n
    {
      assert all[i - idx] == vs[i - (idx + 1)];
    }
  }

  lemma {:induction false} HalvingDecodes(t: nat, n: nat, lo: nat, hi: nat, outcomes: seq<bool>, idx: nat)
    requires Tells(outcomes, idx, Halving(t, n, lo, hi), n)
    ensures DecodeHalving(outcomes, t, lo, hi, idx) == Ok(Lookups(Halving(t, n, lo, hi), n))
    decreases hi - lo
  {
    if hi > lo + 1 {
      var v := lo + (hi - lo) / 2;
      var rest := if Settles(t, n, v) then [] else if v <= n then Halving(t, n, v, hi) else Halving(t, n, lo, v);
      TellsRest(outcomes, idx, v, rest, n);
      LookupsFirst(v, rest, n);
      if !Settles(t, n, v) {
        if v <= n { HalvingDecodes(t, n, v, hi, outcomes, idx + 1); }
            else { HalvingDecodes(t, n, lo, v, outcomes, idx + 1); }
      }
    }
  }

  lemma {:induction false} ClimbingDecodes(t: nat, n: nat, k: nat, outcomes: seq<bool>, idx: nat)
    requires k <= 32 && Tells(outcomes, idx, Climbing(t, n, k), n)
    ensures DecodeClimbing(outcomes, t, k, idx) == Ok(Lookups(Climbing(t, n, k), n))
    decreases 32 - k
  {
    RungBelow(k);
    var v := Rung(k);
    var stop := Settles(t, n, v) || (v <= n && v == MAX_VERSION) || (v > n && k == 0);
    var rest := if stop then [] else if v <= n then Climbing(t, n, k + 1) else Halving(t, n, Rung(k - 1), v);
    TellsRest(outcomes, idx, v, rest, n);
    LookupsFirst(v, rest, n);
    if !stop {
      if v <= n {
        ClimbingDecodes(t, n, k + 1, outcomes, idx + 1);
        assert DecodeClimbing(outcomes, t, k, idx) ==
               Before(Lookup(v, outcomes[idx]), DecodeClimbing(outcomes, t, k + 1, idx + 1));
      } else {
        HalvingDecodes(t, n, Rung(k - 1), v, outcomes, idx + 1);
        assert DecodeClimbing(outcomes, t, k, idx) ==
               Before(Lookup(v, outcomes[idx]), DecodeHalving(outcomes, t, Rung(k - 1), v, idx + 1));
      }
    }
  }

  /** Decoding the outcomes of a search ladder gives back its versions. */
  lemma DecodeInverse(t: nat, n: nat, outcomes: seq<bool>)
    requires Tells(outcomes, 0, SearchLadder(t, n), n)
    ensures Decode(outcomes, t) == Ok(Lookups(SearchLadder(t, n), n))
  {
    ClimbingDecodes(t, n, 0, outcomes, 0);
  }

  // ---- what a ladder settles ----

  /** Only the last version of a ladder can settle, and it does exactly when n differs from t. */
  ghost predicate SettlesLast(t: nat, n: nat, vs: seq<nat>) {
    && (forall i :: 0 <= i < |vs| - 1 ==> !Settles(t, n, vs[i]))
    && (t != n <==> |vs| > 0 && Settles(t, n, vs[|vs| - 1]))
  }

  lemma {:induction false} HalvingSettles(t: nat, n: nat, lo: nat, hi: nat)
    requires lo <= n < hi && !Settles(t, n, lo) && !Settles(t, n, hi)
    ensures SettlesLast(t, n, Halving(t, n, lo, hi))
    decreases hi - lo
  {
    if hi > lo + 1 {
      var v := lo + (hi - lo) / 2;
      if !Settles(t, n, v) {
        if v <= n { HalvingSettles(t, n, v, hi); } else { HalvingSettles(t, n, lo, v); }
      }
    }
  }

  lemma {:induction false} ClimbingSettles(t: nat, n: nat, k: nat)
    requires k <= 32 && t <= MAX_VERSION && n <= MAX_VERSION
            && (k > 0 ==> Rung(k - 1) <= n && !Settles(t, n, Rung(k - 1)))
    ensures SettlesLast(t, n, Climbing(t, n, k))
    decreases 32 - k
  {
    RungBelow(k);
    var v := Rung(k);
    if !Settles(t, n, v) {
      if v <= n && v != MAX_VERSION { ClimbingSettles(t, n, k + 1); }
      if v > n && k > 0 { HalvingSettles(t, n, Rung(k - 1), v); }
    }
  }

  lemma {:induction false} RelationOfLast(t: nat, n: nat, vs: seq<nat>)
    requires forall i :: 0 <= i < |vs| - 1 ==> !Settles(t, n, vs[i])
    ensures Relation(Lookups(vs, n), t) == if |vs| > 0 && Settles(t, n, vs[|vs| - 1]) then Compare(n, t) else Equal
    decreases |vs|
  {
    if vs != [] {
      var front := vs[..|vs| - 1];
      assert Lookups(vs, n)[..|vs| - 1] == Lookups(front, n);
      if !Settles(t, n, vs[|vs| - 1]) { RelationOfLast(t, n, front); }
    }
  }

  /** The relation derived from a ladder is exactly how the greatest version compares with the target. */
  lemma RelationIsCompare(t: nat, n: nat)
    requires t <= MAX_VERSION && n <= MAX_VERSION
    ensures Relation(Lookups(SearchLadder(t, n), n), t) == Compare(n, t)
  {
    ClimbingSettles(t, n, 0);
    RelationOfLast(t, n, SearchLadder(t, n));
  }

  // ---- what arbitrary outcomes prove ----

  /** No lookup contradicts t being the greatest version. */
  ghost predicate Consistent(ls: seq<Lookup>, t: nat) {
    forall i :: 0 <= i < |ls| ==> (ls[i].inclusion <==> ls[i].version <= t)
  }

  lemma {:induction false} EqualIsConsistent(ls: seq<Lookup>, t: nat)
    ensures Relation(ls, t) == Equal <==> Consistent(ls, t)
    decreases |ls|
  {
    if ls != [] {
      EqualIsConsistent(ls[..|ls| - 1], t);
      assert ls == ls[..|ls| - 1] + [ls[|ls| - 1]];
    }
  }

  lemma ConsistentRest(l: Lookup, rest: seq<Lookup>, t: nat)
    requires Consistent([l] + rest, t)
    ensures (l.inclusion <==> l.version <= t) && Consistent(rest, t)
  {
    var ls := [l] + rest;
    assert ls[0] == l;
    assert forall i :: 0 <= i < |rest| ==> ls[i + 1] == rest[i];
  }

  lemma {:induction false} ConsistentHalving(outcomes: seq<bool>, t: nat, lo: nat, hi: nat, idx: nat)
    requires DecodeHalving(outcomes, t, lo, hi, idx).Ok? && Consistent(DecodeHalving(outcomes, t, lo, hi, idx).value, t)
    ensures DecodeHalving(outcomes, t, lo, hi, idx).value == Lookups(Halving(t, t, lo, hi), t)
    decreases hi - lo
  {
    if hi > lo + 1 {
      var v := lo + (hi - lo) / 2;
      var rest := DecodeHalving(outcomes, t, lo, hi, idx).value[1..];
      ConsistentRest(Lookup(v, outcomes[idx]), rest, t);
      if v <= t {
        ConsistentHalving(outcomes, t, v, hi, idx + 1);
        LookupsFirst(v, Halving(t, t, v, hi), t);
      } else {
        ConsistentHalving(outcomes, t, lo, v, idx + 1);
        LookupsFirst(v, Halving(t, t, lo, v), t);
      }
    }
  }

  lemma {:induction false} ConsistentClimbing(outcomes: seq<bool>, t: nat, k: nat, idx: nat)
    requires k <= 32 && t <= MAX_VERSION && (k > 0 ==> Rung(k - 1) <= t)
    requires DecodeClimbing(outcomes, t, k, idx).Ok? && Consistent(DecodeClimbing(outcomes, t, k, idx).value, t)
    ensures DecodeClimbing(outcomes, t, k, idx).value == Lookups(Climbing(t, t, k), t)
    decreases 32 - k
  {
    RungBelow(k);
    var v := Rung(k);
    var rest := DecodeClimbing(outcomes, t, k, idx).value[1..];
    ConsistentRest(Lookup(v, outcomes[idx]), rest, t);
    if v <= t {
      if v != MAX_VERSION {
        ConsistentClimbing(outcomes, t, k + 1, idx + 1);
        LookupsFirst(v, Climbing(t, t, k + 1), t);
      } else {
        LookupsFirst(v, [], t);
      }
    } else {
      ConsistentHalving(outcomes, t, Rung(k - 1), v, idx + 1);
      LookupsFirst(v, Halving(t, t, Rung(k - 1), v), t);
    }
  }

  /** Whatever the outcomes: an equal relation forces the full ladder of the target, with its outcomes. */
  lemma EqualForcesBase(outcomes: seq<bool>, t: nat)
    requires t <= MAX_VERSION && Decode(outcomes, t).Ok? && Relation(Decode(outcomes, t).value, t) == Equal
    ensures Decode(outcomes, t).value == Lookups(BaseLadder(t), t)
  {
    EqualIsConsistent(Decode(outcomes, t).value, t);
    ConsistentClimbing(outcomes, t, 0, 0);
  }

  lemma {:induction false} HalvingCloses(n: nat, lo: nat, hi: nat)
    requires lo <= n < hi
    ensures (n == lo || n in Halving(n, n, lo, hi)) && (n + 1 == hi || n + 1 in Halving(n, n, lo, hi))
    decreases hi - lo
  {
    if hi > lo + 1 {
      var v := lo + (hi - lo) / 2;
      if v <= n { HalvingCloses(n, v, hi); } else { HalvingCloses(n, lo, v); }
    }
  }

  lemma {:induction false} ClimbingCloses(n: nat, k: nat, vs: seq<nat>)
    requires k <= 32 && n <= MAX_VERSION && (k > 0 ==> Rung(k - 1) <= n) && vs == Climbing(n, n, k)
    ensures n in vs || (k > 0 && n == Rung(k - 1))
    ensures n == MAX_VERSION || n + 1 in vs
    decreases 32 - k
  {
    RungBelow(k);
    var v := Rung(k);
    if v > n {
      HalvingCloses(n, Rung(k - 1), v);
      InLonger(n, v, Halving(n, n, Rung(k - 1), v), vs);
    } else if v < MAX_VERSION {
      ClimbingCloses(n, k + 1, Climbing(n, n, k + 1));
      InLonger(n, v, Climbing(n, n, k + 1), vs);
    }
  }

  lemma InLonger(n: nat, v: nat, rest: seq<nat>, vs: seq<nat>)
    requires vs == [v] + rest
    ensures n in vs <==> n == v || n in rest
    ensures n + 1 in vs <==> n + 1 == v || n + 1 in rest
  {
  }

  /** The full ladder looks up its version and, unless it is the greatest there can be, the one after it. */
  lemma BaseBrackets(n: nat)
    requires n <= MAX_VERSION
    ensures n in BaseLadder(n) && (n < MAX_VERSION ==> n + 1 in BaseLadder(n))
  {
    ClimbingCloses(n, 0, BaseLadder(n));
  }

  /** So an equal relation shows the target present and the version after it absent. */
  lemma EqualShowsGreatest(outcomes: seq<bool>, t: nat)
    requires t <= MAX_VERSION && Decode(outcomes, t).Ok? && Relation(Decode(outcomes, t).value, t) == Equal
    ensures Lookup(t, true) in Decode(outcomes, t).value
    ensures t < MAX_VERSION ==> Lookup(t + 1, false) in Decode(outcomes, t).value
  {
    EqualForcesBase(outcomes, t);
    BaseBrackets(t);
    var base := BaseLadder(t);
    var i :| 0 <= i < |base| && base[i] == t;
    assert Lookups(base, t)[i] == Lookup(t, true);
    if t < MAX_VERSION {
      var j :| 0 <= j < |base| && base[j] == t + 1;
      assert Lookups(base, t)[j] == Lookup(t + 1, false);
    }
  }

  // ---- shape ----

  lemma {:induction false} HalvingPrefix(t: nat, n: nat, lo: nat, hi: nat)
    ensures Halving(t, n, lo, hi) <= Halving(t, t, lo, hi)
    decreases hi - lo
  {
    if hi > lo + 1 {
      var v := lo + (hi - lo) / 2;
      if Settles(t, n, v) {
        assert Halving(t, n, lo, hi) == [v];
      } else if v <= n {
        HalvingPrefix(t, n, v, hi);
        LongerPrefix(v, Halving(t, n, v, hi), Halving(t, t, v, hi));
      } else {
        HalvingPrefix(t, n, lo, v);
        LongerPrefix(v, Halving(t, n, lo, v), Halving(t, t, lo, v));
      }
    }
  }

  lemma LongerPrefix(v: nat, us: seq<nat>, vs: seq<nat>)
    requires us <= vs
    ensures [v] + us <= [v] + vs
  {
  }

  lemma {:induction false} ClimbingPrefix(t: nat, n: nat, k: nat)
    requires k <= 32
    ensures Climbing(t, n, k) <= Climbing(t, t, k)
    decreases 32 - k
  {
    RungBelow(k);
    var v := Rung(k);
    if !Settles(t, n, v) && v <= n && v != MAX_VERSION {
      ClimbingPrefix(t, n, k + 1);
    } else if !Settles(t, n, v) && v > n && k > 0 {
      HalvingPrefix(t, n, Rung(k - 1), v);
    }
  }

  /** Every ladder for a target is a prefix of the target's full ladder. */
  lemma LadderIsPrefix(t: nat, n: nat)
    ensures SearchLadder(t, n) <= BaseLadder(t)
  {
    ClimbingPrefix(t, n, 0);
  }

  lemma {:induction false} HalvingLength(n: nat, lo: nat, hi: nat, e: nat)
    requires hi == lo + Pow2(e)
    ensures |Halving(n, n, lo, hi)| == e
    decreases e
  {
    if e > 0 {
      var v := lo + (hi - lo) / 2;
      assert v == lo + Pow2(e - 1);
      if v <= n { HalvingLength(n, v, hi, e - 1); } else { HalvingLength(n, lo, v, e - 1); }
    }
  }

  lemma {:induction false} ClimbingLength(n: nat, k: nat, e: nat)
    requires k <= e <= 32 && n < MAX_VERSION && Pow2(e) > n + 1 && e > 0 && Pow2(e - 1) <= n + 1
    ensures |Climbing(n, n, k)| == (e - k + 1) + (e - 1)
    decreases e - k
  {
    RungBelow(k);
    if k < e {
      Pow2Grows(k, e - 1);
      ClimbingLength(n, k + 1, e);
    } else {
      RungBelow(e - 1);
      HalvingLength(n, Rung(e - 1), Rung(e), e - 1);
    }
  }

  /** The full ladder has 2 * floor(log2(n + 1)) + 2 lookups below the greatest version, and 33 there. */
  lemma BaseLength(n: nat)
    requires n <= MAX_VERSION
    ensures |BaseLadder(n)| == if n < MAX_VERSION then 2 * Log2(n + 1) + 2 else 33
  {
    BitLengthBounds(n + 1);
    if n < MAX_VERSION {
      TopRung();
      if Log2(n + 1) + 1 > 32 { Pow2Grows(32, Log2(n + 1)); }
      ClimbingLength(n, 0, Log2(n + 1) + 1);
    } else {
      TopLength(n, 0);
    }
  }

  lemma {:induction false} TopLength(n: nat, k: nat)
    requires k <= 32 && n == MAX_VERSION
    ensures |Climbing(n, n, k)| == 33 - k
    decreases 32 - k
  {
    RungBelow(k);
    if k < 32 { TopLength(n, k + 1); }
  }
}
