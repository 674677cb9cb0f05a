/**
 * A ladder with its prefix proof (src/client/core.rs, verify_ladder_proof): each lookup of the ladder is
 * one outcome of the proof, and all of them must fold to one prefix root.
 */
module LadderProofs {
  import opened Digests
  import opened SparseTree
  import opened PrefixProofs
  import opened PrefixVerifier
  import opened BinaryLadder
  import opened LadderDecode
  import opened FixedSearch
  import opened GreatestSearch

  /** The steps of the response by version: none is missing, its commitment may be. */
  type Steps = nat -> Option<Option<Commitment>>

  /**
   * What the client looks versions up with: the target and its own commitment, whether the target is claimed to be
   * the greatest version, the indices of versions and the steps it was sent.
   */
  datatype Claim =
    Claim(target: nat, commitment: Commitment, greatest: bool, index: nat -> Index, steps: Steps)

  /** The commitment to look a version up with, if the steps do not contradict the claim. */
  function CommitmentFor(c: Claim, l: Lookup): (r: Result<Option<Commitment>>) {
    var step := c.steps(l.version);
    if step.None? then Err
    else if l.inclusion && l.version == c.target then
      (if step.value.Some? && step.value.value != c.commitment then Err else Ok(Some(c.commitment)))
    else if l.inclusion then (if step.value.None? then Err else Ok(step.value))
    else if c.greatest && step.value.Some? && l.version > c.target then Err
    else Ok(None)
  }

  /** The root that the first n lookups agree on, and the elements they use. */
  function Agreed(c: Claim, ls: seq<Lookup>, proof: PrefixProof, n: nat): (r: Result<(Option<Digest>, nat)>)
    requires n <= |ls|
    decreases n
  {
    if n == 0 then Ok((None, 0))
    else
      var before :- Agreed(c, ls, proof, n - 1);
      var commitment :- CommitmentFor(c, ls[n - 1]);
      var one :- DerivedRoot(proof, n - 1, c.index(ls[n - 1].version), commitment, before.1);
      if before.0.Some? && before.0.value != one.0 then Err else Ok((Some(one.0), before.1 + one.1))
  }

  function OutcomesOf(proof: PrefixProof): (outcomes: seq<bool>)
    ensures |outcomes| == |proof.results|
    ensures forall j :: 0 <= j < |outcomes| ==> outcomes[j] == (proof.results[j].resultType == INCLUSION)
  {
    seq(|proof.results|, j requires 0 <= j < |proof.results| => proof.results[j].resultType == INCLUSION)
  }

  /** The relation that outcomes show, if they do not contradict a claimed greatest version. */
  function RelationFor(c: Claim, outcomes: seq<bool>, isRightmost: bool): (r: Result<Ordering>) {
    if c.greatest then GreatestCheck(outcomes, c.target, isRightmost)
    else
      var ls :- Decode(outcomes, c.target);
      Ok(Relation(ls, c.target))
  }

  /** What an accepted ladder proof gives: the entry's prefix root and its relation to the target. */
  function CheckedLadder(c: Claim, proof: PrefixProof, isRightmost: bool): (r: Result<(Digest, Ordering)>) {
    var relation :- RelationFor(c, OutcomesOf(proof), isRightmost);
    var ls := Decode(OutcomesOf(proof), c.target).value;
    var agreed :- Agreed(c, ls, proof, |ls|);
    if agreed.1 != |proof.elements| || agreed.0.None? then Err else Ok((agreed.0.value, relation))
  }

  // ---- the client's code ----

  lemma {:induction false} AgreedFails(c: Claim, ls: seq<Lookup>, proof: PrefixProof, n: nat, n': nat)
    requires n <= n' <= |ls| && Agreed(c, ls, proof, n).Err?
    ensures Agreed(c, ls, proof, n').Err?
    decreases n'
  {
    if n < n' { AgreedFails(c, ls, proof, n, n' - 1); }
  }

  method AgreeOnRoot(c: Claim, ls: seq<Lookup>, proof: PrefixProof) returns (r: Result<(Option<Digest>, nat)>)
    ensures r == Agreed(c, ls, proof, |ls|)
  {
    var computedRoot: Option<Digest> := None;
    var elementsOffset := 0;
    for j := 0 to |ls|
      invariant Agreed(c, ls, proof, j) == Ok((computedRoot, elementsOffset))
    {
      var commitment := CommitmentFor(c, ls[j]);
      if commitment.Err? {
        AgreedFails(c, ls, proof, j + 1, |ls|);
        return Err;
      }
      var derived := ComputeRootFromResult(proof, j, c.index(ls[j].version), commitment.value, elementsOffset);
      if derived.Err? {
        AgreedFails(c, ls, proof, j + 1, |ls|);
        return Err;
      }
      var (root, consumed) := derived.value;
      if computedRoot.Some? && computedRoot.value != root {
        AgreedFails(c, ls, proof, j + 1, |ls|);
        return Err;
      }
      computedRoot, elementsOffset := Some(root), elementsOffset + consumed;
    }
    return Ok((computedRoot, elementsOffset));
  }

  /** The relation part of `verify_ladder_proof`. */
  method ReadRelation(c: Claim, outcomes: seq<bool>, isRightmost: bool) returns (r: Result<Ordering>)
    requires c.target <= MAX_VERSION
    ensures r == RelationFor(c, outcomes, isRightmost)
  {
    if c.greatest {
      r := VerifyGreatestLadder(outcomes, c.target, isRightmost);
      return;
    }
    var decoded := DecodeSearchLadder(outcomes, c.target);
    if decoded.Err? {
      return Err;
    }
    var ls := decoded.value;
    var relation := Equal;
    for j := 0 to |ls|
      invariant relation == Relation(ls[..j], c.target)
    {
      assert ls[..j + 1] == ls[..j] + [ls[j]];
      RelationOne(ls[..j], ls[j], c.target);
      if ls[j].inclusion && ls[j].version > c.target {
        relation := Greater;
      }
      if !ls[j].inclusion && ls[j].version <= c.target {
        relation := Less;
      }
    }
    assert ls[..|ls|] == ls;
    return Ok(relation);
  }

  /** `verify_ladder_proof`. */
  method VerifyLadderProof(c: Claim, proof: PrefixProof, isRightmost: bool) returns (r: Result<(Digest, Ordering)>)
    requires c.target <= MAX_VERSION
    ensures r == CheckedLadder(c, proof, isRightmost)
  {
    var relation := ReadRelation(c, OutcomesOf(proof), isRightmost);
    if relation.Err? {
      return Err;
    }
    var decoded := DecodeSearchLadder(OutcomesOf(proof), c.target);
    var agreed := AgreeOnRoot(c, decoded.value, proof);
    if agreed.Err? || agreed.value.1 != |proof.elements| || agreed.value.0.None? {
      return Err;
    }
    return Ok((agreed.value.0.value, relation.value));
  }

  // ---- what an accepted ladder proof shows ----

  lemma {:induction false} HalvingReads(outcomes: seq<bool>, t: nat, lo: nat, hi: nat, idx: nat)
    requires DecodeHalving(outcomes, t, lo, hi, idx).Ok? && idx <= |outcomes|
    ensures Reads(outcomes, idx, DecodeHalving(outcomes, t, lo, hi, idx).value)
    decreases hi - lo
  {
    if lo + 1 < hi {
      var v := lo + (hi - lo) / 2;
      if outcomes[idx] {
        if v <= t { HalvingReads(outcomes, t, v, hi, idx + 1); }
      } else if v > t {
        HalvingReads(outcomes, t, lo, v, idx + 1);
      }
    }
  }

  /** The lookups are about the outcomes from idx on, one each. */
  ghost predicate Reads(outcomes: seq<bool>, idx: nat, ls: seq<Lookup>) {
    idx + |ls| == |outcomes| && forall j :: 0 <= j < |ls| ==> ls[j].inclusion == outcomes[idx + j]
  }

  lemma ReadsMore(outcomes: seq<bool>, idx: nat, l: Lookup, rest: seq<Lookup>)
    requires idx < |outcomes| && l.inclusion == outcomes[idx] && Reads(outcomes, idx + 1, rest)
    ensures Reads(outcomes, idx, [l] + rest)
  {
    forall j | 0 <= j < |[l] + rest| ensures ([l] + rest)[j].inclusion == outcomes[idx + j] {
      if j > 0 { assert ([l] + rest)[j] == rest[j - 1]; }
    }
  }

  lemma {:induction false} ClimbingReads(outcomes: seq<bool>, t: nat, k: nat, idx: nat)
    requires k <= 32 && DecodeClimbing(outcomes, t, k, idx).Ok?
    ensures Reads(outcomes, idx, DecodeClimbing(outcomes, t, k, idx).value)
    decreases 32 - k
  {
    RungBelow(k);
    var v := Rung(k);
    var rest := if outcomes[idx] then (if v > t || v == MAX_VERSION then Finish(outcomes, idx + 1)
                                       else DecodeClimbing(outcomes, t, k + 1, idx + 1))
                else if v <= t || k == 0 then Finish(outcomes, idx + 1)
                else DecodeHalving(outcomes, t, Rung(k - 1), v, idx + 1);
    if outcomes[idx] && v <= t && v != MAX_VERSION {
      ClimbingReads(outcomes, t, k + 1, idx + 1);
    } else if !outcomes[idx] && v > t && k > 0 {
      HalvingReads(outcomes, t, Rung(k - 1), v, idx + 1);
    }
    ReadsMore(outcomes, idx, Lookup(v, outcomes[idx]), rest.value);
  }

  /**
   * A lookup is true of a map: it is included exactly when the map holds the version, and then with the commitment that
   * it is looked up with.
   */
  ghost predicate TrueLookup(c: Claim, m: Contents, l: Lookup) {
    && (l.inclusion <==> c.index(l.version) in m)
    && CommitmentFor(c, l) == Ok(if c.index(l.version) in m then Some(m[c.index(l.version)]) else None)
  }

  /** The first n lookups agree on this root, if there are any. */
  ghost predicate AgreeOn(c: Claim, ls: seq<Lookup>, proof: PrefixProof, n: nat, root: Digest) {
    n <= |ls| && Agreed(c, ls, proof, n).Ok? && (n > 0 ==> Agreed(c, ls, proof, n).value.0 == Some(root))
  }

  lemma {:induction false} OneIsTrue(c: Claim, ls: seq<Lookup>, proof: PrefixProof, n: nat, m: Contents)
    requires n > 0 && AgreeOn(c, ls, proof, n, Root(m)) && n <= |proof.results|
    requires ls[n - 1].inclusion == (proof.results[n - 1].resultType == INCLUSION)
    ensures TrueLookup(c, m, ls[n - 1]) && AgreeOn(c, ls, proof, n - 1, Root(m))
  {
    var before := Agreed(c, ls, proof, n - 1).value;
    AcceptedProofIsTrue(m, c.index(ls[n - 1].version), CommitmentFor(c, ls[n - 1]).value, proof, n - 1, before.1);
  }

  /** Lookups that agree on the root of a map are all true of it. */
  lemma {:induction false} AgreedIsTrue(c: Claim, ls: seq<Lookup>, proof: PrefixProof, n: nat, m: Contents)
    requires n <= |ls| && AgreeOn(c, ls, proof, n, Root(m)) && Reads(OutcomesOf(proof), 0, ls)
    ensures forall j :: 0 <= j < n ==> TrueLookup(c, m, ls[j])
    decreases n
  {
    if n > 0 {
      assert OutcomesOf(proof)[0 + (n - 1)] == ls[n - 1].inclusion;
      OneIsTrue(c, ls, proof, n, m);
      AgreedIsTrue(c, ls, proof, n - 1, m);
    }
  }

  /** Whatever the proof: if its lookups fold to the root of a map, every one of them is true of the map. */
  lemma AcceptedLadderIsTrue(c: Claim, proof: PrefixProof, isRightmost: bool, m: Contents)
    requires CheckedLadder(c, proof, isRightmost).Ok? && CheckedLadder(c, proof, isRightmost).value.0 == Root(m)
    ensures var ls := Decode(OutcomesOf(proof), c.target).value;
            forall j :: 0 <= j < |ls| ==> TrueLookup(c, m, ls[j])
  {
    var ls := Decode(OutcomesOf(proof), c.target).value;
    ClimbingReads(OutcomesOf(proof), c.target, 0, 0);
    AgreedIsTrue(c, ls, proof, |ls|, m);
  }

  /** True lookups that accept the target and reject the next version settle both in the map. */
  lemma TrueLookupsSettle(c: Claim, ls: seq<Lookup>, m: Contents)
    requires forall j :: 0 <= j < |ls| ==> TrueLookup(c, m, ls[j])
    requires Lookup(c.target, true) in ls && (c.target < MAX_VERSION ==> Lookup(c.target + 1, false) in ls)
    ensures c.index(c.target) in m && m[c.index(c.target)] == c.commitment
    ensures c.target < MAX_VERSION ==> c.index(c.target + 1) !in m
  {
    var j :| 0 <= j < |ls| && ls[j] == Lookup(c.target, true);
    assert TrueLookup(c, m, ls[j]);
    if c.target < MAX_VERSION {
      var i :| 0 <= i < |ls| && ls[i] == Lookup(c.target + 1, false);
      assert TrueLookup(c, m, ls[i]);
    }
  }

  /** A step of the response is true of a map that has the target as its greatest version. */
  ghost predicate TrueStep(c: Claim, m: Contents, v: nat) {
    var step := c.steps(v);
    && step.Some? && (c.index(v) in m <==> v <= c.target)
    && (v < c.target ==> step.value == Some(m[c.index(v)])) && (v > c.target ==> step.value.None?)
    && (v == c.target ==> m[c.index(v)] == c.commitment && (step.value.None? || step.value == Some(c.commitment)))
  }

  /**
   * Whatever the proof: at an accepted last entry all steps that are sent are true of the map, with a commitment for
   * every version below the claimed one and for none above.
   */
  lemma {:induction false} AcceptedStepsAreTrue(c: Claim, proof: PrefixProof, m: Contents)
    requires c.greatest && c.target <= MAX_VERSION
    requires CheckedLadder(c, proof, true).Ok? && CheckedLadder(c, proof, true).value.0 == Root(m)
    ensures CheckedLadder(c, proof, true).value.1 == Equal
    ensures forall j :: 0 <= j < |BaseLadder(c.target)| ==> TrueStep(c, m, BaseLadder(c.target)[j])
  {
    AcceptedLadderIsTrue(c, proof, true, m);
    AcceptedIsGreatest(OutcomesOf(proof), c.target);
    EqualForcesBase(OutcomesOf(proof), c.target);
    var base, ls := BaseLadder(c.target), Decode(OutcomesOf(proof), c.target).value;
    forall j | 0 <= j < |base|
      ensures TrueStep(c, m, base[j])
    {
      assert ls[j] == Lookup(base[j], base[j] <= c.target) && TrueLookup(c, m, ls[j]);
    }
  }

  /**
   * Whatever the proof: an accepted last entry whose root is that of a map shows that the map holds the
   * claimed version with the claimed commitment, and that it does not hold the next one.
   */
  lemma AcceptedRightmostIsGreatest(c: Claim, proof: PrefixProof, m: Contents)
    requires c.greatest && c.target <= MAX_VERSION
    requires CheckedLadder(c, proof, true).Ok? && CheckedLadder(c, proof, true).value.0 == Root(m)
    ensures CheckedLadder(c, proof, true).value.1 == Equal
    ensures c.index(c.target) in m && m[c.index(c.target)] == c.commitment
    ensures c.target < MAX_VERSION ==> c.index(c.target + 1) !in m
  {
    AcceptedStepsAreTrue(c, proof, m);
    BaseBrackets(c.target);
    StepsSettle(c, m, BaseLadder(c.target));
  }

  lemma {:induction false} StepsSettle(c: Claim, m: Contents, base: seq<nat>)
    requires forall j :: 0 <= j < |base| ==> TrueStep(c, m, base[j])
    requires c.target in base && (c.target < MAX_VERSION ==> c.target + 1 in base)
    ensures c.index(c.target) in m && m[c.index(c.target)] == c.commitment
    ensures c.target < MAX_VERSION ==> c.index(c.target + 1) !in m
  {
    assert TrueStep(c, m, c.target) by { var j :| 0 <= j < |base| && base[j] == c.target; }
    if c.target < MAX_VERSION {
      assert TrueStep(c, m, c.target + 1) by { var j :| 0 <= j < |base| && base[j] == c.target + 1; }
    }
  }

  /** The tree of an entry holds the versions up to its greatest one. */
  ghost predicate HoldsUpTo(c: Claim, m: Contents, g: Option<nat>) {
    forall v: nat :: c.index(v) in m <==> g.Some? && v <= g.value
  }

  /** A relation other than equal has a lookup that shows it. */
  lemma {:induction false} RelationShown(ls: seq<Lookup>, target: nat)
    ensures Relation(ls, target) == Greater ==> exists j :: 0 <= j < |ls| && ls[j].inclusion && ls[j].version > target
    ensures Relation(ls, target) == Less ==> exists j :: 0 <= j < |ls| && !ls[j].inclusion && ls[j].version <= target
    decreases |ls|
  {
    if ls != [] {
      assert ls[|ls| - 1] in ls;
      RelationShown(ls[..|ls| - 1], target);
    }
  }

  /**
   * Whatever the proof: a ladder whose root is that of an entry's map shows how the greatest version
   * there compares with the target, and an equal one that the target is held with the claimed commitment.
   */
  lemma AcceptedRelationIsTrue(c: Claim, proof: PrefixProof, isRightmost: bool, m: Contents, g: Option<nat>)
    requires c.target <= MAX_VERSION && HoldsUpTo(c, m, g) && (g.Some? ==> g.value <= MAX_VERSION)
    requires CheckedLadder(c, proof, isRightmost).Ok? && CheckedLadder(c, proof, isRightmost).value.0 == Root(m)
    ensures CheckedLadder(c, proof, isRightmost).value.1 == RelationAt(g, c.target)
    ensures RelationAt(g, c.target) == Equal ==> c.index(c.target) in m && m[c.index(c.target)] == c.commitment
  {
    AcceptedLadderIsTrue(c, proof, isRightmost, m);
    RelationRead(c, proof, isRightmost);
    TrueRelation(c, Decode(OutcomesOf(proof), c.target).value, m, g);
  }

  lemma RelationRead(c: Claim, proof: PrefixProof, isRightmost: bool)
    requires c.target <= MAX_VERSION && CheckedLadder(c, proof, isRightmost).Ok?
    ensures var ls := Decode(OutcomesOf(proof), c.target);
            && ls.Ok? && CheckedLadder(c, proof, isRightmost).value.1 == Relation(ls.value, c.target)
            && (Relation(ls.value, c.target) == Equal ==>
                 Lookup(c.target, true) in ls.value
                 && (c.target < MAX_VERSION ==> Lookup(c.target + 1, false) in ls.value))
  {
    if CheckedLadder(c, proof, isRightmost).value.1 == Equal { EqualShowsGreatest(OutcomesOf(proof), c.target); }
  }

  lemma TrueRelation(c: Claim, ls: seq<Lookup>, m: Contents, g: Option<nat>)
    requires HoldsUpTo(c, m, g) && c.target <= MAX_VERSION && (g.Some? ==> g.value <= MAX_VERSION)
    requires forall j :: 0 <= j < |ls| ==> TrueLookup(c, m, ls[j])
    requires Relation(ls, c.target) == Equal ==>
               Lookup(c.target, true) in ls && (c.target < MAX_VERSION ==> Lookup(c.target + 1, false) in ls)
    ensures Relation(ls, c.target) == RelationAt(g, c.target)
    ensures RelationAt(g, c.target) == Equal ==> c.index(c.target) in m && m[c.index(c.target)] == c.commitment
  {
    RelationShown(ls, c.target);
    if Relation(ls, c.target) == Equal { TrueLookupsSettle(c, ls, m); }
  }
}
