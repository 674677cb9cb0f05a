/**
 * Searching for the greatest version of a label (section 6.3 of draft-ietf-keytrans-protocol-05):
 * the ladder that goes over the wire once for all entries of the frontier (src/tree/traversal.rs,
 * src/tree/walker.rs).
 */
module GreatestSearch {
  import opened Digests
  import opened LogMath
  import opened Ibst
  import opened BinaryLadder
  import opened LadderDecode
  import opened FixedSearch

  // ---- a full ladder looks up no version twice ----

  /** No version twice, and all strictly between two bounds. */
  predicate DistinctIn(vs: seq<nat>, lo: int, hi: int) {
    && (forall i :: 0 <= i < |vs| ==> lo < vs[i] < hi)
    && (forall i, j :: 0 <= i < j < |vs| ==> vs[i] != vs[j])
  }

  lemma DistinctFirst(v: nat, rest: seq<nat>, lo: int, hi: int, lo': int, hi': int)
    requires lo < v < hi && DistinctIn(rest, lo', hi') && lo <= lo' && hi' <= hi && (v <= lo' || v >= hi')
    ensures DistinctIn([v] + rest, lo, hi)
  {
    var vs := [v] + rest;
    assert forall i :: 0 < i < |vs| ==> vs[i] == rest[i - 1];
  }

  lemma {:induction false} HalvingDistinct(t: nat, n: nat, lo: nat, hi: nat, vs: seq<nat>)
    requires vs == Halving(t, n, lo, hi)
    ensures DistinctIn(vs, lo, hi)
    decreases hi - lo
  {
    if hi > lo + 1 {
      var v := lo + (hi - lo) / 2;
      if Settles(t, n, v) {
        DistinctFirst(v, [], lo, hi, v, hi);
      } else if v <= n {
        HalvingDistinct(t, n, v, hi, Halving(t, n, v, hi));
        DistinctFirst(v, Halving(t, n, v, hi), lo, hi, v, hi);
      } else {
        HalvingDistinct(t, n, lo, v, Halving(t, n, lo, v));
        DistinctFirst(v, Halving(t, n, lo, v), lo, hi, lo, v);
      }
    }
  }

  lemma {:induction false} ClimbingDistinct(t: nat, n: nat, k: nat, vs: seq<nat>)
    requires k <= 32 && vs == Climbing(t, n, k)
    ensures DistinctIn(vs, if k == 0 then -1 else Rung(k - 1), MAX_VERSION + 1)
    decreases 32 - k
  {
    RungBelow(k);
    var v := Rung(k);
    var lo := if k == 0 then -1 else Rung(k - 1);
    if Settles(t, n, v) || (v <= n && v == MAX_VERSION) || (v > n && k == 0) {
      DistinctFirst(v, [], lo, MAX_VERSION + 1, v, MAX_VERSION + 1);
    } else if v <= n {
      ClimbingDistinct(t, n, k + 1, Climbing(t, n, k + 1));
      DistinctFirst(v, Climbing(t, n, k + 1), lo, MAX_VERSION + 1, v, MAX_VERSION + 1);
    } else {
      HalvingDistinct(t, n, Rung(k - 1), v, Halving(t, n, Rung(k - 1), v));
      DistinctFirst(v, Halving(t, n, Rung(k - 1), v), lo, MAX_VERSION + 1, lo, v);
    }
  }

  /** The first place of a version in a list. */
  ghost function PlaceIn(vs: seq<nat>, v: nat): (p: nat)
    ensures v in vs ==> p < |vs| && vs[p] == v
  {
    if v in vs then
      var p :| 0 <= p < |vs| && vs[p] == v;
      p
    else |vs|
  }

  /** No version twice: each is where its place is. */
  ghost predicate Placed(vs: seq<nat>) {
    forall i :: 0 <= i < |vs| ==> PlaceIn(vs, vs[i]) == i
  }

  lemma {:induction false} DistinctPlaced(vs: seq<nat>, lo: int, hi: int)
    requires DistinctIn(vs, lo, hi)
    ensures Placed(vs)
  {
    forall i | 0 <= i < |vs|
      ensures PlaceIn(vs, vs[i]) == i
    {
      assert vs[i] in vs;
    }
  }

  // ---- the ladder of a session ----

  /** A step of the ladder: the VRF proof of a version, and its commitment where it is known to be there. */
  datatype LadderStep = LadderStep(version: nat, commitment: Option<Commitment>)

  type Commitments = nat -> Commitment

  /** The outcome of looking a version up in a tree whose greatest version is g. */
  function ResultOf(v: nat, g: Option<nat>, commitments: Commitments): (r: (nat, Option<Commitment>)) {
    (v, if g.Some? && v <= g.value then Some(commitments(v)) else None)
  }

  /** The steps are the first ones of a list of versions, with true commitments up to the target. */
  ghost predicate Started(steps: seq<LadderStep>, base: seq<nat>, target: nat, commitments: Commitments) {
    && |steps| <= |base|
    && forall i :: 0 <= i < |steps| ==> StepOk(steps[i], base[i], target, commitments)
  }

  ghost predicate StepOk(s: LadderStep, v: nat, target: nat, commitments: Commitments) {
    s.version == v && (s.commitment.Some? ==> s.commitment.value == commitments(v) && v <= target)
  }

  /** The first n of these versions have their commitments, as far as the entry's tree includes and sends them. */
  ghost predicate Committed(steps: seq<LadderStep>, versions: seq<nat>, n: nat, g: Option<nat>, extract: Option<nat>) {
    n <= |versions| && n <= |steps|
    && forall i :: 0 <= i < n && g.Some? && versions[i] <= g.value && extract != Some(versions[i]) ==>
         steps[i].commitment.Some?
  }

  ghost predicate Indexed(index: map<nat, nat>, base: seq<nat>, p: nat) {
    p <= |base| && (forall v :: v in index ==> index[v] < p && base[index[v]] == v)
        && forall i :: 0 <= i < p ==> base[i] in index
  }

  /** The step at this place has its commitment. */
  predicate Sent(steps: seq<LadderStep>, p: nat) {
    p < |steps| && steps[p].commitment.Some?
  }

  /** One ladder result at place j: a new step, or a commitment that was left out before. */
  ghost predicate Grown(steps: seq<LadderStep>, steps': seq<LadderStep>, j: nat, v: nat,
                        commitment: Option<Commitment>) {
    && j <= |steps| && (j < |steps| ==> steps[j].version == v)
    && steps' == if j == |steps| then steps + [LadderStep(v, commitment)]
                 else if steps[j].commitment.Some? then steps
                 else steps[j := LadderStep(v, commitment)]
  }

  /** The commitment that one result of an entry is sent with. */
  function CommitmentSent(v: nat, g: Option<nat>, extract: Option<nat>, commitments: Commitments)
    : (commitment: Option<Commitment>)
  {
    if extract == Some(v) then None else ResultOf(v, g, commitments).1
  }

  /** The first n results of an entry include the one at this place, with its commitment. */
  predicate SendsAt(versions: seq<nat>, n: nat, g: Option<nat>, extract: Option<nat>, p: nat) {
    p < n <= |versions| && g.Some? && versions[p] <= g.value && extract != Some(versions[p])
  }

  /** The first n results of an entry are in: with a step each, and its commitment where it is sent. */
  ghost predicate ResultsIn(before: seq<LadderStep>, steps: seq<LadderStep>, versions: seq<nat>, n: nat, g: Option<nat>,
                            extract: Option<nat>, p: nat) {
    && |steps| == (if n <= |before| then |before| else n) && Committed(steps, versions, n, g, extract)
    && (Sent(steps, p) <==> Sent(before, p) || SendsAt(versions, n, g, extract, p))
  }

  lemma {:induction false} ResultNext(before: seq<LadderStep>, steps: seq<LadderStep>, steps': seq<LadderStep>,
                                      versions: seq<nat>, n: nat, g: Option<nat>, extract: Option<nat>,
                                      commitments: Commitments, p: nat)
    requires n < |versions| && ResultsIn(before, steps, versions, n, g, extract, p)
    requires Grown(steps, steps', n, versions[n], CommitmentSent(versions[n], g, extract, commitments))
    ensures ResultsIn(before, steps', versions, n + 1, g, extract, p)
  {}

  class WireLadder {
    var steps: seq<LadderStep>
    var index: map<nat, nat>

    ghost predicate Valid(base: seq<nat>, target: nat, commitments: Commitments)
      reads this
    {
      Started(steps, base, target, commitments) && Indexed(index, base, |steps|)
    }

    constructor ()
      ensures steps == [] && index == map[]
    {
      steps, index := [], map[];
    }

    /** One ladder result: a new step, or a commitment that an earlier entry left out. */
    method AddResult(v: nat, commitment: Option<Commitment>, ghost base: seq<nat>, ghost target: nat,
                     ghost commitments: Commitments, ghost j: nat)
      requires Valid(base, target, commitments) && Placed(base)
      requires j < |base| && j <= |steps| && v == base[j]
      requires commitment.Some? ==> commitment.value == commitments(v) && v <= target
      modifies this
      ensures Valid(base, target, commitments)
      ensures Grown(old(steps), steps, j, v, commitment)
    {
      if v in index {
        if steps[index[v]].commitment.None? {
          steps := steps[index[v] := LadderStep(steps[index[v]].version, commitment)];
        }
      } else {
        index := index[v := |steps|];
        steps := steps + [LadderStep(v, commitment)];
      }
    }

    /** The next result of an entry; the commitment of an extracted version is left out. */
    method AddOne(versions: seq<nat>, j: nat, g: Option<nat>, extract: Option<nat>, commitments: Commitments,
                  ghost base: seq<nat>, ghost target: nat)
      requires Valid(base, target, commitments) && Placed(base)
      requires j < |versions| && versions <= base && (g.Some? ==> g.value <= target) && j <= |steps|
      modifies this
      ensures Valid(base, target, commitments)
      ensures Grown(old(steps), steps, j, versions[j], CommitmentSent(versions[j], g, extract, commitments))
    {
      var commitment := CommitmentSent(versions[j], g, extract, commitments);
      AddResult(versions[j], commitment, base, target, commitments, j);
    }

    /** The results of one entry. */
    method AddResults(versions: seq<nat>, g: Option<nat>, extract: Option<nat>, commitments: Commitments,
                      ghost base: seq<nat>, ghost target: nat, ghost p: nat)
      requires Valid(base, target, commitments) && Placed(base)
      requires versions <= base && (g.Some? ==> g.value <= target)
      modifies this
      ensures Valid(base, target, commitments)
      ensures ResultsIn(old(steps), steps, versions, |versions|, g, extract, p)
    {
      for j := 0 to |versions|
        invariant Valid(base, target, commitments) && j <= |steps|
        invariant ResultsIn(old(steps), steps, versions, j, g, extract, p)
      {
        ghost var before := steps;
        AddOne(versions, j, g, extract, commitments, base, target);
        ResultNext(old(steps), before, steps, versions, j, g, extract, commitments, p);
      }
    }
  }

  // ---- the server ----

  /** The ladder that a client expects for a claimed greatest version. */
  ghost predicate CompleteLadder(steps: seq<LadderStep>, base: seq<nat>, target: nat, commitments: Commitments) {
    && |steps| == |base|
    && forall i :: 0 <= i < |steps| ==>
         StepOk(steps[i], base[i], target, commitments) && (base[i] < target ==> steps[i].commitment.Some?)
  }

  /** The ladder of any entry is a prefix of the full one. */
  lemma VersionsPrefix(g: Option<nat>, target: nat)
    ensures VersionsAt(g, target) <= BaseLadder(target)
  {
    if g.Some? { LadderIsPrefix(target, g.value); } else { BaseStart(target, 0); }
  }

  /** Of the first n entries of a list, one before the last entry of the log has the target as its greatest version. */
  ghost predicate MetBefore(greatest: Versions, frontier: seq<nat>, n: nat, target: nat) {
    n <= |frontier| && exists i :: 0 <= i < n && MetAt(greatest, frontier[i], target)
  }

  predicate MetAt(greatest: Versions, x: nat, target: nat) {
    x < |greatest| - 1 && greatest[x] == Some(target)
  }

  lemma {:induction false} MetNext(greatest: Versions, frontier: seq<nat>, n: nat, target: nat)
    requires 0 < n <= |frontier|
    ensures MetBefore(greatest, frontier, n, target) <==>
            MetBefore(greatest, frontier, n - 1, target) || MetAt(greatest, frontier[n - 1], target)
  {}

  /** The results of an entry send the target's commitment exactly where the target is greatest before the last. */
  lemma {:induction false} SendsTarget(greatest: Versions, x: nat, target: nat, versions: seq<nat>,
                                       extract: Option<nat>, p: nat)
    requires x < |greatest| && target <= MAX_VERSION && p < |BaseLadder(target)| && BaseLadder(target)[p] == target
    requires versions == VersionsAt(greatest[x], target) && (greatest[x].Some? ==> greatest[x].value <= target)
    requires extract == if x == |greatest| - 1 then Some(target) else None
    ensures SendsAt(versions, |versions|, greatest[x], extract, p) <==> MetAt(greatest, x, target)
  {
    VersionsPrefix(greatest[x], target);
  }

  lemma BaseStart(target: nat, k: nat)
    requires k == 0
    ensures [0] <= Climbing(target, target, k)
  {
    RungBelow(k);
    assert Rung(k) == 0;
  }

  /** One entry of the frontier: its versions, and its results on the wire. */
  method VisitEntry(ladder: WireLadder, greatest: Versions, node: nat, target: nat, commitments: Commitments,
                    ghost base: seq<nat>, ghost p: nat)
    returns (versions: seq<nat>)
    requires ladder.Valid(base, target, commitments) && Placed(base) && base == BaseLadder(target)
    requires target <= MAX_VERSION && p < |base| && base[p] == target && node < |greatest|
    requires greatest[|greatest| - 1] == Some(target) && (greatest[node].Some? ==> greatest[node].value <= target)
    modifies ladder
    ensures ladder.Valid(base, target, commitments) && versions == VersionsAt(greatest[node], target)
    ensures node == |greatest| - 1 ==> CompleteLadder(ladder.steps, base, target, commitments)
    ensures Sent(ladder.steps, p) <==> Sent(old(ladder.steps), p) || MetAt(greatest, node, target)
  {
    versions := LadderFor(greatest[node], target);
    VersionsPrefix(greatest[node], target);
    var extract := if node == |greatest| - 1 then Some(target) else None;
    ladder.AddResults(versions, greatest[node], extract, commitments, base, target, p);
    SendsTarget(greatest, node, target, versions, extract, p);
  }

  /** The visits of the first n entries. */
  ghost predicate VisitedUpTo(greatest: Versions, target: nat, frontier: seq<nat>, n: nat, visits: seq<SearchVisit>) {
    n == |visits| <= |frontier| && forall i :: 0 <= i < n ==> VisitedAt(greatest, target, frontier[i], visits[i])
  }

  predicate VisitedAt(greatest: Versions, target: nat, x: nat, v: SearchVisit) {
    x < |greatest| && v == SearchVisit(x, VersionsAt(greatest[x], target))
  }

  /** What has been done for the first n entries of the frontier. */
  ghost predicate FrontierVisited(greatest: Versions, target: nat, commitments: Commitments, base: seq<nat>, p: nat,
                                  frontier: seq<nat>, n: nat, steps: seq<LadderStep>, visits: seq<SearchVisit>) {
    && n <= |frontier|
    && (n > 0 && frontier[n - 1] == |greatest| - 1 ==> CompleteLadder(steps, base, target, commitments))
    && (Sent(steps, p) <==> MetBefore(greatest, frontier, n, target))
    && VisitedUpTo(greatest, target, frontier, n, visits)
  }

  lemma {:induction false} FrontierVisitedNext(greatest: Versions, target: nat, commitments: Commitments,
                                               base: seq<nat>, p: nat, frontier: seq<nat>, n: nat, x: nat,
                                               before: seq<LadderStep>, steps: seq<LadderStep>,
                                               visits: seq<SearchVisit>, versions: seq<nat>)
    requires n < |frontier| && x == frontier[n] < |greatest|
    requires FrontierVisited(greatest, target, commitments, base, p, frontier, n, before, visits)
    requires versions == VersionsAt(greatest[x], target)
    requires x == |greatest| - 1 ==> CompleteLadder(steps, base, target, commitments)
    requires Sent(steps, p) <==> Sent(before, p) || MetAt(greatest, x, target)
    ensures FrontierVisited(greatest, target, commitments, base, p, frontier, n + 1, steps,
                            visits + [SearchVisit(x, versions)])
  {
    MetNext(greatest, frontier, n + 1, target);
  }

  lemma {:induction false} VisitsAre(greatest: Versions, target: nat, frontier: seq<nat>, visits: seq<SearchVisit>)
    requires VisitedUpTo(greatest, target, frontier, |frontier|, visits)
    ensures forall i :: 0 <= i < |frontier| ==> frontier[i] < |greatest|
    ensures visits == VisitsOf(greatest, target, frontier)
  {
    assert forall i :: 0 <= i < |frontier| ==> VisitedAt(greatest, target, frontier[i], visits[i]);
  }

  /** No entry before the last one has a greater version than that one. */
  ghost predicate AtMost(greatest: Versions, target: nat) {
    forall x :: 0 <= x < |greatest| && greatest[x].Some? ==> greatest[x].value <= target
  }

  lemma {:induction false} RisesAtMost(greatest: Versions, target: nat)
    requires Rises(greatest) && greatest != [] && greatest[|greatest| - 1] == Some(target)
    ensures AtMost(greatest, target)
  {}

  /** The full ladder looks up no version twice, and its target at one place. */
  lemma {:induction false} LadderPlaces(target: nat, base: seq<nat>, p: nat)
    requires target <= MAX_VERSION && base == BaseLadder(target) && p == PlaceIn(base, target)
    ensures Placed(base) && p < |base| && base[p] == target
  {
    ClimbingDistinct(target, target, 0, base);
    DistinctPlaced(base, -1, MAX_VERSION + 1);
    BaseBrackets(target);
  }

  /** The entries of the frontier in order. */
  method VisitAll(ladder: WireLadder, greatest: Versions, frontier: seq<nat>, target: nat, commitments: Commitments,
                  ghost base: seq<nat>, ghost p: nat)
    returns (visits: seq<SearchVisit>)
    requires AtMost(greatest, target) && greatest != [] && greatest[|greatest| - 1] == Some(target)
    requires target <= MAX_VERSION && forall i :: 0 <= i < |frontier| ==> frontier[i] < |greatest|
    requires ladder.Valid(base, target, commitments) && ladder.steps == []
    requires Placed(base) && base == BaseLadder(target) && p < |base| && base[p] == target
    modifies ladder
    ensures FrontierVisited(greatest, target, commitments, base, p, frontier, |frontier|, ladder.steps, visits)
  {
    visits := [];
    for i := 0 to |frontier|
      invariant ladder.Valid(base, target, commitments)
      invariant FrontierVisited(greatest, target, commitments, base, p, frontier, i, ladder.steps, visits)
    {
      ghost var before := ladder.steps;
      var versions := VisitEntry(ladder, greatest, frontier[i], target, commitments, base, p);
      FrontierVisitedNext(greatest, target, commitments, base, p, frontier, i, frontier[i], before, ladder.steps,
                          visits, versions);
      visits := visits + [SearchVisit(frontier[i], versions)];
    }
  }

  /** The entries of the frontier up to the last one of the log, with a new ladder. */
  method VisitFrontier(greatest: Versions, frontier: seq<nat>, target: nat, commitments: Commitments)
    returns (steps: seq<LadderStep>, visits: seq<SearchVisit>)
    requires greatest != [] && greatest[|greatest| - 1] == Some(target) && AtMost(greatest, target)
    requires target <= MAX_VERSION && forall i :: 0 <= i < |frontier| ==> frontier[i] < |greatest|
    ensures FrontierVisited(greatest, target, commitments, BaseLadder(target), PlaceIn(BaseLadder(target), target),
                            frontier, |frontier|, steps, visits)
  {
    ghost var base := BaseLadder(target);
    ghost var p := PlaceIn(base, target);
    LadderPlaces(target, base, p);
    var ladder := new WireLadder();
    visits := VisitAll(ladder, greatest, frontier, target, commitments, base, p);
    steps := ladder.steps;
  }

  /**
   * `traverse_greatest_search`: every entry of the frontier, with the target of the last one. The target's own step has
   * its commitment exactly when an entry of the frontier before the last one has the target as its greatest version.
   */
  method TraverseGreatestSearch(greatest: Versions, n: nat, commitments: Commitments)
    returns (r: Result<(nat, seq<LadderStep>)>, visits: seq<SearchVisit>)
    requires n == |greatest| > 0 && Log2(n) < 64 && Rises(greatest)
    requires forall x :: 0 <= x < n && greatest[x].Some? ==> greatest[x].value <= MAX_VERSION
    ensures r.Err? <==> greatest[n - 1].None?
    ensures r.Ok? ==>
              && greatest[n - 1] == Some(r.value.0)
              && CompleteLadder(r.value.1, BaseLadder(r.value.0), r.value.0, commitments)
              && (Sent(r.value.1, PlaceIn(BaseLadder(r.value.0), r.value.0)) <==>
                    MetBefore(greatest, FrontierOf(n), |FrontierOf(n)|, r.value.0))
              && visits == VisitsOf(greatest, r.value.0, FrontierOf(n))
  {
    var frontier := GetFrontier(n);
    assert frontier == FrontierOf(n);
    var rightmost := frontier[|frontier| - 1];
    if greatest[rightmost].None? {
      return Err, [];
    }
    var target := greatest[rightmost].value;
    var steps;
    steps, visits := VisitFrontier(greatest, frontier, target, commitments);
    VisitsAre(greatest, target, frontier, visits);
    return Ok((target, steps)), visits;
  }

  // ---- the client ----

  /** No lookup shows a greater version, and at the last entry none at or below the target is missing. */
  predicate NoContradiction(ls: seq<Lookup>, target: nat, isRightmost: bool) {
    forall i :: 0 <= i < |ls| ==>
      !(ls[i].inclusion && ls[i].version > target) && !(isRightmost && !ls[i].inclusion && ls[i].version <= target)
  }

  function VersionsIn(ls: seq<Lookup>): (vs: seq<nat>)
    ensures |vs| == |ls| && forall i :: 0 <= i < |ls| ==> vs[i] == ls[i].version
  {
    seq(|ls|, i requires 0 <= i < |ls| => ls[i].version)
  }

  /** The relation of an entry to a claimed greatest version, if its ladder does not contradict the claim. */
  function GreatestCheck(outcomes: seq<bool>, target: nat, isRightmost: bool): (r: Result<Ordering>) {
    var ls := Decode(outcomes, target);
    if ls.Err? || !NoContradiction(ls.value, target, isRightmost) then Err
    else if isRightmost && VersionsIn(ls.value) != BaseLadder(target) then Err
    else Ok(Relation(ls.value, target))
  }

  lemma RelationOne(ls: seq<Lookup>, l: Lookup, target: nat)
    ensures Relation(ls + [l], target) ==
            if l.inclusion && l.version > target then Greater else if !l.inclusion && l.version <= target then Less
                else Relation(ls, target)
  {
    assert (ls + [l])[..|ls|] == ls;
  }

  /** The relation part of `verify_ladder_proof` for a greatest-version search. */
  method VerifyGreatestLadder(outcomes: seq<bool>, target: nat, isRightmost: bool) returns (r: Result<Ordering>)
    requires target <= MAX_VERSION
    ensures r == GreatestCheck(outcomes, target, isRightmost)
  {
    var decoded := DecodeSearchLadder(outcomes, target);
    if decoded.Err? {
      return Err;
    }
    var ls := decoded.value;
    var relation := Equal;
    for j := 0 to |ls|
      invariant NoContradiction(ls[..j], target, isRightmost) && relation == Relation(ls[..j], target)
    {
      assert ls[..j + 1] == ls[..j] + [ls[j]];
      RelationOne(ls[..j], ls[j], target);
      if ls[j].inclusion && ls[j].version > target {
        return Err;
      }
      if !ls[j].inclusion && ls[j].version <= target {
        if isRightmost {
          return Err;
        }
        relation := Less;
      }
    }
    assert ls[..|ls|] == ls;
    if isRightmost {
      var base := BaseBinaryLadder(target);
      if VersionsIn(ls) != base {
        return Err;
      }
    }
    return Ok(relation);
  }

  /** Every honest entry passes, with its own relation to the greatest version. */
  lemma HonestEntryPasses(g: Option<nat>, target: nat, isRightmost: bool, outcomes: seq<bool>)
    requires target <= MAX_VERSION && (g.Some? ==> g.value <= target) && (isRightmost ==> g == Some(target))
    requires if g.Some? then Tells(outcomes, 0, VersionsAt(g, target), g.value) else outcomes == [false]
    ensures GreatestCheck(outcomes, target, isRightmost) == Ok(RelationAt(g, target))
  {
    HonestRelation(g, target, outcomes);
    if g.Some? {
      DecodeInverse(target, g.value, outcomes);
      if isRightmost { assert VersionsIn(Lookups(BaseLadder(target), target)) == BaseLadder(target); }
    } else {
      AbsentDecodes(outcomes, target, 0);
    }
  }

  /** Whatever the outcomes: an accepted last entry shows the claimed version present and the next one absent. */
  lemma AcceptedIsGreatest(outcomes: seq<bool>, target: nat)
    requires target <= MAX_VERSION && GreatestCheck(outcomes, target, true).Ok?
    ensures GreatestCheck(outcomes, target, true) == Ok(Equal)
    ensures Lookup(target, true) in Decode(outcomes, target).value
    ensures target < MAX_VERSION ==> Lookup(target + 1, false) in Decode(outcomes, target).value
  {
    EqualIsConsistent(Decode(outcomes, target).value, target);
    EqualShowsGreatest(outcomes, target);
  }
}
