/**
 * The client's greatest-version search over the proofs it is sent (src/client/core.rs, verify_search_response): one
 * ladder for each entry of the frontier. What an accepted search shows of the log's maps, and that an honest one is
 * accepted.
 */
module GreatestReplay {
  import opened Digests
  import opened SparseTree
  import opened PrefixProofs
  import opened LogMath
  import opened Ibst
  import opened BinaryLadder
  import opened LadderDecode
  import opened FixedSearch
  import opened GreatestSearch
  import opened LadderProofs
  import opened LadderServer
  import opened ProofReader
  import opened ClientOperation
  import opened FixedReplay
  import opened FixedLaws

  // ---- the search, on values ----

  /** How far a search is: the roots of the proofs, and the first entry whose greatest version is the target. */
  datatype Found = Found(roots: EntryRoots, first: Option<nat>)

  /** The check of a frontier entry's proof; the last entry's is stricter. */
  type EntryCheck = (PrefixProof, bool) -> Result<(Digest, Ordering)>

  function EntryChecks(c: LadderProofs.Claim): (check: EntryCheck) {
    (p: PrefixProof, isRightmost: bool) => CheckedLadder(c, p, isRightmost)
  }

  /** Entry i of the frontier, with this place of the queue; the last one is the log's last entry. */
  function OneRead(check: EntryCheck, proofs: seq<PrefixProof>, frontier: seq<nat>, i: nat, at: nat, f: Found)
    : (r: Result<Found>)
    requires i < |frontier|
  {
    if at >= |proofs| then Err
    else
      var ladder :- check(proofs[at], i == |frontier| - 1);
      var roots :- Record(f.roots, frontier[i], Some(ladder.0));
      Ok(Found(roots, if ladder.1 == Equal && f.first.None? then Some(frontier[i]) else f.first))
  }

  /** The first i entries of the frontier, with the proofs from one place of the queue on. */
  function FrontierRead(check: EntryCheck, proofs: seq<PrefixProof>, frontier: seq<nat>, idx: nat, i: nat)
    : (r: Result<Found>)
    requires i <= |frontier|
    decreases i, frontier
  {
    if i == 0 then Ok(Found(map[], None))
    else
      var before :- FrontierRead(check, proofs, frontier, idx, i - 1);
      OneRead(check, proofs, frontier, i - 1, idx + (i - 1), before)
  }

  /** The whole search over a frontier: the first entry whose greatest version is the target, or else the last one. */
  function GreatestAnswer(c: LadderProofs.Claim, proofs: seq<PrefixProof>, frontier: seq<nat>, idx: nat)
    : (r: Result<(nat, EntryRoots)>)
    requires frontier != []
  {
    var found :- FrontierRead(EntryChecks(c), proofs, frontier, idx, |frontier|);
    Ok((if found.first.Some? then found.first.value else frontier[|frontier| - 1], found.roots))
  }

  // ---- the client's code ----

  /** The ladder of one frontier entry. */
  method InspectFrontier(reader: ProofReader, c: LadderProofs.Claim, frontier: seq<nat>, i: nat, f: Found, n: nat)
    returns (r: Result<Found>)
    requires ReadSome(reader, n) && c.target <= MAX_VERSION && i < |frontier|
    requires forall j, k :: 0 <= j < k < |frontier| ==> frontier[j] < frontier[k]
    modifies reader`proofIdx, reader`trace
    ensures ReadSome(reader, n)
    ensures r == OneRead(EntryChecks(c), reader.proof.prefixProofs, frontier, i, old(reader.proofIdx), f)
    ensures r.Ok? ==> reader.proofIdx == old(reader.proofIdx) + 1 && r.value.roots.Keys == f.roots.Keys + {frontier[i]}
  {
    var entry, isRightmost := frontier[i], frontier[i] == frontier[|frontier| - 1];
    var pp := reader.NextProof(entry);
    if pp.Err? {
      return Err;
    }
    var ladder := VerifyLadderProof(c, pp.value, isRightmost);
    if ladder.Err? {
      return Err;
    }
    var recorded := Record(f.roots, entry, Some(ladder.value.0));
    if recorded.Err? {
      return Err;
    }
    return Ok(Found(recorded.value, if ladder.value.1 == Equal && f.first.None? then Some(entry) else f.first));
  }

  lemma {:induction false} FrontierFails(check: EntryCheck, proofs: seq<PrefixProof>, frontier: seq<nat>, idx: nat,
                                         i: nat, i': nat)
    requires i <= i' <= |frontier| && FrontierRead(check, proofs, frontier, idx, i).Err?
    ensures FrontierRead(check, proofs, frontier, idx, i').Err?
    decreases i'
  {
    if i < i' { FrontierFails(check, proofs, frontier, idx, i, i' - 1); }
  }

  lemma {:induction false} FrontierNext(check: EntryCheck, proofs: seq<PrefixProof>, frontier: seq<nat>, idx: nat,
                                        i: nat, at: nat, f: Found, one: Result<Found>)
    requires 0 < i <= |frontier| && at + 1 == idx + i && FrontierRead(check, proofs, frontier, idx, i - 1) == Ok(f)
    requires one == OneRead(check, proofs, frontier, i - 1, at, f)
    ensures FrontierRead(check, proofs, frontier, idx, i) == one
    ensures one.Err? ==> FrontierRead(check, proofs, frontier, idx, |frontier|).Err?
  {
    if one.Err? { FrontierFails(check, proofs, frontier, idx, i, |frontier|); }
  }

  /** All entries of the frontier. */
  method InspectAll(reader: ProofReader, c: LadderProofs.Claim, frontier: seq<nat>, n: nat) returns (r: Result<Found>)
    requires ReadSome(reader, n) && c.target <= MAX_VERSION
    requires forall j, k :: 0 <= j < k < |frontier| ==> frontier[j] < frontier[k]
    modifies reader`proofIdx, reader`trace
    ensures ReadSome(reader, n)
    ensures r == FrontierRead(EntryChecks(c), reader.proof.prefixProofs, frontier, old(reader.proofIdx), |frontier|)
    ensures r.Ok? ==> reader.proofIdx == old(reader.proofIdx) + |frontier|
    ensures r.Ok? ==> forall x :: x in r.value.roots ==> x in frontier
  {
    var f := Found(map[], None);
    for i := 0 to |frontier|
      invariant ReadSome(reader, n) && reader.proofIdx == old(reader.proofIdx) + i
      invariant FrontierRead(EntryChecks(c), reader.proof.prefixProofs, frontier, old(reader.proofIdx), i) == Ok(f)
      invariant forall x :: x in f.roots ==> x in frontier
    {
      ghost var at := reader.proofIdx;
      var one := InspectFrontier(reader, c, frontier, i, f, n);
      FrontierNext(EntryChecks(c), reader.proof.prefixProofs, frontier, old(reader.proofIdx), i + 1, at, f, one);
      if one.Err? {
        return Err;
      }
      f := one.value;
    }
    return Ok(f);
  }

  /** The search over the entries of a frontier. */
  method SearchFrontier(reader: ProofReader, c: LadderProofs.Claim, frontier: seq<nat>, n: nat)
    returns (r: Result<(nat, EntryRoots)>)
    requires ReadSome(reader, n) && c.target <= MAX_VERSION && RisesTo(frontier, 0, n)
    modifies reader`proofIdx, reader`trace
    ensures ReadSome(reader, n)
    ensures r == GreatestAnswer(c, reader.proof.prefixProofs, frontier, old(reader.proofIdx))
    ensures r.Ok? ==> reader.proofIdx == old(reader.proofIdx) + |frontier|
    ensures r.Ok? ==> forall x :: x in r.value.1 ==> x in frontier
  {
    var rightmost := frontier[|frontier| - 1];
    var f := InspectAll(reader, c, frontier, n);
    if f.Err? {
      return Err;
    }
    return Ok((if f.value.first.Some? then f.value.first.value else rightmost, f.value.roots));
  }

  /** The greatest-version part of `verify_search_response`. */
  method ReplayGreatestSearch(reader: ProofReader, c: LadderProofs.Claim, n: nat) returns (r: Result<(nat, EntryRoots)>)
    requires ReadSome(reader, n) && n > 0 && Log2(n) < 64 && c.target <= MAX_VERSION
    modifies reader`proofIdx, reader`trace
    ensures ReadSome(reader, n)
    ensures r == GreatestAnswer(c, reader.proof.prefixProofs, FrontierOf(n), old(reader.proofIdx))
    ensures r.Ok? ==> reader.proofIdx == old(reader.proofIdx) + |FrontierOf(n)|
    ensures r.Ok? ==> forall x :: x in r.value.1 ==> x in FrontierOf(n)
  {
    var frontier := GetFrontier(n);
    assert frontier == FrontierOf(n);
    r := SearchFrontier(reader, c, frontier, n);
  }

  // ---- whatever the proofs ----

  /** The target is the greatest version at an entry, and held there. */
  ghost predicate TargetIsGreatest(c: LadderProofs.Claim, maps: seq<Contents>, greatest: Versions, x: nat) {
    x < |maps| == |greatest| && greatest[x] == Some(c.target) && Held(c, maps[x])
  }

  /** What the ladders of the first i frontier entries show: where the target is met first, and at the last entry. */
  ghost predicate MetFirst(c: LadderProofs.Claim, maps: seq<Contents>, greatest: Versions, frontier: seq<nat>, i: nat,
                           first: Option<nat>) {
    && i <= |frontier| && |maps| == |greatest| && (forall j :: 0 <= j < |frontier| ==> frontier[j] < |maps|)
    && (forall j :: 0 <= j < i && greatest[frontier[j]] == Some(c.target) ==> first.Some? && first.value <= frontier[j])
    && (first.Some? ==> first.value in frontier[..i] && TargetIsGreatest(c, maps, greatest, first.value))
  }

  /** A ladder that is accepted as that of an entry's map. */
  ghost predicate LadderShown(c: LadderProofs.Claim, m: Contents, g: Option<nat>, isRightmost: bool,
                              ladder: (Digest, Ordering)) {
    ladder.0 == Root(m) && EntryHolds(c, m, g) ==>
      ladder.1 == RelationAt(g, c.target) && (g == Some(c.target) ==> Held(c, m)) &&
      (isRightmost ==> g == Some(c.target))
  }

  lemma {:induction false} AcceptedIsShown(c: LadderProofs.Claim, p: PrefixProof, isRightmost: bool, m: Contents,
                                           g: Option<nat>)
    requires c.greatest && c.target <= MAX_VERSION && CheckedLadder(c, p, isRightmost).Ok?
    ensures LadderShown(c, m, g, isRightmost, CheckedLadder(c, p, isRightmost).value)
  {
    var ladder := CheckedLadder(c, p, isRightmost).value;
    if ladder.0 == Root(m) && EntryHolds(c, m, g) {
      AcceptedRelationIsTrue(c, p, isRightmost, m, g);
      if isRightmost { AcceptedRightmostIsGreatest(c, p, m); }
    }
  }

  lemma {:induction false} MetNext(c: LadderProofs.Claim, maps: seq<Contents>, greatest: Versions, frontier: seq<nat>,
                                   i: nat, first: Option<nat>, o: Ordering)
    requires MetFirst(c, maps, greatest, frontier, i, first) && i < |frontier|
    requires forall j, k :: 0 <= j < k < |frontier| ==> frontier[j] < frontier[k]
    requires o == RelationAt(greatest[frontier[i]], c.target)
    requires greatest[frontier[i]] == Some(c.target) ==> Held(c, maps[frontier[i]])
    ensures MetFirst(c, maps, greatest, frontier, i + 1, if o == Equal && first.None? then Some(frontier[i]) else first)
  {
    assert frontier[..i + 1] == frontier[..i] + [frontier[i]];
  }

  /** The end of a greatest-version search: the first frontier entry with the target as its greatest version. */
  ghost predicate FirstGreatest(c: LadderProofs.Claim, maps: seq<Contents>, greatest: Versions, x: nat) {
    && |maps| > 0 && TargetIsGreatest(c, maps, greatest, |maps| - 1)
    && x in Frontier(0, |maps|) && TargetIsGreatest(c, maps, greatest, x)
    && forall y :: y in Frontier(0, |maps|) && y < |maps| && greatest[y] == Some(c.target) ==> x <= y
  }

  /** What the search shows once i frontier entries are read; at the last one the target is greatest. */
  ghost predicate SoFar(c: LadderProofs.Claim, maps: seq<Contents>, greatest: Versions, frontier: seq<nat>, i: nat,
                        first: Option<nat>) {
    && MetFirst(c, maps, greatest, frontier, i, first)
    && (i > 0 && i == |frontier| ==> TargetIsGreatest(c, maps, greatest, frontier[i - 1]))
  }

  lemma {:induction false} SoFarNext(c: LadderProofs.Claim, maps: seq<Contents>, greatest: Versions, frontier: seq<nat>,
                                     i: nat, first: Option<nat>, roots: EntryRoots, ladder: (Digest, Ordering))
    requires SoFar(c, maps, greatest, frontier, i, first) && i < |frontier|
    requires forall j, k :: 0 <= j < k < |frontier| ==> frontier[j] < frontier[k]
    requires Entries(c, maps, greatest) && RootsOfMaps(maps, roots)
    requires frontier[i] in roots && ladder.0 == roots[frontier[i]]
    requires LadderShown(c, maps[frontier[i]], greatest[frontier[i]], i == |frontier| - 1, ladder)
    ensures SoFar(c, maps, greatest, frontier, i + 1,
                  if ladder.1 == Equal && first.None? then Some(frontier[i]) else first)
  {
    assert EntryHolds(c, maps[frontier[i]], greatest[frontier[i]]);
    MetNext(c, maps, greatest, frontier, i, first, ladder.1);
  }

  lemma {:induction false} SoFarEnds(c: LadderProofs.Claim, maps: seq<Contents>, greatest: Versions,
                                     frontier: seq<nat>, first: Option<nat>)
    requires maps != [] && frontier != [] && frontier[|frontier| - 1] == |maps| - 1
    requires SoFar(c, maps, greatest, frontier, |frontier|, first)
    ensures first.Some? && first.value in frontier && TargetIsGreatest(c, maps, greatest, first.value)
    ensures TargetIsGreatest(c, maps, greatest, |maps| - 1)
    ensures forall y :: y in frontier && y < |maps| && greatest[y] == Some(c.target) ==> first.value <= y
  {
    assert frontier[..|frontier|] == frontier;
  }

  lemma {:induction false} OneAdds(check: EntryCheck, proofs: seq<PrefixProof>, frontier: seq<nat>, i: nat, at: nat,
                                   f: Found, f': Found)
    requires i < |frontier| && OneRead(check, proofs, frontier, i, at, f) == Ok(f')
    ensures at < |proofs| && check(proofs[at], i == |frontier| - 1).Ok?
    ensures var ladder := check(proofs[at], i == |frontier| - 1).value;
            && Within(f.roots, f'.roots) && frontier[i] in f'.roots && f'.roots[frontier[i]] == ladder.0
            && f'.first == if ladder.1 == Equal && f.first.None? then Some(frontier[i]) else f.first
  {}

  /** Entries whose roots are those of their maps show where the target is met first. */
  lemma {:induction false} FrontierIsTrue(c: LadderProofs.Claim, proofs: seq<PrefixProof>, maps: seq<Contents>,
                                          greatest: Versions, frontier: seq<nat>, idx: nat, i: nat)
    requires c.greatest && c.target <= MAX_VERSION && Entries(c, maps, greatest) && i <= |frontier|
    requires forall j, k :: 0 <= j < k < |frontier| ==> frontier[j] < frontier[k]
    requires forall j :: 0 <= j < |frontier| ==> frontier[j] < |maps|
    requires FrontierRead(EntryChecks(c), proofs, frontier, idx, i).Ok?
    requires RootsOfMaps(maps, FrontierRead(EntryChecks(c), proofs, frontier, idx, i).value.roots)
    ensures SoFar(c, maps, greatest, frontier, i, FrontierRead(EntryChecks(c), proofs, frontier, idx, i).value.first)
    decreases i
  {
    if i > 0 {
      var f := FrontierRead(EntryChecks(c), proofs, frontier, idx, i - 1).value;
      var f' := FrontierRead(EntryChecks(c), proofs, frontier, idx, i).value;
      OneAdds(EntryChecks(c), proofs, frontier, i - 1, idx + (i - 1), f, f');
      FrontierIsTrue(c, proofs, maps, greatest, frontier, idx, i - 1);
      var x := frontier[i - 1];
      AcceptedIsShown(c, proofs[idx + (i - 1)], i - 1 == |frontier| - 1, maps[x], greatest[x]);
      SoFarNext(c, maps, greatest, frontier, i - 1, f.first, f'.roots,
                CheckedLadder(c, proofs[idx + (i - 1)], i - 1 == |frontier| - 1).value);
    }
  }

  /**
   * Whatever the proofs: a search that is accepted, with roots that are those of the log's maps, has ended at the first
   * frontier entry whose greatest version is the target, and the target is the last entry's greatest version too.
   */
  lemma {:induction false} AcceptedGreatestSearch(c: LadderProofs.Claim, proofs: seq<PrefixProof>, maps: seq<Contents>,
                                                  greatest: Versions, n: nat, idx: nat, frontier: seq<nat>)
    requires c.greatest && c.target <= MAX_VERSION && Entries(c, maps, greatest) && n == |maps| > 0
    requires frontier == FrontierOf(n) && GreatestAnswer(c, proofs, frontier, idx).Ok?
    requires RootsOfMaps(maps, GreatestAnswer(c, proofs, frontier, idx).value.1)
    ensures FirstGreatest(c, maps, greatest, GreatestAnswer(c, proofs, frontier, idx).value.0)
  {
    FrontierIsTrue(c, proofs, maps, greatest, frontier, idx, |frontier|);
    SoFarEnds(c, maps, greatest, frontier, FrontierRead(EntryChecks(c), proofs, frontier, idx, |frontier|).value.first);
  }

  // ---- honest proofs ----

  /** Each proof of the queue, from one place on, passes for an entry of the frontier. */
  ghost predicate FrontierPasses(check: EntryCheck, proofs: seq<PrefixProof>, maps: seq<Contents>,
                                 rel: seq<Ordering>, frontier: seq<nat>, idx: nat) {
    && idx + |frontier| <= |proofs|
    && forall i :: 0 <= i < |frontier| ==> OnePasses(check, proofs, maps, rel, frontier, idx, i)
  }

  ghost predicate OnePasses(check: EntryCheck, proofs: seq<PrefixProof>, maps: seq<Contents>, rel: seq<Ordering>,
                            frontier: seq<nat>, idx: nat, i: nat) {
    && i < |frontier| && frontier[i] < |maps| == |rel| && idx + i < |proofs|
    && check(proofs[idx + i], i == |frontier| - 1) == Ok((Root(maps[frontier[i]]), rel[frontier[i]]))
  }

  lemma {:induction false} PassedFrontier(check: EntryCheck, proofs: seq<PrefixProof>, maps: seq<Contents>,
                                          rel: seq<Ordering>, frontier: seq<nat>, idx: nat, i: nat)
    requires FrontierPasses(check, proofs, maps, rel, frontier, idx) && i <= |frontier|
    ensures var r := FrontierRead(check, proofs, frontier, idx, i);
            && r.Ok? && RootsOfMaps(maps, r.value.roots)
            && forall x :: x in r.value.roots <==> x in frontier[..i]
    decreases i
  {
    if i > 0 {
      PassedFrontier(check, proofs, maps, rel, frontier, idx, i - 1);
      assert OnePasses(check, proofs, maps, rel, frontier, idx, i - 1);
      assert frontier[..i] == frontier[..i - 1] + [frontier[i - 1]];
    }
  }

  /** The server's ladder for an entry, towards the greatest version of the last one, passes the client's check. */
  lemma {:induction false} HonestOnePasses(c: LadderProofs.Claim, m: Contents, g: Option<nat>,
                                           answers: seq<ProofResult>, proof: PrefixProof, isRightmost: bool)
    requires c.greatest && c.target <= MAX_VERSION && EntryHolds(c, m, g) && HonestEntry(c, m, g, answers, proof)
    requires (g.Some? ==> g.value <= c.target) && (isRightmost ==> g == Some(c.target))
    ensures CheckedLadder(c, proof, isRightmost) == Ok((Root(m), RelationAt(g, c.target)))
  {
    HonestLadderAccepted(c, m, g, answers, proof, isRightmost);
  }

  lemma {:induction false} HonestAtPasses(c: LadderProofs.Claim, proofs: seq<PrefixProof>, maps: seq<Contents>,
                                          greatest: Versions, frontier: seq<nat>, answers: seq<ProofResult>, idx: nat,
                                          i: nat)
    requires c.greatest && c.target <= MAX_VERSION && |maps| == |greatest| && i < |frontier| && idx + i < |proofs|
    requires frontier[i] < |maps| && EntryHolds(c, maps[frontier[i]], greatest[frontier[i]])
    requires HonestEntry(c, maps[frontier[i]], greatest[frontier[i]], answers, proofs[idx + i])
    requires greatest[frontier[i]].Some? ==> greatest[frontier[i]].value <= c.target
    requires i == |frontier| - 1 ==> greatest[frontier[i]] == Some(c.target)
    ensures OnePasses(EntryChecks(c), proofs, maps, Relations(greatest, c.target), frontier, idx, i)
  {
    var x := frontier[i];
    HonestOnePasses(c, maps[x], greatest[x], answers, proofs[idx + i], i == |frontier| - 1);
  }

  lemma {:induction false} HonestFrontierPasses(c: LadderProofs.Claim, proofs: seq<PrefixProof>, maps: seq<Contents>,
                                                greatest: Versions, frontier: seq<nat>,
                                                ladders: seq<seq<ProofResult>>, idx: nat)
    requires c.greatest && c.target <= MAX_VERSION && Entries(c, maps, greatest) && AtMost(greatest, c.target)
    requires maps != [] && greatest[|maps| - 1] == Some(c.target)
    requires frontier != [] && frontier[|frontier| - 1] == |maps| - 1
    requires forall i :: 0 <= i < |frontier| ==> frontier[i] < |maps|
    requires HonestLadders(c, proofs, maps, greatest, frontier, ladders, idx)
    ensures FrontierPasses(EntryChecks(c), proofs, maps, Relations(greatest, c.target), frontier, idx)
  {
    forall i | 0 <= i < |frontier|
      ensures OnePasses(EntryChecks(c), proofs, maps, Relations(greatest, c.target), frontier, idx, i)
    {
      assert EntryHolds(c, maps[frontier[i]], greatest[frontier[i]]);
      HonestAtPasses(c, proofs, maps, greatest, frontier, ladders[i], idx, i);
    }
  }

  /**
   * Completeness: proofs that pass, as the server's ladders do, are accepted with the roots of the entries' maps, and
   * the client ends at the first frontier entry whose greatest version is the target.
   */
  lemma {:induction false} PassedGreatestSearch(c: LadderProofs.Claim, proofs: seq<PrefixProof>, maps: seq<Contents>,
                                                greatest: Versions, n: nat, idx: nat, frontier: seq<nat>)
    requires c.greatest && c.target <= MAX_VERSION && Entries(c, maps, greatest) && n == |maps| > 0
    requires frontier == FrontierOf(n)
    requires FrontierPasses(EntryChecks(c), proofs, maps, Relations(greatest, c.target), frontier, idx)
    ensures var r := GreatestAnswer(c, proofs, frontier, idx);
            && r.Ok? && FirstGreatest(c, maps, greatest, r.value.0) && RootsOfMaps(maps, r.value.1)
            && forall x :: x in r.value.1 <==> x in frontier
  {
    PassedFrontier(EntryChecks(c), proofs, maps, Relations(greatest, c.target), frontier, idx, |frontier|);
    assert frontier[..|frontier|] == frontier;
    AcceptedGreatestSearch(c, proofs, maps, greatest, n, idx, frontier);
  }
}
