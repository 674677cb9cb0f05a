/**
 * The server's ladder for an entry (src/tree/read.rs, generate_ladder_proof): one search of the entry's prefix
 * tree for each version, and what the client's check makes of the outcomes.
 */
module LadderServer {
  import opened Digests
  import opened SparseTree
  import opened PrefixProofs
  import opened PrefixVerifier
  import opened PrefixEntry
  import P = PrefixTree
  import opened TransitionAssembly
  import opened BinaryLadder
  import opened LadderDecode
  import opened FixedSearch
  import opened GreatestSearch
  import opened LadderProofs

  /** The honest answers of a map to searches for these versions, as one proof. */
  ghost predicate HonestLadder(index: nat -> Index, m: Contents, versions: seq<nat>, answers: seq<ProofResult>,
                               proof: PrefixProof) {
    && |answers| == |versions| == |proof.results|
    && (forall j :: 0 <= j < |versions| ==>
         Answers(m, index(versions[j]), answers[j]) && proof.results[j] == answers[j].result)
    && proof.elements == Elements(answers, |answers|)
  }

  /** The commitments found, version by version. */
  function Found(versions: seq<nat>, answers: seq<ProofResult>): (found: seq<(nat, Option<Commitment>)>)
    requires |versions| == |answers|
  {
    seq(|versions|, j requires 0 <= j < |versions| => (versions[j], answers[j].commitment))
  }

  lemma {:induction false} ElementsKept(answers: seq<ProofResult>, a: ProofResult, n: nat)
    requires n <= |answers|
    ensures Elements(answers + [a], n) == Elements(answers, n)
    decreases n
  {
    if n > 0 { ElementsKept(answers, a, n - 1); }
  }

  lemma HonestMore(index: nat -> Index, m: Contents, versions: seq<nat>, j: nat, answers: seq<ProofResult>,
                   results: seq<SearchResult>, elements: seq<Digest>, a: ProofResult)
    requires j < |versions| && HonestLadder(index, m, versions[..j], answers, PrefixProof(results, elements))
    requires Answers(m, index(versions[j]), a)
    ensures HonestLadder(index, m, versions[..j + 1], answers + [a],
                         PrefixProof(results + [a.result], elements + a.elements))
    ensures Found(versions[..j + 1], answers + [a]) == Found(versions[..j], answers) + [(versions[j], a.commitment)]
  {
    ElementsKept(answers, a, |answers|);
    assert versions[..j + 1] == versions[..j] + [versions[j]];
  }

  /** `generate_ladder_proof`, over the tree at a position that stands for a map. */
  method GenerateLadderProof(tree: P.PrefixTree, ptr: int, index: nat -> Index, versions: seq<nat>, ghost m: Contents)
    returns (r: Result<(PrefixProof, seq<(nat, Option<Commitment>)>)>, ghost answers: seq<ProofResult>)
    requires tree.Valid() && tree.full == tree.store && P.RootOf(tree.full, ptr, m)
    modifies tree`nodeCache, tree.nodeCache.Values
    ensures tree.Valid()
    ensures r.Ok? && HonestLadder(index, m, versions, answers, r.value.0)
    ensures r.value.1 == Found(versions, answers)
  {
    var overlay: map<int, PrefixEntry.CachedLogEntry> := map[];
    var results: seq<SearchResult> := [];
    var elements: seq<Digest> := [];
    var tuples: seq<(nat, Option<Commitment>)> := [];
    answers := [];
    for j := 0 to |versions|
      invariant tree.Ready(overlay) && P.RootOf(tree.full, ptr, m)
      invariant forall c :: c in tree.nodeCache.Values ==> c in old(tree.nodeCache.Values) || fresh(c)
      invariant HonestLadder(index, m, versions[..j], answers, PrefixProof(results, elements))
      invariant tuples == Found(versions[..j], answers)
    {
      var res := tree.SearchForProof(ptr, index(versions[j]), overlay, m);
      if res.Err? {
        return Err, answers;
      }
      HonestMore(index, m, versions, j, answers, results, elements, res.value);
      results := results + [res.value.result];
      elements := elements + res.value.elements;
      tuples := tuples + [(versions[j], res.value.commitment)];
      answers := answers + [res.value];
    }
    assert versions[..|versions|] == versions;
    return Ok((PrefixProof(results, elements), tuples)), answers;
  }

  // ---- what the client makes of it ----

  /** The step sent for a version carries the commitment found for it, which for the target may be left out. */
  predicate StepFits(c: Claim, v: nat, found: Option<Commitment>) {
    var step := c.steps(v);
    step.Some? &&
    if found.None? then c.greatest && v > c.target ==> step.value.None?
    else if v == c.target then found.value == c.commitment && (step.value.None? || step.value == found)
    else step.value == found
  }

  ghost predicate StepsFit(c: Claim, versions: seq<nat>, answers: seq<ProofResult>)
    requires |versions| == |answers|
  {
    forall j :: 0 <= j < |versions| ==> StepFits(c, versions[j], answers[j].commitment)
  }

  /** The lookups of versions in a map. */
  ghost function LookupsIn(c: Claim, m: Contents, versions: seq<nat>): (ls: seq<Lookup>)
    ensures |ls| == |versions|
    ensures forall j :: 0 <= j < |ls| ==> ls[j] == Lookup(versions[j], c.index(versions[j]) in m)
  {
    seq(|versions|, j requires 0 <= j < |versions| => Lookup(versions[j], c.index(versions[j]) in m))
  }

  /** One more lookup that folds to the same root. */
  lemma AgreedStep(c: Claim, ls: seq<Lookup>, proof: PrefixProof, n: nat, before: Option<Digest>, used: nat,
                   commitment: Option<Commitment>, root: Digest, more: nat)
    requires n < |ls| && Agreed(c, ls, proof, n) == Ok((before, used)) && (before.None? || before.value == root)
    requires CommitmentFor(c, ls[n]) == Ok(commitment)
    requires DerivedRoot(proof, n, c.index(ls[n].version), commitment, used) == Ok((root, more))
    ensures Agreed(c, ls, proof, n + 1) == Ok((Some(root), used + more))
  {}

  /** Lookup j folds to this root, from the elements after those of the lookups before. */
  ghost predicate FoldsTo(c: Claim, root: Digest, answers: seq<ProofResult>, proof: PrefixProof, ls: seq<Lookup>,
                          j: nat)
    requires j < |ls| == |answers|
  {
    && CommitmentFor(c, ls[j]) == Ok(answers[j].commitment)
    && DerivedRoot(proof, j, c.index(ls[j].version), answers[j].commitment, |Elements(answers, j)|) ==
       Ok((root, |answers[j].elements|))
  }

  lemma HonestOne(c: Claim, m: Contents, versions: seq<nat>, answers: seq<ProofResult>, proof: PrefixProof, j: nat)
    requires HonestLadder(c.index, m, versions, answers, proof) && StepsFit(c, versions, answers) && j < |versions|
    ensures FoldsTo(c, Root(m), answers, proof, LookupsIn(c, m, versions), j)
  {
    assert StepFits(c, versions[j], answers[j].commitment);
    ElementsSlice(answers, j);
    HonestProofVerifies(m, c.index(versions[j]), answers[j], proof, j, |Elements(answers, j)|);
  }

  lemma ElementsNext(answers: seq<ProofResult>, n: nat)
    requires n < |answers|
    ensures |Elements(answers, n + 1)| == |Elements(answers, n)| + |answers[n].elements|
  {}

  lemma {:induction false} FoldsOnward(c: Claim, root: Digest, answers: seq<ProofResult>, proof: PrefixProof,
                                       ls: seq<Lookup>, n: nat)
    requires n < |ls| == |answers| && FoldsTo(c, root, answers, proof, ls, n)
    requires Agreed(c, ls, proof, n) == Ok((RootAfter(root, n), |Elements(answers, n)|))
    ensures Agreed(c, ls, proof, n + 1) == Ok((RootAfter(root, n + 1), |Elements(answers, n + 1)|))
  {
    ElementsNext(answers, n);
    AgreedStep(c, ls, proof, n, RootAfter(root, n), |Elements(answers, n)|, answers[n].commitment, root,
               |answers[n].elements|);
  }

  /** Lookups that fold to one root agree on it, and use all their elements. */
  lemma {:induction false} FoldsAgree(c: Claim, root: Digest, answers: seq<ProofResult>, proof: PrefixProof,
                                      ls: seq<Lookup>, n: nat)
    requires n <= |ls| == |answers| && forall j :: 0 <= j < |ls| ==> FoldsTo(c, root, answers, proof, ls, j)
    ensures Agreed(c, ls, proof, n) == Ok((RootAfter(root, n), |Elements(answers, n)|))
    decreases n
  {
    if n > 0 {
      FoldsAgree(c, root, answers, proof, ls, n - 1);
      FoldsOnward(c, root, answers, proof, ls, n - 1);
    }
  }

  /** Lookups whose outcomes are honest agree on the root of the map. */
  lemma HonestAgrees(c: Claim, m: Contents, versions: seq<nat>, answers: seq<ProofResult>, proof: PrefixProof)
    requires HonestLadder(c.index, m, versions, answers, proof) && StepsFit(c, versions, answers)
    ensures Agreed(c, LookupsIn(c, m, versions), proof, |versions|) ==
            Ok((RootAfter(Root(m), |versions|), |proof.elements|))
  {
    var ls := LookupsIn(c, m, versions);
    forall j | 0 <= j < |ls| ensures FoldsTo(c, Root(m), answers, proof, ls, j) {
      HonestOne(c, m, versions, answers, proof, j);
    }
    FoldsAgree(c, Root(m), answers, proof, ls, |ls|);
  }

  /** The root known after n lookups. */
  function RootAfter(root: Digest, n: nat): Option<Digest> {
    if n == 0 then None else Some(root)
  }

  /** The outcomes of an honest ladder tell the greatest version. */
  lemma HonestOutcomes(c: Claim, m: Contents, g: Option<nat>, versions: seq<nat>, answers: seq<ProofResult>,
                       proof: PrefixProof)
    requires HonestLadder(c.index, m, versions, answers, proof) && HoldsUpTo(c, m, g)
    ensures |OutcomesOf(proof)| == |versions|
    ensures forall j :: 0 <= j < |versions| ==> (OutcomesOf(proof)[j] <==> g.Some? && versions[j] <= g.value)
  {
    forall j | 0 <= j < |versions|
      ensures OutcomesOf(proof)[j] <==> c.index(versions[j]) in m
    {
      assert Answers(m, c.index(versions[j]), answers[j]);
    }
  }

  /**
   * The server's ladder for an entry passes the client's check, with the root of the entry's map and with
   * how its greatest version compares with the target.
   */
  lemma HonestLadderAccepted(c: Claim, m: Contents, g: Option<nat>, answers: seq<ProofResult>, proof: PrefixProof,
                             isRightmost: bool)
    requires c.target <= MAX_VERSION && HoldsUpTo(c, m, g) && (g.Some? ==> g.value <= MAX_VERSION)
    requires c.greatest ==> (g.Some? ==> g.value <= c.target) && (isRightmost ==> g == Some(c.target))
    requires HonestLadder(c.index, m, VersionsAt(g, c.target), answers, proof)
    requires StepsFit(c, VersionsAt(g, c.target), answers)
    ensures CheckedLadder(c, proof, isRightmost) == Ok((Root(m), RelationAt(g, c.target)))
  {
    var versions := VersionsAt(g, c.target);
    var ls := LookupsIn(c, m, versions);
    HonestOutcomes(c, m, g, versions, answers, proof);
    HonestRelates(c, m, g, OutcomesOf(proof), isRightmost);
    HonestAgrees(c, m, versions, answers, proof);
    SomeVersion(g, c.target);
    CheckedFrom(c, proof, isRightmost, ls, Root(m), RelationAt(g, c.target));
  }

  lemma CheckedFrom(c: Claim, proof: PrefixProof, isRightmost: bool, ls: seq<Lookup>, root: Digest, o: Ordering)
    requires RelationFor(c, OutcomesOf(proof), isRightmost) == Ok(o) && Decode(OutcomesOf(proof), c.target) == Ok(ls)
    requires Agreed(c, ls, proof, |ls|) == Ok((Some(root), |proof.elements|))
    ensures CheckedLadder(c, proof, isRightmost) == Ok((root, o))
  {}

  lemma HonestRelates(c: Claim, m: Contents, g: Option<nat>, outcomes: seq<bool>, isRightmost: bool)
    requires c.target <= MAX_VERSION && HoldsUpTo(c, m, g) && (g.Some? ==> g.value <= MAX_VERSION)
    requires c.greatest ==> (g.Some? ==> g.value <= c.target) && (isRightmost ==> g == Some(c.target))
    requires |outcomes| == |VersionsAt(g, c.target)|
    requires forall j :: 0 <= j < |outcomes| ==> (outcomes[j] <==> g.Some? && VersionsAt(g, c.target)[j] <= g.value)
    ensures RelationFor(c, outcomes, isRightmost) == Ok(RelationAt(g, c.target))
    ensures Decode(outcomes, c.target) == Ok(LookupsIn(c, m, VersionsAt(g, c.target)))
  {
    assert g.None? ==> outcomes == [false];
    assert g.Some? ==> Tells(outcomes, 0, VersionsAt(g, c.target), g.value);
    HonestRelation(g, c.target, outcomes);
    if c.greatest { HonestEntryPasses(g, c.target, isRightmost, outcomes); }
    HonestDecodes(c, m, g, outcomes);
  }

  lemma SomeVersion(g: Option<nat>, target: nat)
    ensures VersionsAt(g, target) != []
  {
    if g.Some? { assert |SearchLadder(target, g.value)| > 0; }
  }

  lemma HonestDecodes(c: Claim, m: Contents, g: Option<nat>, outcomes: seq<bool>)
    requires HoldsUpTo(c, m, g) && c.target <= MAX_VERSION && (g.Some? ==> g.value <= MAX_VERSION)
    requires if g.Some? then Tells(outcomes, 0, VersionsAt(g, c.target), g.value) else outcomes == [false]
    ensures Decode(outcomes, c.target) == Ok(LookupsIn(c, m, VersionsAt(g, c.target)))
  {
    if g.Some? {
      DecodeInverse(c.target, g.value, outcomes);
      assert Lookups(VersionsAt(g, c.target), g.value) == LookupsIn(c, m, VersionsAt(g, c.target));
    } else {
      AbsentDecodes(outcomes, c.target, 0);
      assert [Lookup(0, false)] == LookupsIn(c, m, VersionsAt(g, c.target));
    }
  }
}
