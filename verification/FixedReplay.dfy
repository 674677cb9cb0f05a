/**
 * The client's fixed-version search over the proofs it is sent (src/client/core.rs, simulate_fixed_search), without
 * a maximum lifetime: each proof is the next of the queue, checked for the entry at hand.
 */
module FixedReplay {
  import opened Digests
  import opened PrefixProofs
  import opened PrefixVerifier
  import opened LogMath
  import opened Ibst
  import opened BinaryLadder
  import opened LadderDecode
  import opened FixedSearch
  import opened LadderProofs
  import opened CombinedProof
  import opened ProofReader
  import opened ClientOperation

  // ---- the search, on values ----

  /** `verify_single_lookup`: the target alone, and whether it is included. */
  function SingleLookup(c: LadderProofs.Claim, proof: PrefixProof): (r: Result<(Digest, bool)>) {
    if |proof.results| != 1 || c.steps(c.target).None? then Err
    else
      var inclusion := proof.results[0].resultType == INCLUSION;
      var one :- DerivedRoot(proof, 0, c.index(c.target), if inclusion then Some(c.commitment) else None, 0);
      if one.1 != |proof.elements| then Err else Ok((one.0, inclusion))
  }

  /** How far a search is: the entries inspected, the roots of their proofs and the proofs taken. */
  datatype Trail = Trail(inspected: seq<(nat, Ordering)>, roots: EntryRoots, idx: nat)

  /** The check of an entry's proof: the prefix root it folds to, and how the entry compares with the target. */
  type Check = PrefixProof -> Result<(Digest, Ordering)>

  function LadderCheck(c: LadderProofs.Claim): (check: Check) {
    (p: PrefixProof) => CheckedLadder(c, p, false)
  }

  /** The next proof, checked for this entry. */
  function Inspect(check: Check, proofs: seq<PrefixProof>, x: nat, t: Trail): (r: Result<(Trail, Ordering)>) {
    if t.idx >= |proofs| then Err
    else
      var ladder :- check(proofs[t.idx]);
      var roots :- Record(t.roots, x, Some(ladder.0));
      Ok((Trail(t.inspected + [(x, ladder.1)], roots, t.idx + 1), ladder.1))
  }

  /** The search among the entries from lo up to hi. */
  function Searched(check: Check, proofs: seq<PrefixProof>, lo: nat, hi: nat, t: Trail): (r: Result<Trail>)
    decreases hi - lo, 1, t
  {
    if lo >= hi then Ok(t) else Onward(check, proofs, lo, hi, RootOf(lo, hi), Inspect(check, proofs, RootOf(lo, hi), t))
  }

  /** The search after an inspection: right of a lesser entry, left of a greater one. */
  function Onward(check: Check, proofs: seq<PrefixProof>, lo: nat, hi: nat, x: nat, one: Result<(Trail, Ordering)>)
    : (r: Result<Trail>)
    requires lo <= x < hi
    decreases hi - lo, 0, one
  {
    if one.Err? then Err
    else
      match one.value.1
      case Less => Searched(check, proofs, x + 1, hi, one.value.0)
      case Greater => Searched(check, proofs, lo, x, one.value.0)
      case Equal => Ok(one.value.0)
  }

  /** The entry that the search ends at: an equal one, or the least greater one, where the target is looked up. */
  function Concluded(c: LadderProofs.Claim, proofs: seq<PrefixProof>, t: Trail): (r: Result<(nat, Trail)>) {
    if t.inspected != [] && t.inspected[|t.inspected| - 1].1 == Equal then Ok((t.inspected[|t.inspected| - 1].0, t))
    else
      var identified := LeastOf(t.inspected);
      if identified.None? || t.idx >= |proofs| then Err
      else
        var lookup :- SingleLookup(c, proofs[t.idx]);
        var roots :- Record(t.roots, identified.value, Some(lookup.0));
        if lookup.1 then Ok((identified.value, Trail(t.inspected, roots, t.idx + 1))) else Err
  }

  /** The whole search over a log of n entries, with the proofs from one place of the queue on. */
  function FixedAnswer(c: LadderProofs.Claim, proofs: seq<PrefixProof>, n: nat, idx: nat): (r: Result<(nat, Trail)>) {
    var t :- Searched(LadderCheck(c), proofs, 0, n, Trail([], map[], idx));
    Concluded(c, proofs, t)
  }

  // ---- the steps of a search ----

  ghost predicate Within(a: EntryRoots, b: EntryRoots) {
    forall x :: x in a ==> x in b && b[x] == a[x]
  }

  lemma InspectKeeps(check: Check, proofs: seq<PrefixProof>, x: nat, t: Trail)
    requires Inspect(check, proofs, x, t).Ok?
    ensures var (t', o) := Inspect(check, proofs, x, t).value;
            && t.idx < |proofs| && Within(t.roots, t'.roots) && x in t'.roots
            && check(proofs[t.idx]) == Ok((t'.roots[x], o)) && t'.inspected == t.inspected + [(x, o)]
  {}

  /** Where a search goes on after an inspection. */
  ghost function Next(o: Ordering, x: nat, lo: nat, hi: nat): (next: (nat, nat))
    requires lo <= x < hi
    ensures GoesOn(o, x, lo, hi, next.0, next.1) && next.1 <= hi && next.1 - next.0 < hi - lo
  {
    match o
    case Less => (x + 1, hi)
    case Greater => (lo, x)
    case Equal => (x, x)
  }

  /** A search that comes to an end has made an inspection and come to the same end from there. */
  lemma SearchedOnward(check: Check, proofs: seq<PrefixProof>, lo: nat, hi: nat, t: Trail, x: nat)
    requires lo < hi && x == RootOf(lo, hi) && Searched(check, proofs, lo, hi, t).Ok?
    ensures Inspect(check, proofs, x, t).Ok?
    ensures var (t', o) := Inspect(check, proofs, x, t).value;
            var (lo', hi') := Next(o, x, lo, hi);
            Searched(check, proofs, lo', hi', t') == Searched(check, proofs, lo, hi, t)
  {
    var one := Inspect(check, proofs, x, t);
    if one.Ok? {
      var next := Next(one.value.1, x, lo, hi);
      SearchedStep(check, proofs, lo, hi, x, one.value.0, one.value.1, next.0, next.1);
    }
  }

  lemma SearchedStep(check: Check, proofs: seq<PrefixProof>, lo: nat, hi: nat, x: nat, t': Trail, o: Ordering,
                     lo': nat, hi': nat)
    requires lo <= x < hi && GoesOn(o, x, lo, hi, lo', hi')
    ensures Onward(check, proofs, lo, hi, x, Ok((t', o))) == Searched(check, proofs, lo', hi', t')
  {}

  /** A search only adds to what is inspected. */
  lemma {:induction false} SearchedAdds(check: Check, proofs: seq<PrefixProof>, lo: nat, hi: nat, t: Trail)
    requires Searched(check, proofs, lo, hi, t).Ok?
    ensures t.inspected <= Searched(check, proofs, lo, hi, t).value.inspected
    decreases hi - lo
  {
    if lo < hi {
      var x := RootOf(lo, hi);
      SearchedOnward(check, proofs, lo, hi, t, x);
      InspectKeeps(check, proofs, x, t);
      var (t', o) := Inspect(check, proofs, x, t).value;
      SearchedAdds(check, proofs, Next(o, x, lo, hi).0, Next(o, x, lo, hi).1, t');
    }
  }

  // ---- its timestamps ----

  /** The entries inspected. */
  function EntriesIn(inspected: seq<(nat, Ordering)>): (xs: seq<nat>)
    ensures |xs| == |inspected| && forall i :: 0 <= i < |xs| ==> xs[i] == inspected[i].0
  {
    seq(|inspected|, i requires 0 <= i < |inspected| => inspected[i].0)
  }

  /** The timestamps that a search asks for: the last entry's, then those of the entries inspected. */
  function DatesAsked(n: nat, t: Trail): (xs: seq<nat>)
    requires n > 0
  {
    [n - 1] + EntriesIn(t.inspected)
  }

  /** The reader has the timestamps of these entries, asked for in order from a mark on. */
  ghost predicate HasDates(proof: CombinedTreeProof, m: Mark, xs: seq<nat>, tsIdx: nat, stamps: Stamps) {
    var dates := StampedAll(proof, m, xs, |xs|);
    dates.Ok? && dates.value.tsIdx == tsIdx && dates.value.stamps == stamps
  }

  /** The whole search with its timestamps: there is no answer if one of those is refused. */
  ghost function FixedRead(proof: CombinedTreeProof, c: LadderProofs.Claim, n: nat, m: Mark): (r: Result<(nat, Trail)>)
    requires n > 0
  {
    var answer :- FixedAnswer(c, proof.prefixProofs, n, m.proofIdx);
    var xs := DatesAsked(n, answer.1);
    if StampedAll(proof, m, xs, |xs|).Ok? then Ok(answer) else Err
  }

  /** A search that comes to nothing, or to entries of which a timestamp is refused. */
  ghost predicate NoAnswer(proof: CombinedTreeProof, m: Mark, n: nat, searched: Result<Trail>)
    requires n > 0
  {
    searched.Ok? ==> StampedAll(proof, m, DatesAsked(n, searched.value), |DatesAsked(n, searched.value)|).Err?
  }

  lemma {:induction false} StampedAllOf(proof: CombinedTreeProof, m: Mark, xs: seq<nat>, ys: seq<nat>, i: nat)
    requires i <= |xs| && xs <= ys
    ensures StampedAll(proof, m, ys, i) == StampedAll(proof, m, xs, i)
    decreases i
  {
    if i > 0 { StampedAllOf(proof, m, xs, ys, i - 1); }
  }

  /** One more timestamp, read by a reader with the same timestamps. */
  lemma {:induction false} DatesNext(proof: CombinedTreeProof, m: Mark, xs: seq<nat>, before: Mark, x: nat, after: Mark)
    requires HasDates(proof, m, xs, before.tsIdx, before.stamps) && Stamped(proof, before, x) == Ok(after)
    ensures HasDates(proof, m, xs + [x], after.tsIdx, after.stamps)
  {
    StampedAllOf(proof, m, xs, xs + [x], |xs|);
  }

  /** A timestamp that is refused makes the whole list fail. */
  lemma {:induction false} DatesEnd(proof: CombinedTreeProof, m: Mark, xs: seq<nat>, before: Mark, x: nat,
                                    all: seq<nat>)
    requires HasDates(proof, m, xs, before.tsIdx, before.stamps) && Stamped(proof, before, x).Err?
    requires xs + [x] <= all
    ensures StampedAll(proof, m, all, |all|).Err?
  {
    StampedAllOf(proof, m, xs, all, |xs|);
    assert all[|xs|] == (xs + [x])[|xs|];
    StampedAllFails(proof, m, all, |xs| + 1, |all|);
  }

  /** So a search whose next timestamp is refused has no answer. */
  lemma {:induction false} RefusedAt(proof: CombinedTreeProof, m: Mark, check: Check, n: nat, lo: nat, hi: nat,
                                     t: Trail, before: Mark)
    requires n > 0 && lo < hi && HasDates(proof, m, DatesAsked(n, t), before.tsIdx, before.stamps)
    requires Stamped(proof, before, RootOf(lo, hi)).Err?
    ensures NoAnswer(proof, m, n, Searched(check, proof.prefixProofs, lo, hi, t))
  {
    var searched := Searched(check, proof.prefixProofs, lo, hi, t);
    if searched.Ok? {
      var x := RootOf(lo, hi);
      SearchedOnward(check, proof.prefixProofs, lo, hi, t, x);
      InspectKeeps(check, proof.prefixProofs, x, t);
      var (t', o) := Inspect(check, proof.prefixProofs, x, t).value;
      SearchedAdds(check, proof.prefixProofs, Next(o, x, lo, hi).0, Next(o, x, lo, hi).1, t');
      MoreAsked(n, t, x, o, searched.value);
      DatesEnd(proof, m, DatesAsked(n, t), before, x, DatesAsked(n, searched.value));
    }
  }

  lemma {:induction false} MoreAsked(n: nat, t: Trail, x: nat, o: Ordering, t': Trail)
    requires n > 0 && t.inspected + [(x, o)] <= t'.inspected
    ensures DatesAsked(n, t) + [x] <= DatesAsked(n, t')
  {
    var more := t.inspected + [(x, o)];
    assert forall i :: 0 <= i < |t.inspected| ==> more[i] == t.inspected[i];
    assert more[|t.inspected|] == (x, o);
  }

  // ---- the client's code ----

  method VerifySingleLookup(c: LadderProofs.Claim, proof: PrefixProof) returns (r: Result<(Digest, bool)>)
    ensures r == SingleLookup(c, proof)
  {
    if |proof.results| != 1 {
      return Err;
    }
    var inclusion := proof.results[0].resultType == INCLUSION;
    if c.steps(c.target).None? {
      return Err;
    }
    var commitment := if inclusion then Some(c.commitment) else None;
    var derived := ComputeRootFromResult(proof, 0, c.index(c.target), commitment, 0);
    if derived.Err? || derived.value.1 != |proof.elements| {
      return Err;
    }
    return Ok((derived.value.0, inclusion));
  }

  /** The next proof of the queue, checked for one entry. */
  method InspectNext(reader: ProofReader, c: LadderProofs.Claim, x: nat, t: Trail, n: nat)
    returns (r: Result<(Trail, Ordering)>)
    requires ReadSome(reader, n) && c.target <= MAX_VERSION && t.idx == reader.proofIdx
    modifies reader`proofIdx, reader`trace
    ensures ReadSome(reader, n) && r == Inspect(LadderCheck(c), reader.proof.prefixProofs, x, t)
    ensures r.Ok? ==> r.value.0.idx == reader.proofIdx && r.value.0.roots.Keys == t.roots.Keys + {x}
    ensures r.Ok? ==> r.value.0.inspected == t.inspected + [(x, r.value.1)]
  {
    var pp := reader.NextProof(x);
    if pp.Err? {
      return Err;
    }
    var ladder := VerifyLadderProof(c, pp.value, false);
    if ladder.Err? {
      return Err;
    }
    var roots := Record(t.roots, x, Some(ladder.value.0));
    if roots.Err? {
      return Err;
    }
    return Ok((Trail(t.inspected + [(x, ladder.value.1)], roots.value, t.idx + 1), ladder.value.1));
  }

  /** The entries inspected have timestamps, and so have those with roots. */
  ghost predicate Dated(t: Trail, stamps: Stamps) {
    && (forall x :: x in t.roots ==> x in stamps)
    && forall i :: 0 <= i < |t.inspected| ==> t.inspected[i].0 in stamps
  }

  lemma {:induction false} LeastInspectedIn(inspected: seq<(nat, Ordering)>, stamps: Stamps)
    requires forall i :: 0 <= i < |inspected| ==> inspected[i].0 in stamps
    ensures LeastOf(inspected).Some? ==> LeastOf(inspected).value in stamps
    decreases |inspected|
  {
    if inspected != [] { LeastInspectedIn(inspected[1..], stamps); }
  }

  /** One round: the entry's timestamp, its ladder and the entry to go on to. */
  method SearchRound(reader: ProofReader, c: LadderProofs.Claim, curr: nat, t: Trail, n: nat, ghost m: Mark,
                     ghost lo: nat, ghost hi: nat)
    returns (r: Result<(Trail, Option<nat>)>, ghost lo': nat, ghost hi': nat)
    requires ReadSome(reader, n) && n > 0 && c.target <= MAX_VERSION && t.idx == reader.proofIdx
    requires lo < hi <= n && IsSubtree(n, lo, hi) && curr == RootOf(lo, hi) && Dated(t, reader.stamps)
    requires HasDates(reader.proof, m, DatesAsked(n, t), reader.tsIdx, reader.stamps)
    modifies reader
    ensures ReadSome(reader, n) && (r.Ok? ==> Kept(old(reader.stamps), reader.stamps))
    ensures hi' <= n && hi' - lo' < hi - lo
    ensures r.Ok? ==> r.value.0.idx == reader.proofIdx && Dated(r.value.0, reader.stamps)
    ensures r.Ok? ==> HasDates(reader.proof, m, DatesAsked(n, r.value.0), reader.tsIdx, reader.stamps)
    ensures r.Ok? ==> IsChild(r.value.1, n, lo', hi') && (Ended(r.value.0) ==> lo' >= hi')
    ensures var searched := Searched(LadderCheck(c), reader.proof.prefixProofs, lo, hi, t);
            if r.Ok? then searched == Searched(LadderCheck(c), reader.proof.prefixProofs, lo', hi', r.value.0)
            else NoAnswer(reader.proof, m, n, searched)
  {
    lo', hi' := lo, lo;
    ghost var before := MarkOf(reader);
    var ts := ReadStamp(reader, curr, n);
    if ts.Err? {
      RefusedAt(reader.proof, m, LadderCheck(c), n, lo, hi, t, before);
      return Err, lo, lo;
    }
    DatesNext(reader.proof, m, DatesAsked(n, t), before, curr, MarkOf(reader));
    var one := InspectNext(reader, c, curr, t, n);
    if one.Err? {
      return Err, lo, lo;
    }
    var next;
    next, lo', hi' := NextEntry(one.value.1, curr, n, lo, hi);
    SearchedStep(LadderCheck(c), reader.proof.prefixProofs, lo, hi, curr, one.value.0, one.value.1, lo', hi');
    AskedNext(n, t, curr, one.value.1, one.value.0);
    r := Ok((one.value.0, next));
  }

  lemma {:induction false} AskedNext(n: nat, t: Trail, x: nat, o: Ordering, t': Trail)
    requires n > 0 && t'.inspected == t.inspected + [(x, o)]
    ensures DatesAsked(n, t') == DatesAsked(n, t) + [x]
  {}

  /** Timestamps once read stay. */
  ghost predicate Kept(before: Stamps, after: Stamps) {
    forall x :: x in before ==> x in after
  }

  /** The last entry inspected is equal. */
  predicate Ended(t: Trail) {
    t.inspected != [] && t.inspected[|t.inspected| - 1].1 == Equal
  }

  /** The end of a search without an equal entry: the target is looked up at the least greater one. */
  method LookUpTarget(reader: ProofReader, c: LadderProofs.Claim, t: Trail, n: nat) returns (r: Result<(nat, Trail)>)
    requires ReadSome(reader, n) && t.idx == reader.proofIdx && !Ended(t) && Dated(t, reader.stamps)
    modifies reader`proofIdx, reader`trace
    ensures r.Ok? ==> Dated(r.value.1, reader.stamps)
    ensures ReadSome(reader, n) && r == Concluded(c, reader.proof.prefixProofs, t)
    ensures r.Ok? ==> r.value.1.idx == reader.proofIdx
  {
    var identified := LeastInspected(t.inspected);
    LeastInspectedIn(t.inspected, reader.stamps);
    if identified.None? {
      return Err;
    }
    var pp := reader.NextProof(identified.value);
    if pp.Err? {
      return Err;
    }
    var lookup := VerifySingleLookup(c, pp.value);
    if lookup.Err? {
      return Err;
    }
    var roots := Record(t.roots, identified.value, Some(lookup.value.0));
    if roots.Err? || !lookup.value.1 {
      return Err;
    }
    return Ok((identified.value, Trail(t.inspected, roots.value, t.idx + 1)));
  }

  /** The loop of `simulate_fixed_search`. */
  method SearchLoop(reader: ProofReader, c: LadderProofs.Claim, n: nat, ghost m: Mark) returns (r: Result<Trail>)
    requires ReadSome(reader, n) && n > 0 && c.target <= MAX_VERSION
    requires HasDates(reader.proof, m, [n - 1], reader.tsIdx, reader.stamps)
    modifies reader
    ensures ReadSome(reader, n) && (r.Ok? ==> Kept(old(reader.stamps), reader.stamps))
    ensures r.Ok? ==> r.value.idx == reader.proofIdx && Dated(r.value, reader.stamps)
    ensures r.Ok? ==> HasDates(reader.proof, m, DatesAsked(n, r.value), reader.tsIdx, reader.stamps)
    ensures var searched :=
              Searched(LadderCheck(c), reader.proof.prefixProofs, 0, n, Trail([], map[], old(reader.proofIdx)));
            if r.Ok? then r == searched else NoAnswer(reader.proof, m, n, searched)
  {
    WholeTree(n);
    var next := Some(IbstRoot(n));
    var t := Trail([], map[], reader.proofIdx);
    ghost var lo: nat, hi: nat := 0, n;
    assert DatesAsked(n, t) == [n - 1];
    while next.Some? && !Ended(t)
      invariant ReadSome(reader, n) && hi <= n && IsChild(next, n, lo, hi) && t.idx == reader.proofIdx
      invariant Searched(LadderCheck(c), reader.proof.prefixProofs, lo, hi, t) ==
                Searched(LadderCheck(c), reader.proof.prefixProofs, 0, n, Trail([], map[], old(reader.proofIdx)))
      invariant (Ended(t) ==> lo >= hi) && Dated(t, reader.stamps) && Kept(old(reader.stamps), reader.stamps)
      invariant HasDates(reader.proof, m, DatesAsked(n, t), reader.tsIdx, reader.stamps)
      decreases hi - lo
    {
      var round;
      round, lo, hi := SearchRound(reader, c, next.value, t, n, m, lo, hi);
      if round.Err? {
        return Err;
      }
      t, next := round.value.0, round.value.1;
    }
    return Ok(t);
  }

  /** Without an answer of the loop there is none of the search. */
  lemma {:induction false} LoopFails(proof: CombinedTreeProof, c: LadderProofs.Claim, n: nat, m: Mark)
    requires n > 0
    requires NoAnswer(proof, m, n, Searched(LadderCheck(c), proof.prefixProofs, 0, n, Trail([], map[], m.proofIdx)))
    ensures FixedRead(proof, c, n, m) == Err
  {}

  /** With one, it is what the search concludes from it. */
  lemma {:induction false} LoopConcludes(proof: CombinedTreeProof, c: LadderProofs.Claim, n: nat, m: Mark, t: Trail,
                                         tsIdx: nat, stamps: Stamps)
    requires n > 0 && HasDates(proof, m, DatesAsked(n, t), tsIdx, stamps)
    requires Searched(LadderCheck(c), proof.prefixProofs, 0, n, Trail([], map[], m.proofIdx)) == Ok(t)
    ensures FixedRead(proof, c, n, m) == Concluded(c, proof.prefixProofs, t)
    ensures FixedRead(proof, c, n, m).Ok? ==>
              HasDates(proof, m, DatesAsked(n, FixedRead(proof, c, n, m).value.1), tsIdx, stamps)
  {}

  lemma {:induction false} FirstRefused(proof: CombinedTreeProof, c: LadderProofs.Claim, n: nat, m: Mark)
    requires n > 0 && Stamped(proof, m, n - 1).Err?
    ensures FixedRead(proof, c, n, m) == Err
  {
    var answer := FixedAnswer(c, proof.prefixProofs, n, m.proofIdx);
    if answer.Ok? {
      var none: seq<nat> := [];
      assert none + [n - 1] <= DatesAsked(n, answer.value.1);
      DatesEnd(proof, m, none, m, n - 1, DatesAsked(n, answer.value.1));
    }
  }

  lemma {:induction false} FirstRead(proof: CombinedTreeProof, n: nat, m: Mark, after: Mark)
    requires n > 0 && Stamped(proof, m, n - 1) == Ok(after)
    ensures HasDates(proof, m, [n - 1], after.tsIdx, after.stamps)
  {
    var none: seq<nat> := [];
    DatesNext(proof, m, none, m, n - 1, after);
    assert none + [n - 1] == [n - 1];
  }

  /** `simulate_fixed_search`: an error comes of the proofs, or of a timestamp that is refused. */
  method ReplayFixedSearch(reader: ProofReader, c: LadderProofs.Claim, n: nat) returns (r: Result<(nat, Trail)>)
    requires ReadSome(reader, n) && n > 0 && c.target <= MAX_VERSION
    modifies reader
    ensures ReadSome(reader, n) && r == FixedRead(reader.proof, c, n, old(MarkOf(reader)))
    ensures r.Ok? ==> r.value.1.idx == reader.proofIdx && Dated(r.value.1, reader.stamps)
    ensures r.Ok? ==>
              HasDates(reader.proof, old(MarkOf(reader)), DatesAsked(n, r.value.1), reader.tsIdx, reader.stamps)
    ensures r.Ok? ==> Kept(old(reader.stamps), reader.stamps)
  {
    ghost var m := MarkOf(reader);
    var rightmost := ReadStamp(reader, n - 1, n);
    if rightmost.Err? {
      FirstRefused(reader.proof, c, n, m);
      return Err;
    }
    FirstRead(reader.proof, n, m, MarkOf(reader));
    var t := SearchLoop(reader, c, n, m);
    if t.Err? {
      LoopFails(reader.proof, c, n, m);
      return Err;
    }
    LoopConcludes(reader.proof, c, n, m, t.value, reader.tsIdx, reader.stamps);
    if Ended(t.value) {
      return Ok((t.value.inspected[|t.value.inspected| - 1].0, t.value));
    }
    r := LookUpTarget(reader, c, t.value, n);
  }
}
