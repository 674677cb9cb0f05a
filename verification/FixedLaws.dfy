/** What an accepted fixed-version search shows of the log's maps, and that an honest one is accepted. */
module FixedLaws {
  import opened Digests
  import opened SparseTree
  import opened PrefixProofs
  import opened PrefixVerifier
  import TransitionAssembly
  import opened Ibst
  import opened BinaryLadder
  import opened LadderDecode
  import opened FixedSearch
  import opened LadderProofs
  import opened LadderServer
  import opened ProofReader
  import opened FixedReplay

  /** The map of each log entry holds the versions up to the label's greatest one there. */
  ghost predicate Entries(c: LadderProofs.Claim, maps: seq<Contents>, greatest: Versions) {
    |maps| == |greatest| && forall x :: 0 <= x < |maps| ==> EntryHolds(c, maps[x], greatest[x])
  }

  ghost predicate EntryHolds(c: LadderProofs.Claim, m: Contents, g: Option<nat>) {
    HoldsUpTo(c, m, g) && (g.Some? ==> g.value <= MAX_VERSION)
  }

  /** The roots are those of the entries' maps. */
  ghost predicate RootsOfMaps(maps: seq<Contents>, roots: EntryRoots) {
    forall x :: x in roots ==> x < |maps| && roots[x] == Root(maps[x])
  }

  /** The target is held there, with the claimed commitment. */
  ghost predicate Held(c: LadderProofs.Claim, m: Contents) {
    c.index(c.target) in m && m[c.index(c.target)] == c.commitment
  }

  // ---- searches whose inspections are true ----

  /** A check that gives the root of an entry's map gives the entry's relation, and an equal one is held. */
  ghost predicate SoundAt(check: Check, m: Contents, o: Ordering, held: bool, p: PrefixProof) {
    check(p).Ok? && check(p).value.0 == Root(m) ==> check(p).value.1 == o && (o == Equal ==> held)
  }

  ghost predicate Sound(check: Check, maps: seq<Contents>, rel: seq<Ordering>, held: seq<bool>) {
    && |maps| == |rel| == |held|
    && forall x: nat, p: PrefixProof :: x < |maps| ==> SoundAt(check, maps[x], rel[x], held[x], p)
  }

  lemma {:induction false} SearchedKeeps(check: Check, proofs: seq<PrefixProof>, lo: nat, hi: nat, t: Trail)
    requires Searched(check, proofs, lo, hi, t).Ok?
    ensures Within(t.roots, Searched(check, proofs, lo, hi, t).value.roots)
    decreases hi - lo
  {
    if lo < hi {
      var x := RootOf(lo, hi);
      SearchedOnward(check, proofs, lo, hi, t, x);
      InspectKeeps(check, proofs, x, t);
      var (t', o) := Inspect(check, proofs, x, t).value;
      SearchedKeeps(check, proofs, Next(o, x, lo, hi).0, Next(o, x, lo, hi).1, t');
    }
  }

  /** Where an equal entry was met, the target is held. */
  ghost predicate EqualsHeld(held: seq<bool>, inspected: seq<(nat, Ordering)>) {
    forall i :: 0 <= i < |inspected| && inspected[i].1 == Equal ==> inspected[i].0 < |held| && held[inspected[i].0]
  }

  /** The entries inspected from one trail to another are those of the search path, with these relations. */
  ghost predicate FollowsPath(held: seq<bool>, rel: seq<Ordering>, lo: nat, hi: nat, t: Trail, t': Trail) {
    && hi <= |rel| && t'.inspected == t.inspected + Inspected(rel, PathTo(rel, lo, hi))
    && EqualsHeld(held, t'.inspected)
  }

  /**
   * A search whose roots are those of the entries' maps inspects the entries of the search path, with their
   * own relations.
   */
  lemma {:induction false} SearchedIsTrue(check: Check, proofs: seq<PrefixProof>, maps: seq<Contents>,
                                          rel: seq<Ordering>, held: seq<bool>, lo: nat, hi: nat, t: Trail)
    requires Sound(check, maps, rel, held) && hi <= |maps| && EqualsHeld(held, t.inspected)
    requires Searched(check, proofs, lo, hi, t).Ok?
    requires RootsOfMaps(maps, Searched(check, proofs, lo, hi, t).value.roots)
    ensures FollowsPath(held, rel, lo, hi, t, Searched(check, proofs, lo, hi, t).value)
    decreases hi - lo
  {
    if lo < hi {
      var x := RootOf(lo, hi);
      SearchedOnward(check, proofs, lo, hi, t, x);
      InspectKeeps(check, proofs, x, t);
      var (t', o) := Inspect(check, proofs, x, t).value;
      var (lo', hi') := Next(o, x, lo, hi);
      SearchedKeeps(check, proofs, lo', hi', t');
      assert SoundAt(check, maps[x], rel[x], held[x], proofs[t.idx]);
      SearchedIsTrue(check, proofs, maps, rel, held, lo', hi', t');
      MoreOfPath(held, rel, lo, hi, t, t', Searched(check, proofs, lo, hi, t).value, x, lo', hi');
    }
  }

  lemma MoreOfPath(held: seq<bool>, rel: seq<Ordering>, lo: nat, hi: nat, t: Trail, mid: Trail, t': Trail, x: nat,
                   lo': nat, hi': nat)
    requires lo < hi <= |rel| && x == RootOf(lo, hi) && GoesOn(rel[x], x, lo, hi, lo', hi')
    requires mid.inspected == t.inspected + [(x, rel[x])] && FollowsPath(held, rel, lo', hi', mid, t')
    ensures FollowsPath(held, rel, lo, hi, t, t')
  {
    var path, rest := PathTo(rel, lo, hi), PathTo(rel, lo', hi');
    PathHead(rel, lo, hi, x, lo', hi', path, rest);
    InspectedFirst(rel, x, rest, t.inspected);
  }

  lemma InspectedFirst(rel: seq<Ordering>, x: nat, rest: seq<nat>, before: seq<(nat, Ordering)>)
    requires x < |rel| && forall i :: 0 <= i < |rest| ==> rest[i] < |rel|
    ensures forall i :: 0 <= i < |rest| + 1 ==> ([x] + rest)[i] < |rel|
    ensures before + Inspected(rel, [x] + rest) == before + [(x, rel[x])] + Inspected(rel, rest)
  {
    assert Inspected(rel, [x] + rest) == [(x, rel[x])] + Inspected(rel, rest);
  }

  // ---- whatever the proofs ----

  /** Where the target is held with the claimed commitment. */
  ghost function HeldAt(c: LadderProofs.Claim, maps: seq<Contents>): (held: seq<bool>)
    ensures |held| == |maps| && forall x :: 0 <= x < |maps| ==> held[x] == Held(c, maps[x])
  {
    seq(|maps|, x requires 0 <= x < |maps| => Held(c, maps[x]))
  }

  /** The ladder check is sound for the entries' maps. */
  lemma LaddersAreSound(c: LadderProofs.Claim, maps: seq<Contents>, greatest: Versions)
    requires !c.greatest && c.target <= MAX_VERSION && Entries(c, maps, greatest)
    ensures Sound(LadderCheck(c), maps, Relations(greatest, c.target), HeldAt(c, maps))
  {
    forall x: nat, p: PrefixProof | x < |maps|
      ensures SoundAt(LadderCheck(c), maps[x], Relations(greatest, c.target)[x], HeldAt(c, maps)[x], p)
    {
      assert EntryHolds(c, maps[x], greatest[x]);
      if CheckedLadder(c, p, false).Ok? && CheckedLadder(c, p, false).value.0 == Root(maps[x]) {
        AcceptedRelationIsTrue(c, p, false, maps[x], greatest[x]);
      }
    }
  }

  /** A lookup whose root is that of a map is true of it. */
  lemma LookupIsTrue(c: LadderProofs.Claim, proof: PrefixProof, m: Contents)
    requires SingleLookup(c, proof).Ok? && SingleLookup(c, proof).value.0 == Root(m)
    ensures if SingleLookup(c, proof).value.1 then Held(c, m) else c.index(c.target) !in m
  {
    var inclusion := proof.results[0].resultType == INCLUSION;
    AcceptedProofIsTrue(m, c.index(c.target), if inclusion then Some(c.commitment) else None, proof, 0, 0);
  }

  /** The end of a search: at the terminal of the path, where the target is held. */
  lemma ConcludedIsTrue(c: LadderProofs.Claim, proofs: seq<PrefixProof>, maps: seq<Contents>, rel: seq<Ordering>,
                        path: seq<nat>, t: Trail)
    requires |rel| == |maps| && forall i :: 0 <= i < |path| ==> path[i] < |rel|
    requires t.inspected == Inspected(rel, path) && EqualsHeld(HeldAt(c, maps), t.inspected)
    requires Concluded(c, proofs, t).Ok? && RootsOfMaps(maps, Concluded(c, proofs, t).value.1.roots)
    ensures var x := Concluded(c, proofs, t).value.0;
            Terminal(rel, path) == Some(x) && x < |maps| && Held(c, maps[x])
  {
    LeastOfPath(rel, path);
    if !Ended(t) { LookupIsTrue(c, proofs[t.idx], maps[Concluded(c, proofs, t).value.0]); }
  }

  lemma ConcludedKeeps(c: LadderProofs.Claim, proofs: seq<PrefixProof>, t: Trail)
    requires Concluded(c, proofs, t).Ok?
    ensures Within(t.roots, Concluded(c, proofs, t).value.1.roots)
  {}

  /**
   * Whatever the proofs: a search that is accepted, with roots that are those of the log's maps, has ended
   * at the terminal entry of the search path, and the map there holds the target with the claimed commitment.
   */
  lemma AcceptedFixedSearch(c: LadderProofs.Claim, proofs: seq<PrefixProof>, maps: seq<Contents>, greatest: Versions,
                            n: nat, idx: nat)
    requires !c.greatest && c.target <= MAX_VERSION && Entries(c, maps, greatest) && n == |maps|
    requires FixedAnswer(c, proofs, n, idx).Ok? && RootsOfMaps(maps, FixedAnswer(c, proofs, n, idx).value.1.roots)
    ensures var x := FixedAnswer(c, proofs, n, idx).value.0;
            var rel := Relations(greatest, c.target);
            Terminal(rel, PathTo(rel, 0, n)) == Some(x) && x < n && Held(c, maps[x])
  {
    var rel, t := Relations(greatest, c.target), Searched(LadderCheck(c), proofs, 0, n, Trail([], map[], idx)).value;
    ConcludedKeeps(c, proofs, t);
    LaddersAreSound(c, maps, greatest);
    SearchedIsTrue(LadderCheck(c), proofs, maps, rel, HeldAt(c, maps), 0, n, Trail([], map[], idx));
    assert t.inspected == Inspected(rel, PathTo(rel, 0, n));
    ConcludedIsTrue(c, proofs, maps, rel, PathTo(rel, 0, n), t);
  }

  // ---- honest proofs ----

  /** The server's ladder for an entry with this map and greatest version. */
  ghost predicate HonestEntry(c: LadderProofs.Claim, m: Contents, g: Option<nat>, answers: seq<ProofResult>,
                              proof: PrefixProof) {
    HonestLadder(c.index, m, VersionsAt(g, c.target), answers, proof) && StepsFit(c, VersionsAt(g, c.target), answers)
  }

  /** The server's lookup of the target alone. */
  ghost predicate HonestLookup(c: LadderProofs.Claim, m: Contents, answers: seq<ProofResult>, proof: PrefixProof) {
    HonestLadder(c.index, m, [c.target], answers, proof) && StepsFit(c, [c.target], answers)
  }

  /** The proof passes for an entry with this map and relation. */
  ghost predicate Passes(check: Check, p: PrefixProof, m: Contents, o: Ordering) {
    check(p) == Ok((Root(m), o))
  }

  /** Each proof of the queue, from one place on, passes for an entry of the path. */
  ghost predicate PathPasses(check: Check, proofs: seq<PrefixProof>, maps: seq<Contents>, rel: seq<Ordering>,
                             path: seq<nat>, idx: nat) {
    && idx + |path| <= |proofs|
    && forall i :: 0 <= i < |path| ==>
         path[i] < |maps| == |rel| && Passes(check, proofs[idx + i], maps[path[i]], rel[path[i]])
  }

  /** What a search over proofs that pass comes to. */
  ghost predicate PathTaken(maps: seq<Contents>, rel: seq<Ordering>, path: seq<nat>, t: Trail, r: Result<Trail>)
    requires forall i :: 0 <= i < |path| ==> path[i] < |rel|
  {
    && r.Ok? && r.value.inspected == t.inspected + Inspected(rel, path) && r.value.idx == t.idx + |path|
    && RootsOfMaps(maps, r.value.roots) && forall x :: x in r.value.roots <==> x in t.roots || x in path
  }

  lemma PassedInspect(check: Check, proofs: seq<PrefixProof>, maps: seq<Contents>, o: Ordering, x: nat, t: Trail)
    requires t.idx < |proofs| && x < |maps| && Passes(check, proofs[t.idx], maps[x], o) && RootsOfMaps(maps, t.roots)
    ensures Inspect(check, proofs, x, t).Ok?
    ensures var (t', o') := Inspect(check, proofs, x, t).value;
            && o' == o && t'.idx == t.idx + 1 && RootsOfMaps(maps, t'.roots) && t'.roots.Keys == t.roots.Keys + {x}
            && t'.inspected == t.inspected + [(x, o)]
  {}

  lemma {:induction false} PassedSearched(check: Check, proofs: seq<PrefixProof>, maps: seq<Contents>,
                                          rel: seq<Ordering>, lo: nat, hi: nat, path: seq<nat>, t: Trail)
    requires hi <= |maps| == |rel| && RootsOfMaps(maps, t.roots) && path == PathTo(rel, lo, hi)
    requires PathPasses(check, proofs, maps, rel, path, t.idx)
    ensures PathTaken(maps, rel, path, t, Searched(check, proofs, lo, hi, t))
    decreases hi - lo
  {
    if lo < hi {
      var x := RootOf(lo, hi);
      var (lo', hi') := Next(rel[x], x, lo, hi);
      var rest := PathTo(rel, lo', hi');
      PathHead(rel, lo, hi, x, lo', hi', path, rest);
      PassesRest(check, proofs, maps, rel, path, rest, x, t.idx);
      PassedInspect(check, proofs, maps, rel[x], x, t);
      var t' := Inspect(check, proofs, x, t).value.0;
      PassedSearched(check, proofs, maps, rel, lo', hi', rest, t');
      SearchedStep(check, proofs, lo, hi, x, t', rel[x], lo', hi');
      PathTakenMore(maps, rel, x, rest, t, t', Searched(check, proofs, lo', hi', t'));
    }
  }

  lemma PassesRest(check: Check, proofs: seq<PrefixProof>, maps: seq<Contents>, rel: seq<Ordering>, path: seq<nat>,
                   rest: seq<nat>, x: nat, idx: nat)
    requires PathPasses(check, proofs, maps, rel, path, idx) && path == [x] + rest
    ensures idx < |proofs| && x < |maps| == |rel| && Passes(check, proofs[idx], maps[x], rel[x])
    ensures PathPasses(check, proofs, maps, rel, rest, idx + 1)
  {
    assert path[0] == x && proofs[idx + 0] == proofs[idx];
    forall i | 0 <= i < |rest|
      ensures rest[i] < |maps| == |rel| && Passes(check, proofs[idx + 1 + i], maps[rest[i]], rel[rest[i]])
    {
      assert path[i + 1] == rest[i] && proofs[idx + (i + 1)] == proofs[idx + 1 + i];
    }
  }

  lemma PathTakenMore(maps: seq<Contents>, rel: seq<Ordering>, x: nat, rest: seq<nat>, t: Trail, t': Trail,
                      r: Result<Trail>)
    requires x < |rel| && forall i :: 0 <= i < |rest| ==> rest[i] < |rel|
    requires t'.inspected == t.inspected + [(x, rel[x])] && t'.idx == t.idx + 1 && PathTaken(maps, rel, rest, t', r)
    requires t'.roots.Keys == t.roots.Keys + {x}
    ensures forall i :: 0 <= i < |rest| + 1 ==> ([x] + rest)[i] < |rel|
    ensures PathTaken(maps, rel, [x] + rest, t, r)
  {
    InspectedFirst(rel, x, rest, t.inspected);
  }

  lemma HonestLookupAccepted(c: LadderProofs.Claim, m: Contents, answers: seq<ProofResult>, proof: PrefixProof)
    requires HonestLookup(c, m, answers, proof)
    ensures SingleLookup(c, proof) == Ok((Root(m), c.index(c.target) in m))
  {
    HonestOne(c, m, [c.target], answers, proof, 0);
    assert FoldsTo(c, Root(m), answers, proof, LookupsIn(c, m, [c.target]), 0);
    assert StepFits(c, [c.target][0], answers[0].commitment);
    assert Answers(m, c.index([c.target][0]), answers[0]);
    OneElement(answers);
  }

  lemma OneElement(answers: seq<ProofResult>)
    requires |answers| == 1
    ensures TransitionAssembly.Elements(answers, 0) == []
    ensures TransitionAssembly.Elements(answers, 1) == answers[0].elements
  {
    assert TransitionAssembly.Elements(answers, 0) == [];
  }

  /** Each proof of the queue, from one place on, is the server's ladder for an entry of the path. */
  ghost predicate HonestLadders(c: LadderProofs.Claim, proofs: seq<PrefixProof>, maps: seq<Contents>,
                                greatest: Versions, path: seq<nat>, ladders: seq<seq<ProofResult>>, idx: nat)
    requires |maps| == |greatest| && forall i :: 0 <= i < |path| ==> path[i] < |maps|
  {
    && idx + |path| <= |proofs| && |ladders| == |path|
    && (forall i :: 0 <= i < |path| ==>
         HonestEntry(c, maps[path[i]], greatest[path[i]], ladders[i], proofs[idx + i]))
  }

  /** Where no entry of the path is equal, the next proof is the server's lookup of the target. */
  ghost predicate HonestEnd(c: LadderProofs.Claim, proofs: seq<PrefixProof>, maps: seq<Contents>, rel: seq<Ordering>,
                            path: seq<nat>, lookup: seq<ProofResult>, idx: nat)
    requires |rel| == |maps| && forall i :: 0 <= i < |path| ==> path[i] < |rel|
  {
    var least := LeastGreater(rel, path);
    EqualAt(rel, path).None? && least.Some? ==>
      least.value < |maps| && idx < |proofs| && HonestLookup(c, maps[least.value], lookup, proofs[idx])
  }

  /** There the next proof passes as a lookup of the target. */
  ghost predicate EndPasses(c: LadderProofs.Claim, proofs: seq<PrefixProof>, maps: seq<Contents>, rel: seq<Ordering>,
                            path: seq<nat>, idx: nat)
    requires |rel| == |maps| && forall i :: 0 <= i < |path| ==> path[i] < |rel|
  {
    var least := LeastGreater(rel, path);
    EqualAt(rel, path).None? && least.Some? ==>
      least.value < |maps| && idx < |proofs| &&
      SingleLookup(c, proofs[idx]) == Ok((Root(maps[least.value]), c.index(c.target) in maps[least.value]))
  }

  lemma HonestEndPasses(c: LadderProofs.Claim, proofs: seq<PrefixProof>, maps: seq<Contents>, rel: seq<Ordering>,
                        path: seq<nat>, lookup: seq<ProofResult>, idx: nat)
    requires |rel| == |maps| && (forall i :: 0 <= i < |path| ==> path[i] < |rel|)
    requires HonestEnd(c, proofs, maps, rel, path, lookup, idx)
    ensures EndPasses(c, proofs, maps, rel, path, idx)
  {
    var least := LeastGreater(rel, path);
    if EqualAt(rel, path).None? && least.Some? { HonestLookupAccepted(c, maps[least.value], lookup, proofs[idx]); }
  }

  lemma HonestPasses(c: LadderProofs.Claim, proofs: seq<PrefixProof>, maps: seq<Contents>, greatest: Versions,
                     rel: seq<Ordering>, path: seq<nat>, ladders: seq<seq<ProofResult>>, idx: nat)
    requires !c.greatest && c.target <= MAX_VERSION && Entries(c, maps, greatest)
    requires rel == Relations(greatest, c.target) && forall i :: 0 <= i < |path| ==> path[i] < |maps|
    requires HonestLadders(c, proofs, maps, greatest, path, ladders, idx)
    ensures PathPasses(LadderCheck(c), proofs, maps, rel, path, idx)
  {
    forall i | 0 <= i < |path|
      ensures Passes(LadderCheck(c), proofs[idx + i], maps[path[i]], rel[path[i]])
    {
      HonestEntryAccepted(c, maps[path[i]], greatest[path[i]], ladders[i], proofs[idx + i]);
    }
  }

  lemma HonestEntryAccepted(c: LadderProofs.Claim, m: Contents, g: Option<nat>, answers: seq<ProofResult>,
                            proof: PrefixProof)
    requires !c.greatest && c.target <= MAX_VERSION && EntryHolds(c, m, g) && HonestEntry(c, m, g, answers, proof)
    ensures Passes(LadderCheck(c), proof, m, RelationAt(g, c.target))
  {
    HonestLadderAccepted(c, m, g, answers, proof, false);
  }

  /**
   * The search ends at the terminal of the path, with the roots of the entries' maps and the path's proofs taken, and
   * one more where no entry is equal; or fails for want of a terminal.
   */
  ghost predicate EndsAtTerminal(maps: seq<Contents>, rel: seq<Ordering>, path: seq<nat>, idx: nat,
                                 r: Result<(nat, Trail)>)
    requires forall i :: 0 <= i < |path| ==> path[i] < |rel|
  {
    if Terminal(rel, path).Some?
    then
      && r.Ok? && r.value.0 == Terminal(rel, path).value && RootsOfMaps(maps, r.value.1.roots)
      && (forall x :: x in r.value.1.roots <==> x in path) && r.value.1.inspected == Inspected(rel, path)
      && r.value.1.idx == idx + |path| + if EqualAt(rel, path).Some? then 0 else 1
    else r.Err?
  }

  /**
   * Proofs that pass, as the server's ladders of the path and its lookup do, are accepted with the roots of the
   * entries' maps exactly when the search has a terminal, and the client ends there.
   */
  lemma PassedFixedSearch(c: LadderProofs.Claim, proofs: seq<PrefixProof>, maps: seq<Contents>, greatest: Versions,
                          rel: seq<Ordering>, path: seq<nat>, idx: nat, end: nat)
    requires Entries(c, maps, greatest) && rel == Relations(greatest, c.target)
    requires path == PathTo(rel, 0, |rel|) && end == idx + |path|
    requires PathPasses(LadderCheck(c), proofs, maps, rel, path, idx) && EndPasses(c, proofs, maps, rel, path, end)
    ensures EndsAtTerminal(maps, rel, path, idx, FixedAnswer(c, proofs, |rel|, idx))
  {
    var t := PassedTrail(LadderCheck(c), proofs, maps, rel, |rel|, path, idx);
    PassedConcluded(c, proofs, maps, greatest, rel, path, t, idx, end);
  }

  lemma PassedTrail(check: Check, proofs: seq<PrefixProof>, maps: seq<Contents>, rel: seq<Ordering>, n: nat,
                    path: seq<nat>, idx: nat)
    returns (t: Trail)
    requires n == |maps| == |rel| && path == PathTo(rel, 0, n) && PathPasses(check, proofs, maps, rel, path, idx)
    ensures Searched(check, proofs, 0, n, Trail([], map[], idx)) == Ok(t)
    ensures t.inspected == Inspected(rel, path) && t.idx == idx + |path| && RootsOfMaps(maps, t.roots)
    ensures forall x :: x in t.roots <==> x in path
  {
    PassedSearched(check, proofs, maps, rel, 0, n, path, Trail([], map[], idx));
    t := Searched(check, proofs, 0, n, Trail([], map[], idx)).value;
  }

  /** At the end of an honest path the search has its terminal, where the target is held. */
  lemma PassedConcluded(c: LadderProofs.Claim, proofs: seq<PrefixProof>, maps: seq<Contents>, greatest: Versions,
                        rel: seq<Ordering>, path: seq<nat>, t: Trail, idx: nat, end: nat)
    requires Entries(c, maps, greatest) && rel == Relations(greatest, c.target)
    requires (forall i :: 0 <= i < |path| ==> path[i] < |rel|) && t.inspected == Inspected(rel, path)
    requires RootsOfMaps(maps, t.roots) && (forall x :: x in t.roots <==> x in path)
    requires EndPasses(c, proofs, maps, rel, path, end) && t.idx == end == idx + |path|
    ensures EndsAtTerminal(maps, rel, path, idx, Concluded(c, proofs, t))
  {
    LeastOfPath(rel, path);
    LeastIsGreater(rel, path);
    if EqualAt(rel, path).None? && LeastGreater(rel, path).Some? {
      var x := LeastGreater(rel, path).value;
      assert EntryHolds(c, maps[x], greatest[x]);
    }
  }

  lemma {:induction false} LeastIsGreater(rel: seq<Ordering>, path: seq<nat>)
    requires forall i :: 0 <= i < |path| ==> path[i] < |rel|
    ensures LeastGreater(rel, path).Some? ==>
              LeastGreater(rel, path).value < |rel| && rel[LeastGreater(rel, path).value] == Greater
              && LeastGreater(rel, path).value in path
    decreases |path|
  {
    if path != [] { LeastIsGreater(rel, path[1..]); }
  }
}
