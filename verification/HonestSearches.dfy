/**
 * What the client reads from the session of an honest server, for the greatest version of a label and for one version
 * (src/tree/traversal.rs, src/client/core.rs).
 */
module HonestSearches {
  import opened Digests
  import opened SparseTree
  import opened PrefixProofs
  import opened StoredLog
  import opened Ibst
  import opened BinaryLadder
  import opened LadderDecode
  import opened FixedSearch
  import opened GreatestSearch
  import opened LadderServer
  import opened CombinedProof
  import opened ProofReader
  import opened ClientOperation
  import opened FixedReplay
  import opened FixedLaws
  import opened GreatestReplay
  import opened ClientSearch
  import opened SearchSessions
  import LadderProofs

  /** The honest answers behind the server's ladder for an entry and these versions. */
  type AnswersAt = (nat, seq<nat>) -> seq<ProofResult>

  /** The maps under the log's entries, the label's greatest version in each, and the ladders of their prefix trees. */
  datatype Service = Service(log: seq<Entry>, maps: seq<Contents>, greatest: Versions, proofAt: ProofAt,
                             answersAt: AnswersAt)

  /** A log whose timestamps do not fall, over maps with the label's versions, which do not fall either. */
  ghost predicate Honest(s: Service, c: LadderProofs.Claim) {
    && |s.log| == |s.maps| == |s.greatest| > 0 && RisingLog(s.log) && Rises(s.greatest)
    && (forall x :: 0 <= x < |s.log| ==> s.log[x].1 == Root(s.maps[x])) && Entries(c, s.maps, s.greatest)
    && Generates(s, c)
  }

  ghost predicate Generates(s: Service, c: LadderProofs.Claim) {
    forall x: nat, versions: seq<nat> :: x < |s.maps| ==>
      HonestLadder(c.index, s.maps[x], versions, s.answersAt(x, versions), s.proofAt(x, versions))
  }

  /** The steps sent fit the commitments found at a visit. */
  ghost predicate VisitFits(s: Service, c: LadderProofs.Claim, v: SearchVisit) {
    |v.versions| == |s.answersAt(v.pos, v.versions)| && StepsFit(c, v.versions, s.answersAt(v.pos, v.versions))
  }

  /** The ladders of a session, each with steps that fit, and their proofs in the queue. */
  ghost predicate InQueue(s: Service, c: LadderProofs.Claim, ladders: seq<SearchVisit>, proofs: seq<PrefixProof>) {
    && |proofs| == |ladders|
    && forall j :: 0 <= j < |ladders| ==>
         VisitFits(s, c, ladders[j]) && proofs[j] == s.proofAt(ladders[j].pos, ladders[j].versions)
  }

  /** The first ladders are those of a path. */
  ghost predicate Along(s: Service, target: nat, ladders: seq<SearchVisit>, path: seq<nat>) {
    && |path| <= |ladders| && |s.maps| == |s.greatest|
    && forall i :: 0 <= i < |path| ==> VisitedAt(s.greatest, target, path[i], ladders[i])
  }

  ghost function AnswersAlong(s: Service, ladders: seq<SearchVisit>, n: nat): (answers: seq<seq<ProofResult>>)
    requires n <= |ladders|
    ensures |answers| == n
    ensures forall i :: 0 <= i < n ==> answers[i] == s.answersAt(ladders[i].pos, ladders[i].versions)
  {
    seq(n, i requires 0 <= i < n => s.answersAt(ladders[i].pos, ladders[i].versions))
  }

  lemma {:induction false} AlongOne(s: Service, c: LadderProofs.Claim, v: SearchVisit, proof: PrefixProof, x: nat,
                                    answers: seq<ProofResult>)
    requires Generates(s, c) && |s.maps| == |s.greatest| && VisitedAt(s.greatest, c.target, x, v) && VisitFits(s, c, v)
    requires answers == s.answersAt(v.pos, v.versions) && proof == s.proofAt(v.pos, v.versions)
    ensures x < |s.maps| && HonestEntry(c, s.maps[x], s.greatest[x], answers, proof)
  {}

  /** So the queue starts with the server's ladders of the path. */
  lemma {:induction false} AlongHonest(s: Service, c: LadderProofs.Claim, ladders: seq<SearchVisit>,
                                       proofs: seq<PrefixProof>, path: seq<nat>, idx: nat)
    requires Honest(s, c) && InQueue(s, c, ladders, proofs) && Along(s, c.target, ladders, path) && idx == 0
    ensures forall i :: 0 <= i < |path| ==> path[i] < |s.maps|
    ensures HonestLadders(c, proofs, s.maps, s.greatest, path, AnswersAlong(s, ladders, |path|), idx)
  {
    var answers := AnswersAlong(s, ladders, |path|);
    forall i | 0 <= i < |path|
      ensures path[i] < |s.maps| && HonestEntry(c, s.maps[path[i]], s.greatest[path[i]], answers[i], proofs[idx + i])
    {
      assert proofs[idx + i] == proofs[i];
      AlongOne(s, c, ladders[i], proofs[i], path[i], answers[i]);
    }
  }

  lemma {:induction false} AlongEntries(s: Service, target: nat, ladders: seq<SearchVisit>, path: seq<nat>, k: nat)
    requires Along(s, target, ladders, path) && k <= |path|
    ensures forall x :: x in EntriesVisited(ladders, k) <==> x in path[..k]
    decreases k
  {
    if k > 0 {
      AlongEntries(s, target, ladders, path, k - 1);
      assert VisitedAt(s.greatest, target, path[k - 1], ladders[k - 1]);
      assert path[..k] == path[..k - 1] + [path[k - 1]];
    }
  }

  lemma {:induction false} AlongAll(s: Service, target: nat, ladders: seq<SearchVisit>, path: seq<nat>,
                                    roots: EntryRoots)
    requires Along(s, target, ladders, path) && forall x :: x in roots <==> x in path
    ensures roots.Keys == EntriesVisited(ladders, |path|)
  {
    AlongEntries(s, target, ladders, path, |path|);
    assert path[..|path|] == path;
  }

  // ---- the timestamps of the frontier ----

  /** A session of the server with its proof. */
  ghost predicate Session(s: Service, frontier: seq<nat>, ladders: seq<SearchVisit>, visits: seq<Visit>,
                          proof: CombinedTreeProof) {
    && |s.log| > 0 && frontier == FrontierOf(|s.log|) && visits == SessionOf(frontier, ladders, s.proofAt)
    && Serves(s.log, visits, proof)
  }

  /** The reader once the frontier's timestamps are read. */
  lemma {:induction false} FrontierTimed(s: Service, frontier: seq<nat>, ladders: seq<SearchVisit>,
                                         visits: seq<Visit>, proof: CombinedTreeProof, start: Mark, k: nat,
                                         x: nat, r: Result<Mark>)
    requires Session(s, frontier, ladders, visits, proof) && start == Mark(0, 0, map[], []) && k == 0
    requires |s.log| == x + 1 && r == StampedAll(proof, start, frontier, |frontier|)
    ensures TimedTo(s.log, visits, |frontier|, k, r) && x in r.value.stamps
  {
    NothingTimed(s.log, visits, start, k);
    TimedAll(s.log, visits, proof, k, start, frontier, |frontier|, r);
    SeenHas(visits, |frontier|, |frontier| - 1);
  }

  lemma {:induction false} NothingTimed(log: seq<Entry>, visits: seq<Visit>, start: Mark, k: nat)
    requires start == Mark(0, 0, map[], []) && k == 0
    ensures Timed(log, visits, k, start)
  {}

  // ---- the greatest version ----

  lemma {:induction false} GreatestSeen(frontier: seq<nat>, ladders: seq<SearchVisit>, proofAt: ProofAt,
                                        visits: seq<Visit>)
    requires visits == SessionOf(frontier, ladders, proofAt) && |ladders| == |frontier|
    requires forall j :: 0 <= j < |frontier| ==> ladders[j].pos == frontier[j]
    ensures Seen(visits, |visits|) == Seen(visits, |frontier|)
    ensures FirstSeen(visits, |visits|) == FirstSeen(visits, |frontier|)
  {
    forall j | |frontier| <= j < |visits|
      ensures visits[j].pos in Seen(visits, |frontier|)
    {
      SeenHas(visits, |frontier|, j - |frontier|);
    }
    SeenAgain(visits, |frontier|, |visits|);
  }

  /** The client's answer over the server's ladders. */
  lemma {:induction false} GreatestProofsRead(s: Service, c: LadderProofs.Claim, frontier: seq<nat>,
                                              ladders: seq<SearchVisit>, proofs: seq<PrefixProof>, idx: nat)
    requires Honest(s, c) && c.greatest && c.target <= MAX_VERSION && s.greatest[|s.maps| - 1] == Some(c.target)
    requires frontier == FrontierOf(|s.log|) && Along(s, c.target, ladders, frontier) && |ladders| == |frontier|
    requires InQueue(s, c, ladders, proofs) && idx == 0
    ensures var r := GreatestAnswer(c, proofs, frontier, idx);
            && r.Ok? && FirstGreatest(c, s.maps, s.greatest, r.value.0) && RootsOfMaps(s.maps, r.value.1)
            && r.value.1.Keys == EntriesVisited(ladders, |ladders|)
  {
    AlongHonest(s, c, ladders, proofs, frontier, idx);
    RisesAtMost(s.greatest, c.target);
    HonestFrontierPasses(c, proofs, s.maps, s.greatest, frontier, AnswersAlong(s, ladders, |frontier|), idx);
    PassedGreatestSearch(c, proofs, s.maps, s.greatest, |s.log|, idx, frontier);
    AlongAll(s, c.target, ladders, frontier, GreatestAnswer(c, proofs, frontier, idx).value.1);
  }

  /** A search has read a session: all its timestamps and all its ladders, with the roots of the entries' maps. */
  ghost predicate HasRead(s: Service, ladders: seq<SearchVisit>, visits: seq<Visit>, roots: EntryRoots, last: Mark) {
    && Timed(s.log, visits, |visits|, last) && last.proofIdx == |ladders|
    && roots.Keys == EntriesVisited(ladders, |ladders|) && RootsOfMaps(s.maps, roots)
  }

  /** Such a reading comes to its end. */
  lemma {:induction false} SessionEnds(s: Service, frontier: seq<nat>, ladders: seq<SearchVisit>,
                                       visits: seq<Visit>, proof: CombinedTreeProof, last: Mark, roots: EntryRoots)
    requires Session(s, frontier, ladders, visits, proof) && HasRead(s, ladders, visits, roots, last)
    requires |s.maps| == |s.log| && forall x :: 0 <= x < |s.log| ==> s.log[x].1 == Root(s.maps[x])
    ensures Finished(proof, last, roots, |s.log|) == Ok(LeavesRead(s.log, visits))
  {
    SessionProofs(s.log, frontier, ladders, s.proofAt, visits, proof);
    SessionProved(frontier, ladders, s.proofAt, visits, |ladders|, |visits|);
    SessionFinishes(s.log, s.maps, visits, proof, last, roots);
  }

  /** The reading of a response, put together. */
  lemma {:induction false} ReadIs(proof: CombinedTreeProof, c: LadderProofs.Claim, n: nat, first: Mark, x: nat,
                                  roots: EntryRoots, last: Mark, leaves: seq<LeafData>)
    requires n > 0 && StampedAll(proof, Mark(0, 0, map[], []), FrontierOf(n), |FrontierOf(n)|) == Ok(first)
    requires SearchRead(proof, c, n, first) == Ok((x, roots, last)) && Finished(proof, last, roots, n) == Ok(leaves)
    ensures ResponseRead(proof, c, n) == Ok((x, leaves))
  {}

  /** The queue of a session has its ladders in order. */
  lemma {:induction false} SessionQueue(s: Service, c: LadderProofs.Claim, frontier: seq<nat>,
                                        ladders: seq<SearchVisit>, visits: seq<Visit>, proof: CombinedTreeProof)
    requires Session(s, frontier, ladders, visits, proof) && forall v :: v in ladders ==> VisitFits(s, c, v)
    ensures InQueue(s, c, ladders, proof.prefixProofs)
  {
    SessionProofs(s.log, frontier, ladders, s.proofAt, visits, proof);
  }

  lemma {:induction false} GreatestTimed(s: Service, c: LadderProofs.Claim, frontier: seq<nat>,
                                         ladders: seq<SearchVisit>, visits: seq<Visit>, first: Mark, last: Mark)
    requires visits == SessionOf(frontier, ladders, s.proofAt) && |ladders| == |frontier|
    requires Along(s, c.target, ladders, frontier) && Timed(s.log, visits, |frontier|, first)
    requires last.tsIdx == first.tsIdx && last.stamps == first.stamps
    ensures Timed(s.log, visits, |visits|, last)
  {
    forall j | 0 <= j < |frontier|
      ensures ladders[j].pos == frontier[j]
    {
      assert VisitedAt(s.greatest, c.target, frontier[j], ladders[j]);
    }
    GreatestSeen(frontier, ladders, s.proofAt, visits);
  }

  /** After the frontier's timestamps, a search for the greatest version reads the session. */
  lemma {:induction false} GreatestRead(s: Service, c: LadderProofs.Claim, frontier: seq<nat>,
                                        ladders: seq<SearchVisit>, visits: seq<Visit>, proof: CombinedTreeProof,
                                        first: Mark)
    returns (x: nat, roots: EntryRoots, last: Mark)
    requires Honest(s, c) && c.greatest && c.target <= MAX_VERSION && s.greatest[|s.maps| - 1] == Some(c.target)
    requires frontier == FrontierOf(|s.log|) && visits == SessionOf(frontier, ladders, s.proofAt)
    requires InQueue(s, c, ladders, proof.prefixProofs)
    requires |ladders| == |frontier| && Along(s, c.target, ladders, frontier)
    requires Timed(s.log, visits, |frontier|, first) && first.proofIdx == 0
    ensures SearchRead(proof, c, |s.log|, first) == Ok((x, roots, last)) && HasRead(s, ladders, visits, roots, last)
    ensures FirstGreatest(c, s.maps, s.greatest, x)
  {
    GreatestProofsRead(s, c, frontier, ladders, proof.prefixProofs, first.proofIdx);
    var answer := GreatestAnswer(c, proof.prefixProofs, frontier, first.proofIdx).value;
    x, roots, last := answer.0, answer.1, first.(proofIdx := first.proofIdx + |frontier|, trace := []);
    GreatestTimed(s, c, frontier, ladders, visits, first, last);
    GreatestReads(proof, c, |s.log|, first, frontier, answer, last);
  }

  /** What a greatest-version search reads, put together. */
  lemma {:induction false} GreatestReads(proof: CombinedTreeProof, c: LadderProofs.Claim, n: nat, m: Mark,
                                         frontier: seq<nat>, answer: (nat, EntryRoots), last: Mark)
    requires n > 0 && c.greatest && frontier == FrontierOf(n)
    requires GreatestAnswer(c, proof.prefixProofs, frontier, m.proofIdx) == Ok(answer)
    requires last == m.(proofIdx := m.proofIdx + |frontier|, trace := [])
    ensures SearchRead(proof, c, n, m) == Ok((answer.0, answer.1, last))
  {}

  /**
   * The client reads the server's session for the greatest version to its end: it ends at the first frontier entry
   * whose greatest version is the target, and has the entries of the frontier as the log has them.
   */
  lemma {:induction false} GreatestSession(s: Service, c: LadderProofs.Claim, frontier: seq<nat>,
                                           ladders: seq<SearchVisit>, visits: seq<Visit>, proof: CombinedTreeProof)
    returns (x: nat)
    requires Honest(s, c) && c.greatest && c.target <= MAX_VERSION && s.greatest[|s.maps| - 1] == Some(c.target)
    requires Session(s, frontier, ladders, visits, proof) && (forall v :: v in ladders ==> VisitFits(s, c, v))
    requires |ladders| == |frontier| && Along(s, c.target, ladders, frontier)
    ensures ResponseRead(proof, c, |s.log|) == Ok((x, LeavesRead(s.log, visits)))
    ensures FirstGreatest(c, s.maps, s.greatest, x)
  {
    var start := Mark(0, 0, map[], []);
    var first := StampedAll(proof, start, frontier, |frontier|);
    FrontierTimed(s, frontier, ladders, visits, proof, start, 0, |s.log| - 1, first);
    SessionQueue(s, c, frontier, ladders, visits, proof);
    var roots, last;
    x, roots, last := GreatestRead(s, c, frontier, ladders, visits, proof, first.value);
    SessionEnds(s, frontier, ladders, visits, proof, last, roots);
    ReadIs(proof, c, |s.log|, first.value, x, roots, last, LeavesRead(s.log, visits));
  }

  // ---- one version ----

  /** The ladders of a fixed-version search: those of its path, and a lookup at the least greater entry. */
  ghost predicate FixedLadders(s: Service, target: nat, rel: seq<Ordering>, path: seq<nat>, ladders: seq<SearchVisit>) {
    && rel == Relations(s.greatest, target) && path == PathTo(rel, 0, |rel|) && Terminal(rel, path).Some?
    && Along(s, target, ladders, path)
    && if EqualAt(rel, path).Some? then |ladders| == |path|
       else |ladders| == |path| + 1 && ladders[|path|] == SearchVisit(LeastGreater(rel, path).value, [target])
  }

  lemma {:induction false} FixedVisitsAre(s: Service, target: nat, rel: seq<Ordering>, path: seq<nat>)
    requires |s.maps| == |s.greatest| && rel == Relations(s.greatest, target) && path == PathTo(rel, 0, |rel|)
    requires Terminal(rel, path).Some?
    ensures FixedLadders(s, target, rel, path, FixedVisits(s.greatest, target))
  {}

  /** The lookup at the end is the server's. */
  lemma {:induction false} FixedEnd(s: Service, c: LadderProofs.Claim, rel: seq<Ordering>, path: seq<nat>,
                                    ladders: seq<SearchVisit>, proofs: seq<PrefixProof>, end: nat)
    requires Honest(s, c) && FixedLadders(s, c.target, rel, path, ladders) && InQueue(s, c, ladders, proofs)
    requires end == |path|
    ensures EndPasses(c, proofs, s.maps, rel, path, end)
  {
    if EqualAt(rel, path).None? {
      var x := LeastGreater(rel, path).value;
      LeastIsGreater(rel, path);
      assert VisitFits(s, c, ladders[end]);
      assert HonestLookup(c, s.maps[x], s.answersAt(x, [c.target]), proofs[end]);
      HonestEndPasses(c, proofs, s.maps, rel, path, s.answersAt(x, [c.target]), end);
    }
  }

  /** The ladders are for the entries of the path, and at most one more for one of them. */
  ghost predicate ForPath(path: seq<nat>, ladders: seq<SearchVisit>) {
    && |path| <= |ladders| <= |path| + 1 && (forall j :: 0 <= j < |path| ==> ladders[j].pos == path[j])
    && (|path| < |ladders| ==> ladders[|path|].pos in path)
  }

  lemma {:induction false} FixedForPath(s: Service, target: nat, rel: seq<Ordering>, path: seq<nat>,
                                        ladders: seq<SearchVisit>)
    requires FixedLadders(s, target, rel, path, ladders)
    ensures ForPath(path, ladders)
  {
    forall j | 0 <= j < |path|
      ensures ladders[j].pos == path[j]
    {
      assert VisitedAt(s.greatest, target, path[j], ladders[j]);
    }
    if EqualAt(rel, path).None? { LeastIsGreater(rel, path); }
  }

  lemma {:induction false} FixedEntries(s: Service, target: nat, rel: seq<Ordering>, path: seq<nat>,
                                        ladders: seq<SearchVisit>, roots: EntryRoots)
    requires FixedLadders(s, target, rel, path, ladders) && forall x :: x in roots <==> x in path
    ensures roots.Keys == EntriesVisited(ladders, |ladders|)
  {
    AlongAll(s, target, ladders, path, roots);
    FixedForPath(s, target, rel, path, ladders);
    if |path| < |ladders| { OneMoreEntry(ladders, ladders[|path|].pos, roots.Keys); }
  }

  lemma {:induction false} OneMoreEntry(ladders: seq<SearchVisit>, x: nat, s: set<nat>)
    requires |ladders| > 0 && ladders[|ladders| - 1].pos == x && x in s && s == EntriesVisited(ladders, |ladders| - 1)
    ensures s == EntriesVisited(ladders, |ladders|)
  {}

  /** The client's answer over the server's ladders. */
  lemma {:induction false} FixedProofsRead(s: Service, c: LadderProofs.Claim, rel: seq<Ordering>, path: seq<nat>,
                                           ladders: seq<SearchVisit>, proofs: seq<PrefixProof>, idx: nat, x: nat)
    returns (answer: (nat, Trail), xs: seq<nat>)
    requires Honest(s, c) && !c.greatest && c.target <= MAX_VERSION
    requires FixedLadders(s, c.target, rel, path, ladders) && InQueue(s, c, ladders, proofs) && idx == 0
    requires |s.log| == x + 1
    ensures FixedAnswer(c, proofs, |s.log|, idx) == Ok(answer) && Terminal(rel, path) == Some(answer.0)
    ensures RootsOfMaps(s.maps, answer.1.roots) && answer.1.roots.Keys == EntriesVisited(ladders, |ladders|)
    ensures xs == DatesAsked(|s.log|, answer.1) && xs == [x] + path && answer.1.idx == |ladders|
  {
    AlongHonest(s, c, ladders, proofs, path, idx);
    HonestPasses(c, proofs, s.maps, s.greatest, rel, path, AnswersAlong(s, ladders, |path|), idx);
    FixedEnd(s, c, rel, path, ladders, proofs, idx + |path|);
    PassedFixedSearch(c, proofs, s.maps, s.greatest, rel, path, idx, idx + |path|);
    answer := FixedAnswer(c, proofs, |rel|, idx).value;
    FixedEntries(s, c.target, rel, path, ladders, answer.1.roots);
    xs := AskedAlong(|s.log|, rel, path, answer.1, x);
  }

  /** The timestamps that the search asks for are the session's: the last entry's is known, then the path's. */
  lemma {:induction false} FixedTimed(s: Service, frontier: seq<nat>, path: seq<nat>, ladders: seq<SearchVisit>,
                                      visits: seq<Visit>, proof: CombinedTreeProof, first: Mark, x: nat,
                                      xs: seq<nat>, end: nat, r: Result<Mark>)
    requires Serves(s.log, visits, proof) && visits == SessionOf(frontier, ladders, s.proofAt) && ForPath(path, ladders)
    requires Timed(s.log, visits, |frontier|, first) && x in first.stamps && end == |frontier| + |path|
    requires xs == [x] + path && r == StampedAll(proof, first, xs, |xs|)
    ensures TimedTo(s.log, visits, |visits|, first.proofIdx, r)
  {
    FixedComes(s, path, ladders, frontier, visits);
    TimedAfter(s.log, visits, proof, |frontier|, first, x, path, end, r);
    FixedSeen(s, path, ladders, frontier, visits, end);
    TimedOnward(s.log, visits, end, |visits|, first.proofIdx, r);
  }

  lemma {:induction false} FixedComes(s: Service, path: seq<nat>, ladders: seq<SearchVisit>, frontier: seq<nat>,
                                      visits: seq<Visit>)
    requires ForPath(path, ladders) && visits == SessionOf(frontier, ladders, s.proofAt)
    ensures ComeFrom(visits, |frontier|, path)
  {}

  lemma {:induction false} FixedSeen(s: Service, path: seq<nat>, ladders: seq<SearchVisit>, frontier: seq<nat>,
                                     visits: seq<Visit>, end: nat)
    requires ForPath(path, ladders) && visits == SessionOf(frontier, ladders, s.proofAt)
    requires end == |frontier| + |path| && ComeFrom(visits, |frontier|, path)
    ensures end <= |visits| && Seen(visits, |visits|) == Seen(visits, end)
    ensures FirstSeen(visits, |visits|) == FirstSeen(visits, end)
  {
    if |path| < |ladders| {
      var j :| 0 <= j < |path| && path[j] == ladders[|path|].pos;
      ComesAt(visits, |frontier|, path, j, |frontier| + j);
      SeenHas(visits, end, |frontier| + j);
      LastVisit(s, frontier, ladders, visits, end);
      LastSeenAgain(visits, end, path[j]);
    }
  }

  lemma {:induction false} LastVisit(s: Service, frontier: seq<nat>, ladders: seq<SearchVisit>, visits: seq<Visit>,
                                     end: nat)
    requires visits == SessionOf(frontier, ladders, s.proofAt) && |ladders| > 0 && end == |frontier| + (|ladders| - 1)
    ensures |visits| == end + 1 && visits[end].pos == ladders[|ladders| - 1].pos
  {
    assert visits[end] == LadderVisit(ladders[|ladders| - 1], s.proofAt);
  }

  lemma {:induction false} LastSeenAgain(visits: seq<Visit>, k: nat, x: nat)
    requires k + 1 == |visits| && visits[k].pos == x && x in Seen(visits, k)
    ensures Seen(visits, |visits|) == Seen(visits, k) && FirstSeen(visits, |visits|) == FirstSeen(visits, k)
  {
    SeenAgain(visits, k, |visits|);
  }

  lemma {:induction false} AskedAlong(n: nat, rel: seq<Ordering>, path: seq<nat>, t: Trail, x: nat)
    returns (xs: seq<nat>)
    requires (forall i :: 0 <= i < |path| ==> path[i] < |rel|) && t.inspected == Inspected(rel, path) && n == x + 1
    ensures xs == DatesAsked(n, t) && xs == [x] + path
  {
    assert EntriesIn(t.inspected) == path;
    xs := [x] + path;
  }

  /** What a fixed-version search reads, put together. */
  lemma {:induction false} FixedReads(proof: CombinedTreeProof, c: LadderProofs.Claim, n: nat, m: Mark,
                                      answer: (nat, Trail), xs: seq<nat>, dates: Result<Mark>, last: Mark)
    requires n > 0 && !c.greatest && FixedAnswer(c, proof.prefixProofs, n, m.proofIdx) == Ok(answer)
    requires xs == DatesAsked(n, answer.1) && dates == StampedAll(proof, m, xs, |xs|) && dates.Ok?
    requires last == dates.value.(proofIdx := answer.1.idx, trace := [])
    ensures SearchRead(proof, c, n, m) == Ok((answer.0, answer.1.roots, last))
  {}

  /** With such an answer, the search has read the session. */
  lemma {:induction false} FixedHasRead(s: Service, frontier: seq<nat>, path: seq<nat>, ladders: seq<SearchVisit>,
                                        visits: seq<Visit>, proof: CombinedTreeProof, first: Mark, t: Trail, x: nat,
                                        xs: seq<nat>)
    returns (dates: Result<Mark>, last: Mark)
    requires Serves(s.log, visits, proof) && visits == SessionOf(frontier, ladders, s.proofAt) && ForPath(path, ladders)
    requires t.idx == |ladders| && t.roots.Keys == EntriesVisited(ladders, |ladders|) && RootsOfMaps(s.maps, t.roots)
    requires Timed(s.log, visits, |frontier|, first) && x in first.stamps && xs == [x] + path
    ensures dates == StampedAll(proof, first, xs, |xs|) && dates.Ok?
    ensures last == dates.value.(proofIdx := t.idx, trace := []) && HasRead(s, ladders, visits, t.roots, last)
  {
    dates := StampedAll(proof, first, xs, |xs|);
    FixedTimed(s, frontier, path, ladders, visits, proof, first, x, xs, |frontier| + |path|, dates);
    last := dates.value.(proofIdx := t.idx, trace := []);
  }

  /** After the frontier's timestamps, a search for one version reads the session. */
  lemma {:induction false} FixedReading(s: Service, c: LadderProofs.Claim, frontier: seq<nat>, path: seq<nat>,
                                        ladders: seq<SearchVisit>, visits: seq<Visit>, proof: CombinedTreeProof,
                                        first: Mark, answer: (nat, Trail), n: nat, x: nat, xs: seq<nat>)
    returns (last: Mark)
    requires n > 0 && !c.greatest && FixedAnswer(c, proof.prefixProofs, n, first.proofIdx) == Ok(answer)
    requires Serves(s.log, visits, proof) && visits == SessionOf(frontier, ladders, s.proofAt) && ForPath(path, ladders)
    requires answer.1.idx == |ladders| && answer.1.roots.Keys == EntriesVisited(ladders, |ladders|)
    requires RootsOfMaps(s.maps, answer.1.roots) && xs == DatesAsked(n, answer.1) && xs == [x] + path
    requires Timed(s.log, visits, |frontier|, first) && x in first.stamps
    ensures SearchRead(proof, c, n, first) == Ok((answer.0, answer.1.roots, last))
    ensures HasRead(s, ladders, visits, answer.1.roots, last)
  {
    var dates;
    dates, last := FixedHasRead(s, frontier, path, ladders, visits, proof, first, answer.1, x, xs);
    FixedReads(proof, c, n, first, answer, xs, dates, last);
  }

  /** With that answer to the server's ladders, the client reads the session to its end. */
  lemma {:induction false} FixedSessionEnds(s: Service, c: LadderProofs.Claim, frontier: seq<nat>, path: seq<nat>,
                                            ladders: seq<SearchVisit>, visits: seq<Visit>, proof: CombinedTreeProof,
                                            idx: nat, answer: (nat, Trail), x: nat, xs: seq<nat>)
    requires Session(s, frontier, ladders, visits, proof) && ForPath(path, ladders) && |s.log| == x + 1
    requires !c.greatest && idx == 0 && FixedAnswer(c, proof.prefixProofs, |s.log|, idx) == Ok(answer)
    requires answer.1.idx == |ladders| && answer.1.roots.Keys == EntriesVisited(ladders, |ladders|)
    requires RootsOfMaps(s.maps, answer.1.roots) && xs == DatesAsked(|s.log|, answer.1) && xs == [x] + path
    requires |s.maps| == |s.log| && forall y :: 0 <= y < |s.log| ==> s.log[y].1 == Root(s.maps[y])
    ensures ResponseRead(proof, c, |s.log|) == Ok((answer.0, LeavesRead(s.log, visits)))
  {
    var start := Mark(0, 0, map[], []);
    var first := StampedAll(proof, start, frontier, |frontier|);
    FrontierTimed(s, frontier, ladders, visits, proof, start, idx, x, first);
    var last := FixedReading(s, c, frontier, path, ladders, visits, proof, first.value, answer, |s.log|, x, xs);
    SessionEnds(s, frontier, ladders, visits, proof, last, answer.1.roots);
    ReadIs(proof, c, |s.log|, first.value, answer.0, answer.1.roots, last, LeavesRead(s.log, visits));
  }

  /**
   * The client reads the server's session for one version to its end: it ends at the terminal entry of the search path,
   * and has the entries of the frontier and the path as the log has them.
   */
  lemma {:induction false} FixedSession(s: Service, c: LadderProofs.Claim, frontier: seq<nat>, rel: seq<Ordering>,
                                        path: seq<nat>, ladders: seq<SearchVisit>, visits: seq<Visit>,
                                        proof: CombinedTreeProof)
    returns (x: nat)
    requires Honest(s, c) && !c.greatest && c.target <= MAX_VERSION
    requires Session(s, frontier, ladders, visits, proof) && (forall v :: v in ladders ==> VisitFits(s, c, v))
    requires FixedLadders(s, c.target, rel, path, ladders)
    ensures ResponseRead(proof, c, |s.log|) == Ok((x, LeavesRead(s.log, visits))) && Terminal(rel, path) == Some(x)
  {
    SessionQueue(s, c, frontier, ladders, visits, proof);
    var last: nat := |s.log| - 1;
    var answer, xs := FixedProofsRead(s, c, rel, path, ladders, proof.prefixProofs, 0, last);
    FixedForPath(s, c.target, rel, path, ladders);
    FixedSessionEnds(s, c, frontier, path, ladders, visits, proof, 0, answer, last, xs);
    x := answer.0;
  }
}
