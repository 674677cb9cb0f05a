/**
 * The greatest version of a label from the server's trees to the client's answer (src/tree/traversal.rs,
 * src/client/core.rs): the ladder on the wire is what the client's checks need.
 */
module GreatestRoundTrip {
  import opened Digests
  import opened SparseTree
  import opened PrefixProofs
  import opened LogMath
  import opened LogTree
  import opened LogProofs
  import opened LogServer
  import opened LogLaws
  import opened StoredLog
  import opened Ibst
  import opened BinaryLadder
  import opened FixedSearch
  import opened GreatestSearch
  import opened LadderServer
  import opened CombinedProof
  import opened ClientState
  import opened ClientOperation
  import opened HonestHeads
  import opened SearchSessions
  import opened HonestSearches
  import opened HonestOperations
  import FixedLaws
  import LadderProofs

  // ---- the ladder on the wire ----

  /** The client's step for a version: that at its place in the ladder, if the VRF proof there is for the version. */
  function StepAt(steps: seq<LadderStep>, base: seq<nat>, v: nat, n: nat): (r: Option<Option<Commitment>>)
    requires n <= |steps| && n <= |base|
    decreases n
  {
    if n == 0 then None
    else if base[n - 1] != v then StepAt(steps, base, v, n - 1)
    else if steps[n - 1].version == v then Some(steps[n - 1].commitment)
    else None
  }

  /** A ladder of another length is rejected. */
  function WireSteps(steps: seq<LadderStep>, base: seq<nat>): (wire: LadderProofs.Steps) {
    (v: nat) => if |steps| == |base| then StepAt(steps, base, v, |base|) else None
  }

  lemma {:induction false} StepAtPlace(steps: seq<LadderStep>, base: seq<nat>, i: nat, n: nat)
    requires Placed(base) && i < n <= |base| == |steps| && steps[i].version == base[i]
    ensures StepAt(steps, base, base[i], n) == Some(steps[i].commitment)
    decreases n
  {
    if i < n - 1 {
      assert PlaceIn(base, base[n - 1]) == n - 1 && PlaceIn(base, base[i]) == i;
      StepAtPlace(steps, base, i, n - 1);
    }
  }

  /** What a client claims of an answer for the greatest version. */
  function ClaimOf(target: nat, steps: seq<LadderStep>, index: nat -> Index, commitments: Commitments)
    : (c: LadderProofs.Claim)
  {
    LadderProofs.Claim(target, commitments(target), true, index, WireSteps(steps, BaseLadder(target)))
  }

  /** The maps hold the versions with their commitments. */
  ghost predicate Commits(maps: seq<Contents>, index: nat -> Index, commitments: Commitments) {
    forall x, v :: 0 <= x < |maps| && index(v) in maps[x] ==> maps[x][index(v)] == commitments(v)
  }

  /** A complete ladder has a step for each lookup of an entry that fits what is found there. */
  lemma {:induction false} WireStepFits(target: nat, steps: seq<LadderStep>, index: nat -> Index,
                                        commitments: Commitments, m: Contents, i: nat, answer: ProofResult)
    requires target <= MAX_VERSION && i < |BaseLadder(target)|
    requires CompleteLadder(steps, BaseLadder(target), target, commitments)
    requires Answers(m, index(BaseLadder(target)[i]), answer)
    requires index(BaseLadder(target)[i]) in m ==>
               BaseLadder(target)[i] <= target
               && m[index(BaseLadder(target)[i])] == commitments(BaseLadder(target)[i])
    ensures StepFits(ClaimOf(target, steps, index, commitments), BaseLadder(target)[i], answer.commitment)
  {
    var base := BaseLadder(target);
    ClimbingDistinct(target, target, 0, base);
    DistinctPlaced(base, -1, MAX_VERSION + 1);
    assert StepOk(steps[i], base[i], target, commitments);
    StepAtPlace(steps, base, i, |base|);
  }

  lemma {:induction false} WireFits(s: Service, target: nat, steps: seq<LadderStep>, index: nat -> Index,
                                    commitments: Commitments, c: LadderProofs.Claim, x: nat)
    requires c == ClaimOf(target, steps, index, commitments) && Honest(s, c) && Commits(s.maps, index, commitments)
    requires target <= MAX_VERSION && CompleteLadder(steps, BaseLadder(target), target, commitments)
    requires x < |s.greatest| && (s.greatest[x].Some? ==> s.greatest[x].value <= target)
    ensures VisitFits(s, c, SearchVisit(x, VersionsAt(s.greatest[x], target)))
  {
    var versions := VersionsAt(s.greatest[x], target);
    var answers := s.answersAt(x, versions);
    assert HonestLadder(index, s.maps[x], versions, answers, s.proofAt(x, versions));
    VersionsPrefix(s.greatest[x], target);
    assert FixedLaws.EntryHolds(c, s.maps[x], s.greatest[x]);
    forall j | 0 <= j < |versions|
      ensures StepFits(c, versions[j], answers[j].commitment)
    {
      assert versions[j] == BaseLadder(target)[j];
      WireStepFits(target, steps, index, commitments, s.maps[x], j, answers[j]);
    }
  }

  // ---- the round trip ----

  lemma {:induction false} WireFitsAll(s: Service, target: nat, steps: seq<LadderStep>, index: nat -> Index,
                                       commitments: Commitments, c: LadderProofs.Claim, frontier: seq<nat>,
                                       ladders: seq<SearchVisit>)
    requires c == ClaimOf(target, steps, index, commitments) && Honest(s, c) && Commits(s.maps, index, commitments)
    requires target <= MAX_VERSION && CompleteLadder(steps, BaseLadder(target), target, commitments)
    requires s.greatest[|s.greatest| - 1] == Some(target)
    requires (forall i :: 0 <= i < |frontier| ==> frontier[i] < |s.greatest|)
            && ladders == VisitsOf(s.greatest, target, frontier)
    ensures forall v :: v in ladders ==> VisitFits(s, c, v)
    ensures Along(s, target, ladders, frontier) && |ladders| == |frontier|
  {
    forall v | v in ladders
      ensures VisitFits(s, c, v)
    {
      var i :| 0 <= i < |ladders| && ladders[i] == v;
      WireFits(s, target, steps, index, commitments, c, frontier[i]);
    }
  }

  /** The session visits the entries of the frontier. */
  lemma {:induction false} FrontierSeen(frontier: seq<nat>, ladders: seq<SearchVisit>, proofAt: ProofAt,
                                        visits: seq<Visit>, k: nat)
    requires visits == SessionOf(frontier, ladders, proofAt) && |ladders| == |frontier| && k <= |visits|
    requires forall j :: 0 <= j < |frontier| ==> ladders[j].pos == frontier[j]
    ensures forall x :: x in Seen(visits, k) ==> x in frontier
    decreases k
  {
    if k > 0 { FrontierSeen(frontier, ladders, proofAt, visits, k - 1); }
  }

  lemma {:induction false} SeenIsFrontier(frontier: seq<nat>, ladders: seq<SearchVisit>, proofAt: ProofAt,
                                          visits: seq<Visit>)
    requires visits == SessionOf(frontier, ladders, proofAt) && |ladders| == |frontier|
    requires forall j :: 0 <= j < |frontier| ==> ladders[j].pos == frontier[j]
    ensures Seen(visits, |visits|) == SetOf(frontier)
  {
    FrontierSeen(frontier, ladders, proofAt, visits, |visits|);
    forall x | x in frontier
      ensures x in Seen(visits, |visits|)
    {
      var j :| 0 <= j < |frontier| && frontier[j] == x;
      SeenHas(visits, |visits|, j);
    }
  }

  /** The honest service does not depend on what the client claims. */
  lemma {:induction false} HonestAnyway(s: Service, c: LadderProofs.Claim, c': LadderProofs.Claim)
    requires Honest(s, c) && c'.index == c.index
    ensures Honest(s, c')
  {
    forall x | 0 <= x < |s.maps|
      ensures FixedLaws.EntryHolds(c', s.maps[x], s.greatest[x])
    {
      assert FixedLaws.EntryHolds(c, s.maps[x], s.greatest[x]);
    }
  }

  lemma {:induction false} MembersOf(xs: seq<nat>)
    ensures Members(xs, |xs|) == SetOf(xs)
  {
    assert xs[..|xs|] == xs;
  }

  lemma {:induction false} NoneRetained(m: nat, n: nat)
    requires m <= n
    ensures (if 0 < m <= n then PeakIds(m) else {}) == PeakIds(m)
  {
    if m == 0 { assert Peaks(m, 0) == []; }
  }

  /** The server's answer with its proof of inclusion, for a client that has a log of this size. */
  method AnswerGreatest(stored: StoredLog, s: Service, commitments: Commitments, lastSize: nat, sizes: seq<nat>)
    returns (r: Result<(nat, seq<LadderStep>, CombinedTreeProof, seq<Digest>)>)
    requires stored.Valid() && stored.entries == s.log && |s.log| == |s.greatest| > 0 && Rises(s.greatest)
    requires Height(|s.log|) <= 62 && lastSize <= |s.log|
    requires forall x :: 0 <= x < |s.greatest| && s.greatest[x].Some? ==> s.greatest[x].value <= MAX_VERSION
    ensures r.Err? <==> s.greatest[|s.log| - 1].None?
    ensures r.Ok? ==>
              var frontier := FrontierOf(|s.log|);
              var visits := SessionOf(frontier, VisitsOf(s.greatest, r.value.0, frontier), s.proofAt);
              && s.greatest[|s.log| - 1] == Some(r.value.0)
              && CompleteLadder(r.value.1, BaseLadder(r.value.0), r.value.0, commitments)
              && InLog(visits, |s.log|) && r.value.2 == Finalized(s.log, visits)
              && r.value.3 == BatchProof(LeavesOf(s.log), SetOf(frontier), Bounds(sizes, |s.log|, |sizes|),
                                         PeakIds(lastSize))
  {
    LogHeight(|s.log|);
    var served := ServeGreatestSearch(s.log, s.greatest, commitments, s.proofAt);
    if served.Err? {
      return Err;
    }
    var frontier := GetFrontier(|s.log|);
    assert frontier == FrontierOf(|s.log|);
    MembersOf(frontier);
    NoneRetained(lastSize, |s.log|);
    var inclusion := GetBatchProof(stored, frontier, |s.log|, lastSize, sizes);
    return Ok((served.value.0, served.value.1, served.value.2, inclusion.value));
  }

  /** What the client is told is the label's greatest version, at the first frontier entry that has it. */
  ghost predicate Greatest(s: Service, index: nat -> Index, commitments: Commitments, target: nat, x: nat) {
    && s.greatest != [] && s.greatest[|s.greatest| - 1] == Some(target)
    && x < |s.maps| == |s.greatest| && x in FrontierOf(|s.maps|) && s.greatest[x] == Some(target)
    && (forall y :: y in FrontierOf(|s.maps|) && y < |s.maps| && s.greatest[y] == Some(target) ==> x <= y)
    && index(target) in s.maps[x] && s.maps[x][index(target)] == commitments(target)
  }

  /** The server's session and ladder are what the client's search needs. */
  lemma {:induction false} AnswerFits(s: Service, target: nat, steps: seq<LadderStep>, index: nat -> Index,
                                      commitments: Commitments, c: LadderProofs.Claim, frontier: seq<nat>,
                                      ladders: seq<SearchVisit>, visits: seq<Visit>, proof: CombinedTreeProof)
    requires c == ClaimOf(target, steps, index, commitments) && Honest(s, c) && Commits(s.maps, index, commitments)
    requires target <= MAX_VERSION && CompleteLadder(steps, BaseLadder(target), target, commitments)
    requires s.greatest[|s.greatest| - 1] == Some(target) && frontier == FrontierOf(|s.log|)
    requires ladders == VisitsOf(s.greatest, target, frontier) && visits == SessionOf(frontier, ladders, s.proofAt)
    requires InLog(visits, |s.log|) && proof == Finalized(s.log, visits)
    ensures SearchSession(s, c, frontier, ladders, visits, proof) && Seen(visits, |visits|) == SetOf(frontier)
  {
    WireFitsAll(s, target, steps, index, commitments, c, frontier, ladders);
    SeenIsFrontier(frontier, ladders, s.proofAt, visits);
  }

  /** The client's search over the server's answer. */
  method AskGreatest(client: KtClient, fth: FullTreeHead, now: nat, s: Service, index: nat -> Index,
                     commitments: Commitments, answer: (nat, seq<LadderStep>, CombinedTreeProof, seq<Digest>),
                     ghost before: Leaves, ghost bounds: set<nat>)
    returns (r: Result<nat>)
    requires FollowsLog(client, before) && before <= LeavesOf(s.log) && Height(|s.log|) <= 62
    requires Honest(s, ClaimOf(answer.0, answer.1, index, commitments)) && Commits(s.maps, index, commitments)
    requires answer.0 <= MAX_VERSION && s.greatest[|s.greatest| - 1] == Some(answer.0)
    requires CompleteLadder(answer.1, BaseLadder(answer.0), answer.0, commitments)
    requires var frontier := FrontierOf(|s.log|);
             var visits := SessionOf(frontier, VisitsOf(s.greatest, answer.0, frontier), s.proofAt);
             InLog(visits, |s.log|) && answer.2 == Finalized(s.log, visits)
    requires answer.3 == BatchProof(LeavesOf(s.log), SetOf(FrontierOf(|s.log|)), bounds, PeakIds(|before|))
    requires PairsProvided(SetOf(FrontierOf(|s.log|)), bounds)
    requires Usable(client, fth, now) && HeadSize(fth, client.state) == |s.log|
    requires HonestHead(client, fth, fth.headType == UPDATED, before, LeavesOf(s.log), SetOf(FrontierOf(|s.log|)))
    modifies client
    ensures r.Ok? && Greatest(s, index, commitments, answer.0, r.value) && FollowsLog(client, LeavesOf(s.log))
  {
    var c := ClaimOf(answer.0, answer.1, index, commitments);
    ghost var frontier := FrontierOf(|s.log|);
    ghost var ladders := VisitsOf(s.greatest, answer.0, frontier);
    ghost var visits := SessionOf(frontier, ladders, s.proofAt);
    AnswerFits(s, answer.0, answer.1, index, commitments, c, frontier, ladders, visits, answer.2);
    r := FollowSearch(client, fth, answer.2, answer.3, c, now, s, frontier, ladders, visits, before, bounds);
  }

  /**
   * Asking an honest server for the greatest version of a label: there is an answer exactly when the label has a
   * version in the log. The client is then told its greatest version, with the entry where its monitoring starts, and
   * follows the server's log.
   */
  method FindGreatest(client: KtClient, fth: FullTreeHead, now: nat, stored: StoredLog, s: Service, index: nat -> Index,
                      commitments: Commitments, sizes: seq<nat>, ghost before: Leaves)
    returns (r: Result<(nat, nat)>)
    requires FollowsLog(client, before) && before <= LeavesOf(s.log) && Height(|s.log|) <= 62
    requires stored.Valid() && stored.entries == s.log
    requires Honest(s, ClaimOf(0, [], index, commitments)) && Commits(s.maps, index, commitments)
    requires PairsProvided(SetOf(FrontierOf(|s.log|)), Bounds(sizes, |s.log|, |sizes|))
    requires Usable(client, fth, now) && HeadSize(fth, client.state) == |s.log|
    requires HonestHead(client, fth, fth.headType == UPDATED, before, LeavesOf(s.log), SetOf(FrontierOf(|s.log|)))
    modifies client
    ensures r.Ok? <==> s.greatest[|s.log| - 1].Some?
    ensures r.Ok? ==> Greatest(s, index, commitments, r.value.0, r.value.1) && FollowsLog(client, LeavesOf(s.log))
    ensures r.Err? ==> FollowsLog(client, before)
  {
    HonestVersions(s, ClaimOf(0, [], index, commitments));
    var answer := AnswerGreatest(stored, s, commitments, if client.state.Some? then client.state.value.treeSize else 0,
                                 sizes);
    if answer.Err? {
      return Err;
    }
    HonestAnyway(s, ClaimOf(0, [], index, commitments),
                 ClaimOf(answer.value.0, answer.value.1, index, commitments));
    var x := AskGreatest(client, fth, now, s, index, commitments, answer.value, before,
                         Bounds(sizes, |s.log|, |sizes|));
    return Ok((answer.value.0, x.value));
  }

  lemma {:induction false} HonestVersions(s: Service, c: LadderProofs.Claim)
    requires Honest(s, c)
    ensures forall x :: 0 <= x < |s.greatest| && s.greatest[x].Some? ==> s.greatest[x].value <= MAX_VERSION
  {
    forall x | 0 <= x < |s.greatest|
      ensures s.greatest[x].Some? ==> s.greatest[x].value <= MAX_VERSION
    {
      assert FixedLaws.EntryHolds(c, s.maps[x], s.greatest[x]);
    }
  }
}
