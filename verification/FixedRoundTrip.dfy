/**
 * One version of a label from the server's trees to the client's answer (src/tree/traversal.rs, src/client/core.rs),
 * without a maximum lifetime.
 */
module FixedRoundTrip {
  import opened Digests
  import opened LogTree
  import opened LogProofs
  import opened LogServer
  import opened LogLaws
  import opened StoredLog
  import opened Ibst
  import opened BinaryLadder
  import opened FixedSearch
  import opened CombinedProof
  import opened ClientState
  import opened ClientOperation
  import opened HonestHeads
  import opened SearchSessions
  import opened HonestSearches
  import opened HonestOperations
  import ClientSearch
  import FixedLaws
  import GreatestRoundTrip
  import LadderProofs

  /** The session of a search for one version. */
  function VersionVisits(s: Service, target: nat): (visits: seq<Visit>)
    requires |s.log| > 0
  {
    SessionOf(FrontierOf(|s.log|), FixedVisits(s.greatest, target), s.proofAt)
  }

  /** The server's answer with its proof of inclusion, for a client that has a log of this size. */
  method AnswerVersion(stored: StoredLog, s: Service, target: nat, history: set<nat>, lastSize: nat, sizes: seq<nat>)
    returns (r: Result<(nat, CombinedTreeProof, seq<Digest>)>)
    requires stored.Valid() && stored.entries == s.log && |s.log| == |s.greatest| > 0
    requires Height(|s.log|) <= 62 && lastSize <= |s.log|
    requires forall x :: 0 <= x < |s.greatest| && s.greatest[x].Some? ==> s.greatest[x].value <= MAX_VERSION
    ensures r.Ok? <==> ServerAnswer(s.greatest, target, history).Ok?
    ensures r.Ok? ==>
              var visits := VersionVisits(s, target);
              && r.value.0 == ServerAnswer(s.greatest, target, history).value
              && InLog(visits, |s.log|) && r.value.1 == Finalized(s.log, visits)
              && r.value.2 == BatchProof(LeavesOf(s.log), Seen(visits, |visits|), Bounds(sizes, |s.log|, |sizes|),
                                         PeakIds(lastSize))
  {
    LogHeight(|s.log|);
    var served := ServeFixedSearch(s.log, s.greatest, target, history, s.proofAt);
    if served.Err? {
      return Err;
    }
    var visits := VersionVisits(s, target);
    SeenInLog(visits, |s.log|, |visits|);
    var visited := FirstSeen(visits, |visits|);
    MembersSeen(visits, visited);
    GreatestRoundTrip.NoneRetained(lastSize, |s.log|);
    var inclusion := GetBatchProof(stored, visited, |s.log|, lastSize, sizes);
    return Ok((served.value.0, served.value.1, inclusion.value));
  }

  lemma {:induction false} MembersSeen(visits: seq<Visit>, visited: seq<nat>)
    requires visited == FirstSeen(visits, |visits|)
    ensures Members(visited, |visited|) == Seen(visits, |visits|)
  {
    assert visited[..|visited|] == visited;
  }

  /** The version's commitment is held at an entry. */
  ghost predicate HeldThere(s: Service, c: LadderProofs.Claim, x: nat) {
    x < |s.maps| && FixedLaws.Held(c, s.maps[x])
  }

  /** The server has an answer exactly when the version exists: the terminal entry of the search path. */
  lemma {:induction false} VersionExists(s: Service, target: nat, history: set<nat>)
    requires LinearHistory(s.greatest, history) && Rises(s.greatest)
    ensures ServerAnswer(s.greatest, target, history).Ok? <==> target in history
  {
    SearchFinds(s.greatest, target);
  }

  /** The server's session is what the client's search needs. */
  lemma {:induction false} AnswerFits(s: Service, c: LadderProofs.Claim, history: set<nat>, visits: seq<Visit>,
                                      proof: CombinedTreeProof)
    requires Honest(s, c) && !c.greatest && visits == VersionVisits(s, c.target)
    requires ServerAnswer(s.greatest, c.target, history).Ok?
    requires forall v :: v in FixedVisits(s.greatest, c.target) ==> VisitFits(s, c, v)
    requires InLog(visits, |s.log|) && proof == Finalized(s.log, visits)
    ensures SearchSession(s, c, FrontierOf(|s.log|), FixedVisits(s.greatest, c.target), visits, proof)
  {
    var rel := Relations(s.greatest, c.target);
    FixedVisitsAre(s, c.target, rel, PathTo(rel, 0, |s.greatest|));
  }

  /** A right answer is the server's. */
  lemma {:induction false} RightIsServers(s: Service, c: LadderProofs.Claim, history: set<nat>, x: nat)
    requires !c.greatest && ClientSearch.RightAnswer(c, s.maps, s.greatest, x)
    requires ServerAnswer(s.greatest, c.target, history).Ok?
    ensures ServerAnswer(s.greatest, c.target, history) == Ok(x) && HeldThere(s, c, x)
  {}

  /** The client's search over the server's answer. */
  method AskVersion(client: KtClient, fth: FullTreeHead, now: nat, ghost s: Service, c: LadderProofs.Claim,
                    combined: CombinedTreeProof, inclusion: seq<Digest>, ghost visits: seq<Visit>,
                    ghost before: Leaves, ghost bounds: set<nat>)
    returns (r: Result<nat>)
    requires FollowsLog(client, before) && before <= LeavesOf(s.log) && Height(|s.log|) <= 62
    requires Honest(s, c) && !c.greatest && c.target <= MAX_VERSION
    requires SearchSession(s, c, FrontierOf(|s.log|), FixedVisits(s.greatest, c.target), visits, combined)
    requires inclusion == BatchProof(LeavesOf(s.log), Seen(visits, |visits|), bounds, PeakIds(|before|))
    requires PairsProvided(Seen(visits, |visits|), bounds)
    requires Usable(client, fth, now) && HeadSize(fth, client.state) == |s.log|
    requires HonestHead(client, fth, fth.headType == UPDATED, before, LeavesOf(s.log), Seen(visits, |visits|))
    modifies client
    ensures r.Ok? && ClientSearch.RightAnswer(c, s.maps, s.greatest, r.value) && FollowsLog(client, LeavesOf(s.log))
  {
    r := FollowSearch(client, fth, combined, inclusion, c, now, s, FrontierOf(|s.log|),
                      FixedVisits(s.greatest, c.target), visits, before, bounds);
  }

  /**
   * Asking an honest server for one version of a label, with steps on the wire that fit: the search succeeds exactly
   * when the version exists. The client ends at the server's entry, whose map holds the version with the claimed
   * commitment, and follows the server's log.
   */
  method FindVersion(client: KtClient, fth: FullTreeHead, now: nat, stored: StoredLog, s: Service,
                     c: LadderProofs.Claim, history: set<nat>, sizes: seq<nat>, ghost before: Leaves)
    returns (r: Result<nat>)
    requires FollowsLog(client, before) && before <= LeavesOf(s.log) && Height(|s.log|) <= 62
    requires stored.Valid() && stored.entries == s.log && LinearHistory(s.greatest, history)
    requires Honest(s, c) && !c.greatest && c.target <= MAX_VERSION
    requires forall v :: v in FixedVisits(s.greatest, c.target) ==> VisitFits(s, c, v)
    requires var visits := VersionVisits(s, c.target); var seen := Seen(visits, |visits|);
             && PairsProvided(seen, Bounds(sizes, |s.log|, |sizes|))
             && HonestHead(client, fth, fth.headType == UPDATED, before, LeavesOf(s.log), seen)
    requires Usable(client, fth, now) && HeadSize(fth, client.state) == |s.log|
    modifies client
    ensures r.Ok? <==> c.target in history
    ensures r.Ok? ==> r == ServerAnswer(s.greatest, c.target, history) && HeldThere(s, c, r.value)
    ensures r.Ok? ==> FollowsLog(client, LeavesOf(s.log))
    ensures r.Err? ==> FollowsLog(client, before)
  {
    GreatestRoundTrip.HonestVersions(s, c);
    VersionExists(s, c.target, history);
    var answer := AnswerVersion(stored, s, c.target, history,
                                if client.state.Some? then client.state.value.treeSize else 0, sizes);
    if answer.Err? {
      return Err;
    }
    ghost var visits := VersionVisits(s, c.target);
    AnswerFits(s, c, history, visits, answer.value.1);
    r := AskVersion(client, fth, now, s, c, answer.value.1, answer.value.2, visits, before,
                    Bounds(sizes, |s.log|, |sizes|));
    RightIsServers(s, c, history, r.value);
  }
}
