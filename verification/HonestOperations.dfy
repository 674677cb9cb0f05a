/**
 * A search from end to end (src/tree/traversal.rs, src/tree/read.rs, src/client/core.rs): the client accepts what an
 * honest server answers, and follows the server's log from then on.
 */
module HonestOperations {
  import opened Digests
  import opened LogTree
  import opened LogProofs
  import opened LogServer
  import opened LogLaws
  import opened StoredLog
  import opened BinaryLadder
  import opened FixedSearch
  import opened CombinedProof
  import opened ClientState
  import opened ClientOperation
  import opened HonestHeads
  import opened SearchSessions
  import opened HonestSearches
  import ClientSearch
  import LadderProofs

  // ---- what is read of a log ----

  /** The entries listed are a log's own, the last one among them. */
  lemma {:induction false} ListedProvides(seen: set<nat>, n: nat, positions: seq<nat>)
    requires n > 0 && Height(n) <= 62 && n - 1 in seen && positions == Listed(seen, n)
    ensures Provides(positions, n)
  {
    assert n - 1 in positions;
  }

  lemma {:induction false} ListedSet(seen: set<nat>, n: nat, positions: seq<nat>)
    requires (forall x :: x in seen ==> x < n) && positions == Listed(seen, n)
    ensures SetOf(positions) == seen
  {}

  /** The proof of the entries visited, for a client that has the first entries of the log. */
  ghost predicate Includes(before: Leaves, leaves: Leaves, seen: set<nat>, inclusion: seq<Digest>, bounds: set<nat>)
    requires leaves != []
  {
    before <= leaves && PairsProvided(seen, bounds) && inclusion == BatchProof(leaves, seen, bounds, PeakIds(|before|))
  }

  lemma {:induction false} LeavesReadAre(log: seq<Entry>, visits: seq<Visit>, positions: seq<nat>)
    requires InLog(visits, |log|) && positions == Listed(Seen(visits, |visits|), |log|)
    ensures PositionsOf(LeavesRead(log, visits)) == positions
    ensures |HashesOf(LeavesRead(log, visits))| == |positions|
    ensures forall i :: 0 <= i < |positions| ==>
              positions[i] < |log| && HashesOf(LeavesRead(log, visits))[i] == LeavesOf(log)[positions[i]]
  {}

  /** So the client may trust the head over what it has read, with the log's root and true values. */
  lemma {:induction false} ReadAcceptable(client: KtClient, fth: FullTreeHead, updated: bool, before: Leaves,
                                          log: seq<Entry>, visits: seq<Visit>, seen: set<nat>, inclusion: seq<Digest>,
                                          bounds: set<nat>, extra: set<nat>)
    requires FollowsLog(client, before) && log != [] && Height(|log|) <= 62
    requires InLog(visits, |log|) && seen == Seen(visits, |visits|) && |log| - 1 in seen
    requires Includes(before, LeavesOf(log), seen, inclusion, bounds)
    requires HonestHead(client, fth, updated, before, LeavesOf(log), seen)
    ensures Acceptable(client, fth, |log|, updated, LeavesRead(log, visits), inclusion, extra)
    ensures var outcome := Outcome(client, fth, |log|, LeavesRead(log, visits), inclusion, extra).value;
            outcome.0 == LogRoot(LeavesOf(log)) && TrueNodes(LeavesOf(log), outcome.1)
  {
    var positions, hashes := Listed(seen, |log|), HashesOf(LeavesRead(log, visits));
    SeenInLog(visits, |log|, |visits|);
    LeavesReadAre(log, visits, positions);
    ListedProvides(seen, |log|, positions);
    ListedSet(seen, |log|, positions);
    HonestHeadFits(client, fth, updated, before, LeavesOf(log), positions, hashes, inclusion, bounds, extra);
  }

  // ---- the search ----

  /** The server's session for the client's search: for the greatest version of the label, or for one version. */
  ghost predicate SearchSession(s: Service, c: LadderProofs.Claim, frontier: seq<nat>, ladders: seq<SearchVisit>,
                                visits: seq<Visit>, proof: CombinedTreeProof) {
    && Session(s, frontier, ladders, visits, proof) && (forall v :: v in ladders ==> VisitFits(s, c, v))
    && if c.greatest
       then s.greatest != [] && s.greatest[|s.greatest| - 1] == Some(c.target)
            && |ladders| == |frontier| && Along(s, c.target, ladders, frontier)
       else FixedLadders(s, c.target, Relations(s.greatest, c.target),
                         PathTo(Relations(s.greatest, c.target), 0, |s.greatest|), ladders)
  }

  /** The client reads it to its end, with the entries visited as the log has them. */
  lemma {:induction false} SessionRead(s: Service, c: LadderProofs.Claim, frontier: seq<nat>, ladders: seq<SearchVisit>,
                                       visits: seq<Visit>, proof: CombinedTreeProof)
    returns (x: nat)
    requires Honest(s, c) && c.target <= MAX_VERSION && SearchSession(s, c, frontier, ladders, visits, proof)
    ensures ClientSearch.ResponseRead(proof, c, |s.log|) == Ok((x, LeavesRead(s.log, visits)))
  {
    if c.greatest {
      x := GreatestSession(s, c, frontier, ladders, visits, proof);
    } else {
      var rel := Relations(s.greatest, c.target);
      x := FixedSession(s, c, frontier, rel, PathTo(rel, 0, |s.greatest|), ladders, visits, proof);
    }
  }

  lemma {:induction false} LastIsSeen(s: Service, frontier: seq<nat>, ladders: seq<SearchVisit>, visits: seq<Visit>,
                                      proof: CombinedTreeProof)
    requires Session(s, frontier, ladders, visits, proof)
    ensures |s.log| - 1 in Seen(visits, |visits|)
  {
    SeenHas(visits, |visits|, |frontier| - 1);
  }

  function TimesIn(log: seq<Entry>): (ts: seq<nat>)
    ensures |ts| == |log| && forall i :: 0 <= i < |ts| ==> ts[i] == log[i].0
  {
    seq(|log|, i requires 0 <= i < |log| => log[i].0)
  }

  lemma {:induction false} SameLeaves(s: Service, c: LadderProofs.Claim)
    requires Honest(s, c)
    ensures ClientSearch.LeavesOf(TimesIn(s.log), s.maps) == LeavesOf(s.log)
  {}

  /** A client that has taken the outcome of an honest head follows the log. */
  lemma {:induction false} FollowsTaken(client: KtClient, ts: Option<nat>, updated: bool, leaves: Leaves,
                                        outcome: (Digest, Values))
    requires leaves != [] && client.Valid() && HeadTaken(client, |leaves|, ts, updated, outcome)
    requires outcome.0 == LogRoot(leaves) && TrueNodes(leaves, outcome.1)
    requires !updated ==> TrueNodes(leaves, client.retainedSubtrees)
    ensures FollowsLog(client, leaves)
  {}

  /**
   * A search answered by an honest server: the client accepts it, with an answer that is right for the maps of the log,
   * and follows the log from then on.
   */
  method FollowSearch(client: KtClient, fth: FullTreeHead, combined: CombinedTreeProof, inclusion: seq<Digest>,
                      c: LadderProofs.Claim, now: nat, ghost s: Service, ghost frontier: seq<nat>,
                      ghost ladders: seq<SearchVisit>, ghost visits: seq<Visit>, ghost before: Leaves,
                      ghost bounds: set<nat>)
    returns (r: Result<nat>)
    requires FollowsLog(client, before) && Honest(s, c) && c.target <= MAX_VERSION && Height(|s.log|) <= 62
    requires Usable(client, fth, now) && HeadSize(fth, client.state) == |s.log|
    requires SearchSession(s, c, frontier, ladders, visits, combined)
    requires Includes(before, LeavesOf(s.log), Seen(visits, |visits|), inclusion, bounds)
    requires HonestHead(client, fth, fth.headType == UPDATED, before, LeavesOf(s.log), Seen(visits, |visits|))
    modifies client
    ensures r.Ok? && ClientSearch.RightAnswer(c, s.maps, s.greatest, r.value)
    ensures FollowsLog(client, LeavesOf(s.log))
  {
    ghost var x := SessionRead(s, c, frontier, ladders, visits, combined);
    LastIsSeen(s, frontier, ladders, visits, combined);
    ReadAcceptable(client, fth, fth.headType == UPDATED, before, s.log, visits, Seen(visits, |visits|), inclusion,
                   bounds, {});
    ghost var answer := ClientSearch.Answer(client, fth, combined, inclusion, c, now);
    SameLeaves(s, c);
    r := ClientSearch.VerifySearchResponse(client, fth, combined, inclusion, c, now, TimesIn(s.log), s.maps,
                                           s.greatest);
    FollowsTaken(client, HeadTime(fth, old(client.state)), fth.headType == UPDATED, LeavesOf(s.log), answer.1);
  }
}
