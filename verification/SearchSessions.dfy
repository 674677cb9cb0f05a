/**
 * Searches from end to end: the sessions of the server (src/tree/traversal.rs, src/tree/walker.rs) and what the
 * client's reader makes of them (src/client/core.rs).
 */
module SearchSessions {
  import opened Digests
  import opened SparseTree
  import opened PrefixProofs
  import opened LogMath
  import opened StoredLog
  import opened Ibst
  import opened BinaryLadder
  import opened FixedSearch
  import opened GreatestSearch
  import opened CombinedProof
  import opened ProofReader
  import opened ClientOperation
  import opened FixedLaws

  // ---- the server ----

  /** The server's ladder for an entry and these versions. */
  type ProofAt = (nat, seq<nat>) -> PrefixProof

  function LadderVisit(v: SearchVisit, proofAt: ProofAt): (visit: Visit) {
    Visit(v.pos, Some(proofAt(v.pos, v.versions)))
  }

  /** A session: the timestamps of the frontier, then the ladders of the search. */
  function SessionOf(frontier: seq<nat>, ladders: seq<SearchVisit>, proofAt: ProofAt): (visits: seq<Visit>)
    ensures |visits| == |frontier| + |ladders|
    ensures forall i :: 0 <= i < |frontier| ==> visits[i] == Visit(frontier[i], None)
    ensures forall i :: |frontier| <= i < |visits| ==> visits[i] == LadderVisit(ladders[i - |frontier|], proofAt)
  {
    seq(|frontier|, i requires 0 <= i < |frontier| => Visit(frontier[i], None))
    + seq(|ladders|, i requires 0 <= i < |ladders| => LadderVisit(ladders[i], proofAt))
  }

  /** The ladders of a fixed-version search: those of its path, and the last lookup where no entry is equal. */
  function FixedVisits(greatest: Versions, target: nat): (ladders: seq<SearchVisit>) {
    var rel := Relations(greatest, target);
    var path := PathTo(rel, 0, |greatest|);
    VisitsOf(greatest, target, path) +
    if EqualAt(rel, path).None? && LeastGreater(rel, path).Some?
    then [SearchVisit(LeastGreater(rel, path).value, [target])] else []
  }

  lemma {:induction false} LaddersInLog(frontier: seq<nat>, ladders: seq<SearchVisit>, proofAt: ProofAt, n: nat)
    requires (forall i :: 0 <= i < |frontier| ==> frontier[i] < n) && forall v :: v in ladders ==> v.pos < n
    ensures InLog(SessionOf(frontier, ladders, proofAt), n)
  {
    forall i | 0 <= i < |frontier| + |ladders|
      ensures SessionOf(frontier, ladders, proofAt)[i].pos < n
    {
      if i >= |frontier| { assert ladders[i - |frontier|] in ladders; }
    }
  }

  lemma {:induction false} FixedInLog(greatest: Versions, target: nat)
    ensures forall v :: v in FixedVisits(greatest, target) ==> v.pos < |greatest|
  {
    var rel := Relations(greatest, target);
    LeastInside(rel, PathTo(rel, 0, |greatest|));
  }

  method ServeLadders(log: seq<Entry>, ladders: seq<SearchVisit>, proofAt: ProofAt)
    returns (combined: CombinedTreeProof)
    requires |log| > 0 && Log2(|log|) < 64 && forall v :: v in ladders ==> v.pos < |log|
    ensures var visits := SessionOf(FrontierOf(|log|), ladders, proofAt);
            InLog(visits, |log|) && combined == Finalized(log, visits)
  {
    var frontier := GetFrontier(|log|);
    assert frontier == FrontierOf(|log|);
    LaddersInLog(frontier, ladders, proofAt, |log|);
    var served := Serve(log, SessionOf(frontier, ladders, proofAt));
    combined := served.value;
  }

  /** The server's answer to a search for the greatest version, with its session's proof. */
  method ServeGreatestSearch(log: seq<Entry>, greatest: Versions, commitments: Commitments, proofAt: ProofAt)
    returns (r: Result<(nat, seq<LadderStep>, CombinedTreeProof)>)
    requires |log| == |greatest| > 0 && Log2(|log|) < 64 && Rises(greatest)
    requires forall x :: 0 <= x < |greatest| && greatest[x].Some? ==> greatest[x].value <= MAX_VERSION
    ensures r.Err? <==> greatest[|greatest| - 1].None?
    ensures r.Ok? ==>
              var visits := SessionOf(FrontierOf(|log|), VisitsOf(greatest, r.value.0, FrontierOf(|log|)), proofAt);
              && greatest[|greatest| - 1] == Some(r.value.0)
              && CompleteLadder(r.value.1, BaseLadder(r.value.0), r.value.0, commitments)
              && InLog(visits, |log|) && r.value.2 == Finalized(log, visits)
  {
    var answer, ladders := TraverseGreatestSearch(greatest, |greatest|, commitments);
    if answer.Err? {
      return Err;
    }
    var combined := ServeLadders(log, ladders, proofAt);
    return Ok((answer.value.0, answer.value.1, combined));
  }

  /** The server's answer to a search for one version, with its session's proof. */
  method ServeFixedSearch(log: seq<Entry>, greatest: Versions, target: nat, history: set<nat>, proofAt: ProofAt)
    returns (r: Result<(nat, CombinedTreeProof)>)
    requires |log| == |greatest| > 0 && Log2(|log|) < 64
    requires forall x :: 0 <= x < |greatest| && greatest[x].Some? ==> greatest[x].value <= MAX_VERSION
    ensures var answer := ServerAnswer(greatest, target, history);
            var visits := SessionOf(FrontierOf(|log|), FixedVisits(greatest, target), proofAt);
            && (r.Ok? <==> answer.Ok?)
            && (r.Ok? ==> r.value.0 == answer.value && InLog(visits, |log|) && r.value.1 == Finalized(log, visits))
  {
    var answer, ladders := TraverseFixedSearch(greatest, |greatest|, target, history);
    if answer.Err? {
      return Err;
    }
    assert ladders == FixedVisits(greatest, target);
    FixedInLog(greatest, target);
    var combined := ServeLadders(log, ladders, proofAt);
    return Ok((answer.value, combined));
  }

  // ---- the timestamps of a session ----

  /** A reader that has the timestamps of the first k visits. */
  ghost predicate Timed(log: seq<Entry>, visits: seq<Visit>, k: nat, m: Mark) {
    && k <= |visits| && m.stamps.Keys == Seen(visits, k) && TrueStamps(log, m.stamps)
    && m.tsIdx == |FirstSeen(visits, k)|
  }

  /** A reading that has come to visit k, with no proof taken. */
  ghost predicate TimedTo(log: seq<Entry>, visits: seq<Visit>, k: nat, proofIdx: nat, r: Result<Mark>) {
    r.Ok? && Timed(log, visits, k, r.value) && r.value.proofIdx == proofIdx
  }

  /** A session over a log whose timestamps do not fall, and its proof. */
  ghost predicate Serves(log: seq<Entry>, visits: seq<Visit>, proof: CombinedTreeProof) {
    RisingLog(log) && InLog(visits, |log|) && proof == Finalized(log, visits)
  }

  lemma {:induction false} TimedNext(log: seq<Entry>, visits: seq<Visit>, proof: CombinedTreeProof, k: nat, m: Mark,
                                     x: nat, next: nat)
    requires Serves(log, visits, proof) && Timed(log, visits, k, m) && k < |visits| && visits[k].pos == x
    requires next == k + 1
    ensures TimedTo(log, visits, next, m.proofIdx, Stamped(proof, m, x))
  {
    NextInQueue(log, visits, k);
    TrueStampsFit(log, m.stamps, x);
  }

  /** The visits from k on are for these entries. */
  ghost predicate ComeFrom(visits: seq<Visit>, k: nat, xs: seq<nat>) {
    k + |xs| <= |visits| && forall j :: 0 <= j < |xs| ==> visits[k + j].pos == xs[j]
  }

  lemma {:induction false} ComesAt(visits: seq<Visit>, k: nat, xs: seq<nat>, i: nat, at: nat)
    requires ComeFrom(visits, k, xs) && i < |xs| && at == k + i
    ensures at < |visits| && visits[at].pos == xs[i]
  {}

  /** Readers by the number of visits whose timestamps they have. */
  type Marks = iset<(nat, Mark)>

  ghost predicate In(marks: Marks, k: nat, m: Mark) {
    (k, m) in marks
  }

  /** From a reader at visit k, reading its timestamp leads to one at the next. */
  ghost predicate LeadsOn(marks: Marks, proof: CombinedTreeProof, visits: seq<Visit>, k: nat, m: Mark) {
    In(marks, k, m) && k < |visits| ==>
      Stamped(proof, m, visits[k].pos).Ok? && In(marks, k + 1, Stamped(proof, m, visits[k].pos).value)
  }

  lemma {:induction false} AllLead(marks: Marks, proof: CombinedTreeProof, visits: seq<Visit>, k: nat, m: Mark,
                                   xs: seq<nat>, i: nat, end: nat)
    requires (forall j: nat, m: Mark :: LeadsOn(marks, proof, visits, j, m)) && In(marks, k, m)
    requires i <= |xs| && end == k + i && ComeFrom(visits, k, xs)
    ensures StampedAll(proof, m, xs, i).Ok? && In(marks, end, StampedAll(proof, m, xs, i).value)
    decreases i
  {
    if i > 0 {
      AllLead(marks, proof, visits, k, m, xs, i - 1, end - 1);
      ComesAt(visits, k, xs, i - 1, end - 1);
      assert LeadsOn(marks, proof, visits, end - 1, StampedAll(proof, m, xs, i - 1).value);
    }
  }

  /** The readers along a session that have taken this many proofs. */
  ghost function MarksAlong(log: seq<Entry>, visits: seq<Visit>, proofIdx: nat): (marks: Marks) {
    iset k: nat, m: Mark | TimedTo(log, visits, k, proofIdx, Ok(m)) :: (k, m)
  }

  lemma {:induction false} SessionLeads(log: seq<Entry>, visits: seq<Visit>, proof: CombinedTreeProof, proofIdx: nat)
    requires Serves(log, visits, proof)
    ensures forall k: nat, m: Mark :: LeadsOn(MarksAlong(log, visits, proofIdx), proof, visits, k, m)
  {
    forall k: nat, m: Mark
      ensures LeadsOn(MarksAlong(log, visits, proofIdx), proof, visits, k, m)
    {
      if In(MarksAlong(log, visits, proofIdx), k, m) && k < |visits| {
        TimedNext(log, visits, proof, k, m, visits[k].pos, k + 1);
      }
    }
  }

  lemma {:induction false} InMarks(log: seq<Entry>, visits: seq<Visit>, proofIdx: nat, k: nat, m: Mark)
    ensures In(MarksAlong(log, visits, proofIdx), k, m) <==> TimedTo(log, visits, k, proofIdx, Ok(m))
  {}

  /** A list of the next entries of the session can all be read. */
  lemma {:induction false} TimedAll(log: seq<Entry>, visits: seq<Visit>, proof: CombinedTreeProof, k: nat, m: Mark,
                                    xs: seq<nat>, end: nat, r: Result<Mark>)
    requires Serves(log, visits, proof) && Timed(log, visits, k, m) && end == k + |xs|
    requires ComeFrom(visits, k, xs) && r == StampedAll(proof, m, xs, |xs|)
    ensures TimedTo(log, visits, end, m.proofIdx, r)
  {
    SessionLeads(log, visits, proof, m.proofIdx);
    InMarks(log, visits, m.proofIdx, k, m);
    AllLead(MarksAlong(log, visits, m.proofIdx), proof, visits, k, m, xs, |xs|, end);
    InMarks(log, visits, m.proofIdx, end, r.value);
  }

  lemma {:induction false} StampedFirst(proof: CombinedTreeProof, m: Mark, x: nat, first: Mark, xs: seq<nat>, i: nat)
    requires 0 < i <= |xs| + 1 && Stamped(proof, m, x) == Ok(first)
    ensures StampedAll(proof, m, [x] + xs, i) == StampedAll(proof, first, xs, i - 1)
    decreases i
  {
    if i > 1 { StampedFirst(proof, m, x, first, xs, i - 1); }
  }

  lemma {:induction false} StampedKnown(proof: CombinedTreeProof, log: seq<Entry>, visits: seq<Visit>, k: nat, m: Mark,
                                        x: nat)
    requires x in m.stamps && Timed(log, visits, k, m)
    ensures Stamped(proof, m, x).Ok? && Timed(log, visits, k, Stamped(proof, m, x).value)
    ensures Stamped(proof, m, x).value.proofIdx == m.proofIdx
  {}

  /** The same with an entry before them whose timestamp is known. */
  lemma {:induction false} TimedAfter(log: seq<Entry>, visits: seq<Visit>, proof: CombinedTreeProof, k: nat, m: Mark,
                                      x: nat, xs: seq<nat>, end: nat, r: Result<Mark>)
    requires Serves(log, visits, proof) && Timed(log, visits, k, m) && end == k + |xs|
    requires x in m.stamps && ComeFrom(visits, k, xs) && r == StampedAll(proof, m, [x] + xs, |[x] + xs|)
    ensures TimedTo(log, visits, end, m.proofIdx, r)
  {
    StampedKnown(proof, log, visits, k, m, x);
    var first := Stamped(proof, m, x).value;
    TimedAll(log, visits, proof, k, first, xs, end, StampedAll(proof, first, xs, |xs|));
    StampedFirst(proof, m, x, first, xs, |xs| + 1);
  }

  lemma {:induction false} TimedOnward(log: seq<Entry>, visits: seq<Visit>, k: nat, k': nat, proofIdx: nat,
                                       r: Result<Mark>)
    requires TimedTo(log, visits, k, proofIdx, r) && k' <= |visits|
    requires Seen(visits, k') == Seen(visits, k) && FirstSeen(visits, k') == FirstSeen(visits, k)
    ensures TimedTo(log, visits, k', proofIdx, r)
  {}

  /** Visits of entries seen before change no timestamps. */
  lemma {:induction false} SeenAgain(visits: seq<Visit>, k: nat, k': nat)
    requires k <= k' <= |visits| && forall j :: k <= j < k' ==> visits[j].pos in Seen(visits, k)
    ensures Seen(visits, k') == Seen(visits, k) && FirstSeen(visits, k') == FirstSeen(visits, k)
    decreases k'
  {
    if k < k' {
      SeenAgain(visits, k, k' - 1);
      assert visits[k' - 1].pos in Seen(visits, k);
    }
  }

  lemma {:induction false} SeenHas(visits: seq<Visit>, k: nat, j: nat)
    requires j < k <= |visits|
    ensures visits[j].pos in Seen(visits, k)
    decreases k
  {
    if j < k - 1 { SeenHas(visits, k - 1, j); }
  }

  // ---- its proofs ----

  lemma {:induction false} NoProofsYet(visits: seq<Visit>, k: nat)
    requires k <= |visits| && forall j :: 0 <= j < k ==> visits[j].proof.None?
    ensures ProofsOf(visits, k) == [] && Proved(visits, k) == {}
    decreases k
  {
    if k > 0 { NoProofsYet(visits, k - 1); }
  }

  /** After the frontier, each visit takes the next proof. */
  lemma {:induction false} LadderProofsOf(visits: seq<Visit>, f: nat, k: nat)
    requires f <= k <= |visits| && forall j :: 0 <= j < |visits| ==> (visits[j].proof.Some? <==> f <= j)
    ensures |ProofsOf(visits, k)| == k - f
    ensures forall j :: f <= j < k ==> ProofsOf(visits, k)[j - f] == (visits[j].pos, visits[j].proof.value)
    decreases k
  {
    if k == f { NoProofsYet(visits, k); } else { LadderProofsOf(visits, f, k - 1); }
  }

  /** The proofs of a session are those of its ladders, in order. */
  lemma {:induction false} SessionProofs(log: seq<Entry>, frontier: seq<nat>, ladders: seq<SearchVisit>,
                                         proofAt: ProofAt, visits: seq<Visit>, proof: CombinedTreeProof)
    requires visits == SessionOf(frontier, ladders, proofAt) && Serves(log, visits, proof)
    ensures |proof.prefixProofs| == |ladders|
    ensures forall j :: 0 <= j < |ladders| ==> proof.prefixProofs[j] == proofAt(ladders[j].pos, ladders[j].versions)
  {
    var f := |frontier|;
    LadderProofsOf(visits, f, |visits|);
    forall j | 0 <= j < |ladders|
      ensures proof.prefixProofs[j] == proofAt(ladders[j].pos, ladders[j].versions)
    {
      assert visits[f + j] == LadderVisit(ladders[j], proofAt);
      assert ProofsOf(visits, |visits|)[(f + j) - f] == (visits[f + j].pos, visits[f + j].proof.value);
    }
  }

  /** The entries that these visits are for. */
  function EntriesVisited(ladders: seq<SearchVisit>, k: nat): (s: set<nat>)
    requires k <= |ladders|
    decreases k, ladders
  {
    if k == 0 then {} else EntriesVisited(ladders, k - 1) + {ladders[k - 1].pos}
  }

  /** The entries proved are those with ladders. */
  lemma {:induction false} SessionProved(frontier: seq<nat>, ladders: seq<SearchVisit>, proofAt: ProofAt,
                                         visits: seq<Visit>, k: nat, end: nat)
    requires visits == SessionOf(frontier, ladders, proofAt) && k <= |ladders| && end == |frontier| + k
    ensures Proved(visits, end) == EntriesVisited(ladders, k)
    decreases k
  {
    if k == 0 {
      NoProofsYet(visits, |frontier|);
    } else {
      SessionProved(frontier, ladders, proofAt, visits, k - 1, end - 1);
      assert visits[|frontier| + (k - 1)] == LadderVisit(ladders[k - 1], proofAt);
    }
  }

  /** The entries that a session visits, as the log has them. */
  ghost function LeavesRead(log: seq<Entry>, visits: seq<Visit>): (leaves: seq<LeafData>) {
    LeavesAt(log, Listed(Seen(visits, |visits|), |log|))
  }

  /** At the end of a session with its queues used up, the entries come out as the log has them. */
  lemma {:induction false} SessionFinishes(log: seq<Entry>, maps: seq<Contents>, visits: seq<Visit>,
                                           proof: CombinedTreeProof, m: Mark, roots: EntryRoots)
    requires Serves(log, visits, proof) && Timed(log, visits, |visits|, m) && m.proofIdx == |proof.prefixProofs|
    requires roots.Keys == Proved(visits, |visits|) && RootsOfMaps(maps, roots)
    requires |maps| == |log| && forall x :: 0 <= x < |log| ==> log[x].1 == Root(maps[x])
    ensures Finished(proof, m, roots, |log|) == Ok(LeavesRead(log, visits))
  {
    SeenInLog(visits, |log|, |visits|);
    ClosedIsTrue(log, visits, m.stamps, roots);
  }
}
