/**
 * A client's search from the response to the trusted state (src/client/core.rs, verify_search_response): what an
 * accepted answer shows of the log whose root the operator signed.
 */
module ClientSearch {
  import opened Digests
  import opened SparseTree
  import opened LogMath
  import opened LogTree
  import opened Ibst
  import opened BinaryLadder
  import opened FixedSearch
  import LadderProofs
  import opened CombinedProof
  import opened ProofReader
  import opened LogProofs
  import opened ClientState
  import opened ClientOperation
  import opened FixedReplay
  import opened FixedLaws
  import opened GreatestReplay

  // ---- the whole response ----

  /** The leaves of a log with these timestamps and maps. */
  ghost function LeavesOf(ts: seq<nat>, maps: seq<Contents>): (leaves: Leaves)
    requires |ts| == |maps|
    ensures |leaves| == |maps| && forall i :: 0 <= i < |leaves| ==> leaves[i] == LogLeaf(ts[i], Root(maps[i]))
  {
    seq(|maps|, i requires 0 <= i < |maps| => LogLeaf(ts[i], Root(maps[i])))
  }

  /**
   * The answer of a search is right: the first frontier entry whose greatest version is the target, which is the last
   * entry's too, or the terminal entry of a fixed-version search. The target is held there with the claimed commitment.
   */
  ghost predicate RightAnswer(c: LadderProofs.Claim, maps: seq<Contents>, greatest: Versions, x: nat) {
    if c.greatest then FirstGreatest(c, maps, greatest, x)
    else
      var rel := Relations(greatest, c.target);
      |maps| == |greatest| && Terminal(rel, PathTo(rel, 0, |maps|)) == Some(x) && x < |maps| && Held(c, maps[x])
  }

  /** What a search reads from a mark on: its answer, the roots of its proofs and where it leaves the reader. */
  ghost function SearchRead(proof: CombinedTreeProof, c: LadderProofs.Claim, n: nat, m: Mark)
    : (r: Result<(nat, EntryRoots, Mark)>)
    requires n > 0
  {
    if c.greatest then
      var answer :- GreatestAnswer(c, proof.prefixProofs, FrontierOf(n), m.proofIdx);
      Ok((answer.0, answer.1, m.(proofIdx := m.proofIdx + |FrontierOf(n)|, trace := [])))
    else
      var answer :- FixedRead(proof, c, n, m);
      var dates := StampedAll(proof, m, DatesAsked(n, answer.1), |DatesAsked(n, answer.1)|).value;
      Ok((answer.0, answer.1.roots, dates.(proofIdx := answer.1.idx, trace := [])))
  }

  /** Where a greatest-version search leaves the reader. */
  lemma {:induction false} GreatestLeaves(proof: CombinedTreeProof, c: LadderProofs.Claim, n: nat, m: Mark,
                                          answer: Result<(nat, EntryRoots)>, after: Mark)
    requires n > 0 && c.greatest && GreatestAnswer(c, proof.prefixProofs, FrontierOf(n), m.proofIdx) == answer
    requires answer.Ok? ==> after.(trace := []) == m.(proofIdx := m.proofIdx + |FrontierOf(n)|, trace := [])
    ensures SearchRead(proof, c, n, m) ==
            if answer.Ok? then Ok((answer.value.0, answer.value.1, after.(trace := []))) else Err
  {}

  /** Where a fixed-version search that has this trail leaves the reader. */
  lemma {:induction false} FixedLeaves(proof: CombinedTreeProof, c: LadderProofs.Claim, n: nat, m: Mark,
                                       answer: (nat, Trail), after: Mark)
    requires n > 0 && !c.greatest && FixedRead(proof, c, n, m) == Ok(answer)
    requires HasDates(proof, m, DatesAsked(n, answer.1), after.tsIdx, after.stamps)
    requires answer.1.idx == after.proofIdx
    ensures SearchRead(proof, c, n, m) == Ok((answer.0, answer.1.roots, after.(trace := [])))
  {}

  method ReplaySearch(reader: ProofReader, c: LadderProofs.Claim, n: nat) returns (r: Result<(nat, EntryRoots)>)
    requires ReadSome(reader, n) && n > 0 && Log2(n) < 64 && c.target <= MAX_VERSION && n - 1 in reader.stamps
    requires forall x :: x in FrontierOf(n) ==> x in reader.stamps
    modifies reader
    ensures ReadSome(reader, n)
    ensures r.Ok? ==> n - 1 in reader.stamps && r.value.1.Keys <= reader.stamps.Keys
    ensures SearchRead(reader.proof, c, n, old(MarkOf(reader))) ==
            if r.Ok? then Ok((r.value.0, r.value.1, MarkOf(reader).(trace := []))) else Err
  {
    ghost var m := MarkOf(reader);
    if c.greatest {
      r := ReplayGreatestSearch(reader, c, n);
      GreatestLeaves(reader.proof, c, n, m, r, MarkOf(reader));
      return;
    }
    var answer := ReplayFixedSearch(reader, c, n);
    if answer.Err? {
      return Err;
    }
    FixedLeaves(reader.proof, c, n, m, answer.value, MarkOf(reader));
    return Ok((answer.value.0, answer.value.1.roots));
  }

  /** Whatever the proofs: an answer whose roots are those of the log's maps is right for those maps. */
  lemma {:induction false} ReadIsRight(proof: CombinedTreeProof, c: LadderProofs.Claim, n: nat, m: Mark,
                                       maps: seq<Contents>, greatest: Versions)
    requires c.target <= MAX_VERSION && Entries(c, maps, greatest) && n == |maps| > 0
    requires SearchRead(proof, c, n, m).Ok? && RootsOfMaps(maps, SearchRead(proof, c, n, m).value.1)
    ensures RightAnswer(c, maps, greatest, SearchRead(proof, c, n, m).value.0)
  {
    if c.greatest {
      AcceptedGreatestSearch(c, proof.prefixProofs, maps, greatest, n, m.proofIdx, FrontierOf(n));
    } else {
      AcceptedFixedSearch(c, proof.prefixProofs, maps, greatest, n, m.proofIdx);
    }
  }

  /** The roots of a committed operation's proofs are those of the log's maps. */
  lemma {:induction false} ShownRoots(root: Digest, stamps: Stamps, roots: EntryRoots, ts: seq<nat>,
                                      maps: seq<Contents>)
    requires |ts| == |maps| && root == LogRoot(LeavesOf(ts, maps)) && ShowsLog(root, |maps|, stamps, roots)
    requires roots.Keys <= stamps.Keys
    ensures RootsOfMaps(maps, roots)
  {
    forall x | x in roots
      ensures x < |maps| && roots[x] == Root(maps[x])
    {
      assert LeafShown(LeavesOf(ts, maps), stamps, roots, x);
    }
  }

  /** A fresh reader's reading of a response: the timestamps of the frontier, then the search. */
  ghost function FreshRead(proof: CombinedTreeProof, c: LadderProofs.Claim, n: nat)
    : (r: Result<(nat, EntryRoots, Mark)>)
    requires n > 0
  {
    var first :- StampedAll(proof, Mark(0, 0, map[], []), FrontierOf(n), |FrontierOf(n)|);
    SearchRead(proof, c, n, first)
  }

  /** The same with the end of the reading: the answer and the entries read. */
  ghost function ResponseRead(proof: CombinedTreeProof, c: LadderProofs.Claim, n: nat)
    : (r: Result<(nat, seq<LeafData>)>)
    requires n > 0
  {
    var answer :- FreshRead(proof, c, n);
    var leaves :- Finished(proof, answer.2, answer.1, n);
    Ok((answer.0, leaves))
  }

  /** What a committed search shows: if the root is that of a log of maps, the answer is right for those. */
  lemma {:induction false} ShownRight(root: Digest, proof: CombinedTreeProof, c: LadderProofs.Claim, n: nat,
                                      stamps: Stamps, roots: EntryRoots, ts: seq<nat>, maps: seq<Contents>,
                                      greatest: Versions)
    requires c.target <= MAX_VERSION && n == |maps| == |ts| > 0 && FreshRead(proof, c, n).Ok?
    requires roots == FreshRead(proof, c, n).value.1 && roots.Keys <= stamps.Keys
    requires ShowsLog(root, n, stamps, roots)
    ensures root == LogRoot(LeavesOf(ts, maps)) && Entries(c, maps, greatest) ==>
              RightAnswer(c, maps, greatest, FreshRead(proof, c, n).value.0)
  {
    if root == LogRoot(LeavesOf(ts, maps)) && Entries(c, maps, greatest) {
      var first := StampedAll(proof, Mark(0, 0, map[], []), FrontierOf(n), |FrontierOf(n)|).value;
      ShownRoots(root, stamps, roots, ts, maps);
      ReadIsRight(proof, c, n, first, maps, greatest);
    }
  }

  method ReadResponse(combined: CombinedTreeProof, c: LadderProofs.Claim, n: nat)
    returns (reader: ProofReader, r: Result<(nat, EntryRoots)>)
    requires n > 0 && Log2(n) < 64 && c.target <= MAX_VERSION
    ensures fresh(reader) && reader.proof == combined && ReadSome(reader, n)
    ensures r.Ok? ==> n - 1 in reader.stamps && r.value.1.Keys <= reader.stamps.Keys
    ensures FreshRead(combined, c, n) ==
            if r.Ok? then Ok((r.value.0, r.value.1, MarkOf(reader).(trace := []))) else Err
  {
    reader := new ProofReader(combined);
    var started := ReadFrontier(reader, n);
    if !started {
      return reader, Err;
    }
    FrontierHas(combined, Mark(0, 0, map[], []), n, FrontierOf(n));
    r := ReplaySearch(reader, c, n);
  }

  /** The client has reason to accept the response. */
  ghost predicate Accepts(client: KtClient, fth: FullTreeHead, combined: CombinedTreeProof, inclusion: seq<Digest>,
                          c: LadderProofs.Claim, now: nat)
    reads client
  {
    Usable(client, fth, now) &&
    var n := HeadSize(fth, client.state);
    var read := ResponseRead(combined, c, n);
    read.Ok? && Acceptable(client, fth, n, fth.headType == UPDATED, read.value.1, inclusion, {})
  }

  /** The answer of a response that is accepted, and the root and values that come of its head. */
  ghost function Answer(client: KtClient, fth: FullTreeHead, combined: CombinedTreeProof, inclusion: seq<Digest>,
                        c: LadderProofs.Claim, now: nat)
    : (answer: (nat, (Digest, Values)))
    requires Accepts(client, fth, combined, inclusion, c, now)
    reads client
  {
    var n := HeadSize(fth, client.state);
    var read := ResponseRead(combined, c, n).value;
    (read.0, Outcome(client, fth, n, read.1, inclusion, {}).value)
  }

  /**
   * `verify_search_response`, for any response: accepted exactly when the head is usable, the search has an answer that
   * uses the proof up, and the head may be trusted over what was read. The trusted state is kept as by every
   * operation, and if the root that is trusted afterwards is that of a log of maps, the answer is right for those maps.
   */
  method VerifySearchResponse(client: KtClient, fth: FullTreeHead, combined: CombinedTreeProof, inclusion: seq<Digest>,
                              c: LadderProofs.Claim, now: nat, ghost ts: seq<nat>, ghost maps: seq<Contents>,
                              ghost greatest: Versions)
    returns (r: Result<nat>)
    requires client.Valid() && Height(HeadSize(fth, client.state)) <= 62 && c.target <= MAX_VERSION
    requires |ts| == |maps| == |greatest| == HeadSize(fth, client.state)
    modifies client
    ensures client.Valid()
    ensures r.Ok? <==> old(Accepts(client, fth, combined, inclusion, c, now))
    ensures r.Ok? ==>
              var answer := old(Answer(client, fth, combined, inclusion, c, now));
              r.value == answer.0 &&
              HeadTaken(client, |maps|, HeadTime(fth, old(client.state)), fth.headType == UPDATED, answer.1)
    ensures r.Ok? && fth.headType == UPDATED ==>
              old(client.state).None? || old(client.state).value.treeSize < client.state.value.treeSize
    ensures r.Err? || fth.headType == SAME ==>
              client.state == old(client.state) && client.retainedSubtrees == old(client.retainedSubtrees)
    ensures r.Ok? && client.state.value.rootHash == LogRoot(LeavesOf(ts, maps)) && Entries(c, maps, greatest) ==>
              RightAnswer(c, maps, greatest, r.value)
  {
    var head := StartOperation(client, fth, now);
    if head.Err? {
      return Err;
    }
    var (n, headTime, updated) := head.value;
    LogHeight(n);
    var reader, answer := ReadResponse(combined, c, n);
    if answer.Err? {
      return Err;
    }
    var concluded := Conclude(client, fth, n, headTime, updated, reader, answer.value.1, inclusion, {});
    if concluded.Err? {
      return Err;
    }
    ShownRight(client.state.value.rootHash, combined, c, n, reader.stamps, answer.value.1, ts, maps, greatest);
    return Ok(answer.value.0);
  }
}
