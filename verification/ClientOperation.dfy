/** What every verified operation of the client does around its own walk (src/client/core.rs). */
module ClientOperation {
  import opened Digests
  import opened LogMath
  import opened LogTree
  import opened LogProofs
  import opened LogLaws
  import opened Ibst
  import opened CombinedProof
  import opened ProofReader
  import opened ClientState

  /** The size that a head claims. */
  function HeadSize(fth: FullTreeHead, state: Option<TrustedState>): nat {
    if fth.headType == SAME then (if state.Some? then state.value.treeSize else 0)
    else if fth.treeHead.Some? then fth.treeHead.value.treeSize
    else 0
  }

  lemma LogHeight(n: nat)
    requires n > 0
    ensures Log2(n) <= Height(n)
  {
    BitLengthBounds(n);
    if n > 1 {
      BitLengthBounds(n - 1);
      if BitLength(n) > BitLength(n - 1) + 1 { Pow2Monotone(BitLength(n - 1) + 1, BitLength(n) - 1); }
    }
  }

  /** The entries a reader has read are in the tree, the last one among them once the frontier is read. */
  ghost predicate ReadSome(reader: ProofReader, n: nat)
    reads reader
  {
    reader.Valid() && forall p :: p in reader.stamps ==> p < n
  }

  /** The timestamp of an entry. */
  method ReadStamp(reader: ProofReader, x: nat, n: nat) returns (r: Result<nat>)
    requires ReadSome(reader, n) && x < n
    modifies reader`tsIdx, reader`stamps, reader`trace
    ensures ReadSome(reader, n) && (r.Ok? ==> x in reader.stamps && r.value == reader.stamps[x])
    ensures Stamped(reader.proof, old(MarkOf(reader)), x) == if r.Ok? then Ok(MarkOf(reader)) else Err
  {
    r := reader.Timestamp(x);
  }

  /** The first i timestamps of a list, read in order. */
  ghost function StampedAll(proof: CombinedTreeProof, m: Mark, xs: seq<nat>, i: nat): (r: Result<Mark>)
    requires i <= |xs|
    decreases i, xs
  {
    if i == 0 then Ok(m)
    else
      var before := StampedAll(proof, m, xs, i - 1);
      if before.Err? then Err else Stamped(proof, before.value, xs[i - 1])
  }

  lemma {:induction false} StampedAllFails(proof: CombinedTreeProof, m: Mark, xs: seq<nat>, i: nat, i': nat)
    requires i <= i' <= |xs| && StampedAll(proof, m, xs, i).Err?
    ensures StampedAll(proof, m, xs, i').Err?
    decreases i'
  {
    if i < i' { StampedAllFails(proof, m, xs, i, i' - 1); }
  }

  /** The timestamps of the frontier come first. */
  method ReadFrontier(reader: ProofReader, n: nat) returns (ok: bool)
    requires n > 0 && Log2(n) < 64 && ReadSome(reader, n)
    modifies reader
    ensures ReadSome(reader, n)
    ensures StampedAll(reader.proof, old(MarkOf(reader)), Frontier(0, n), |Frontier(0, n)|) ==
            if ok then Ok(MarkOf(reader)) else Err
  {
    var xs := GetFrontier(n);
    FrontierRises(0, n);
    for i := 0 to |xs|
      invariant ReadSome(reader, n) && StampedAll(reader.proof, old(MarkOf(reader)), xs, i) == Ok(MarkOf(reader))
    {
      var read := ReadStamp(reader, xs[i], n);
      if read.Err? {
        StampedAllFails(reader.proof, old(MarkOf(reader)), xs, i + 1, |xs|);
        return false;
      }
    }
    return true;
  }

  /** An entry whose timestamp is read has one from then on. */
  lemma {:induction false} StampedAllHas(proof: CombinedTreeProof, m: Mark, xs: seq<nat>, i: nat)
    requires i <= |xs| && StampedAll(proof, m, xs, i).Ok?
    ensures forall x :: x in m.stamps || x in xs[..i] ==> x in StampedAll(proof, m, xs, i).value.stamps
    decreases i
  {
    if i > 0 {
      StampedAllHas(proof, m, xs, i - 1);
      assert xs[..i] == xs[..i - 1] + [xs[i - 1]];
    }
  }

  lemma {:induction false} FrontierHas(proof: CombinedTreeProof, m: Mark, n: nat, xs: seq<nat>)
    requires n > 0 && xs == Frontier(0, n) && StampedAll(proof, m, xs, |xs|).Ok?
    ensures n - 1 in StampedAll(proof, m, xs, |xs|).value.stamps
    ensures forall x :: x in xs ==> x in StampedAll(proof, m, xs, |xs|).value.stamps
  {
    FrontierRises(0, n);
    StampedAllHas(proof, m, xs, |xs|);
    assert xs[..|xs|] == xs;
  }

  ghost function AnsweredOne(proof: CombinedTreeProof, m: Mark, q: Request): (r: Result<Mark>) {
    if !q.wantsProof then Stamped(proof, m, q.pos)
    else if m.proofIdx >= |proof.prefixProofs| then Err
    else Ok(m.(proofIdx := m.proofIdx + 1, trace := m.trace + [q]))
  }

  /** The first i requests of a walk, answered in order. */
  ghost function Answered(proof: CombinedTreeProof, m: Mark, walk: seq<Request>, i: nat): (r: Result<Mark>)
    requires i <= |walk|
    decreases i, walk
  {
    if i == 0 then Ok(m)
    else
      var before := Answered(proof, m, walk, i - 1);
      if before.Err? then Err else AnsweredOne(proof, before.value, walk[i - 1])
  }

  lemma {:induction false} AnsweredFails(proof: CombinedTreeProof, m: Mark, walk: seq<Request>, i: nat, i': nat)
    requires i <= i' <= |walk| && Answered(proof, m, walk, i).Err?
    ensures Answered(proof, m, walk, i').Err?
    decreases i'
  {
    if i < i' { AnsweredFails(proof, m, walk, i, i' - 1); }
  }

  method AnswerRequest(reader: ProofReader, q: Request, n: nat) returns (ok: bool)
    requires ReadSome(reader, n) && q.pos < n
    modifies reader
    ensures ReadSome(reader, n)
    ensures AnsweredOne(reader.proof, old(MarkOf(reader)), q) == if ok then Ok(MarkOf(reader)) else Err
    ensures ok ==> forall x :: x in old(reader.stamps) ==> x in reader.stamps
  {
    if q.wantsProof {
      var p := reader.NextProof(q.pos);
      return p.Ok?;
    }
    var ts := ReadStamp(reader, q.pos, n);
    return ts.Ok?;
  }

  /** The requests of a walk, in order. */
  method ReadWalk(reader: ProofReader, walk: seq<Request>, n: nat) returns (ok: bool)
    requires ReadSome(reader, n) && n > 0 && n - 1 in reader.stamps && forall i :: 0 <= i < |walk| ==> walk[i].pos < n
    modifies reader
    ensures ReadSome(reader, n) && (ok ==> n - 1 in reader.stamps)
    ensures Answered(reader.proof, old(MarkOf(reader)), walk, |walk|) == if ok then Ok(MarkOf(reader)) else Err
  {
    for i := 0 to |walk|
      invariant ReadSome(reader, n) && n - 1 in reader.stamps
      invariant Answered(reader.proof, old(MarkOf(reader)), walk, i) == Ok(MarkOf(reader))
    {
      var answered := AnswerRequest(reader, walk[i], n);
      if !answered {
        AnsweredFails(reader.proof, old(MarkOf(reader)), walk, i + 1, |walk|);
        return false;
      }
    }
    return true;
  }

  /** Positions and leaf values of the entries read. */
  function PositionsOf(leaves: seq<LeafData>): (positions: seq<nat>)
    ensures |positions| == |leaves| && forall i :: 0 <= i < |leaves| ==> positions[i] == leaves[i].0
  {
    seq(|leaves|, i requires 0 <= i < |leaves| => leaves[i].0)
  }

  function HashesOf(leaves: seq<LeafData>): (hashes: seq<Digest>)
    ensures |hashes| == |leaves|
    ensures forall i :: 0 <= i < |leaves| ==> hashes[i] == LogLeaf(leaves[i].1, leaves[i].2)
  {
    seq(|leaves|, i requires 0 <= i < |leaves| => LogLeaf(leaves[i].1, leaves[i].2))
  }

  /** What a finished reading provides. */
  lemma FinishedProvides(m: Stamps, entryRoots: map<nat, Digest>, prefixRoots: seq<Digest>, n: nat, positions: seq<nat>)
    requires n > 0 && Height(n) <= 62 && n - 1 in m && Monotone(m) && (forall p :: p in m ==> p < n)
    requires Closed(m, entryRoots, prefixRoots, n).Ok?
    requires |positions| == |Closed(m, entryRoots, prefixRoots, n).value|
    requires forall i :: 0 <= i < |positions| ==> positions[i] == Closed(m, entryRoots, prefixRoots, n).value[i].0
    ensures Provides(positions, n)
  {
    FinishedIsMonotone(m, entryRoots, prefixRoots, n);
    assert positions == Listed(m.Keys, n);
  }

  // ---- what a committed operation shows of the log ----

  /** Entry k comes out with its timestamp, and with its own root if it has one. */
  lemma {:induction false} CollectedAt(ps: seq<nat>, m: Stamps, entryRoots: map<nat, Digest>, prefixRoots: seq<Digest>,
                                       n: nat, k: nat)
    requires k < n <= |ps| && (forall i :: 0 <= i < |ps| ==> ps[i] in m)
    requires Collected(ps, m, entryRoots, prefixRoots, n).Ok?
    ensures var out := Collected(ps, m, entryRoots, prefixRoots, n).value.0;
            out[k].0 == ps[k] && out[k].1 == m[ps[k]] && (ps[k] in entryRoots ==> out[k].2 == entryRoots[ps[k]])
    decreases n
  {
    if k < n - 1 { CollectedAt(ps, m, entryRoots, prefixRoots, n - 1, k); }
  }

  lemma {:induction false} PairsValue(positions: seq<nat>, hashes: seq<Digest>, n: nat, k: nat)
    requires k < n <= |positions| == |hashes|
    requires forall a, b :: 0 <= a < b < |positions| ==> positions[a] != positions[b]
    ensures positions[k] in Pairs(positions, hashes, n) && Pairs(positions, hashes, n)[positions[k]] == hashes[k]
    decreases n
  {
    if k < n - 1 { PairsValue(positions, hashes, n - 1, k); }
  }

  /** The log has an entry as it was read: with its timestamp, and with the root that its proofs fold to. */
  ghost predicate LeafShown(leaves: Leaves, m: Stamps, entryRoots: map<nat, Digest>, x: nat)
    requires x in m
  {
    && x < |leaves| && leaves[x].LogLeaf? && leaves[x].timestamp == m[x]
    && (x in entryRoots ==> leaves[x].prefixRoot == entryRoots[x])
  }

  /** Any log with this root has all entries as they were read. */
  ghost predicate ShowsLog(root: Digest, n: nat, m: Stamps, entryRoots: map<nat, Digest>) {
    forall leaves: Leaves, x: nat ::
      |leaves| == n && LogRoot(leaves) == root && x in m ==> LeafShown(leaves, m, entryRoots, x)
  }

  /** Whatever the proof: a reconstruction from what a reader has finished with shows the log. */
  lemma FinishedShows(client: KtClient, root: Digest, n: nat, m: Stamps, entryRoots: map<nat, Digest>,
                      prefixRoots: seq<Digest>, positions: seq<nat>, hashes: seq<Digest>, proof: seq<Digest>,
                      retained: Values)
    requires n > 0 && Monotone(m) && (forall p :: p in m ==> p < n) && Closed(m, entryRoots, prefixRoots, n).Ok?
    requires var out := Closed(m, entryRoots, prefixRoots, n).value;
             && |positions| == |hashes| == |out|
             && forall i :: 0 <= i < |out| ==> positions[i] == out[i].0 && hashes[i] == LogLeaf(out[i].1, out[i].2)
    requires client.Reconstructed(root, positions, hashes, n, proof, retained)
    ensures ShowsLog(root, n, m, entryRoots)
  {
    FinishedIsMonotone(m, entryRoots, prefixRoots, n);
    forall leaves: Leaves, x: nat | |leaves| == n && LogRoot(leaves) == root && x in m
      ensures LeafShown(leaves, m, entryRoots, x)
    {
      EntryShown(client, leaves, m, entryRoots, prefixRoots, positions, hashes, proof, retained, x);
    }
  }

  lemma EntryShown(client: KtClient, leaves: Leaves, m: Stamps, entryRoots: map<nat, Digest>, prefixRoots: seq<Digest>,
                   positions: seq<nat>, hashes: seq<Digest>, proof: seq<Digest>, retained: Values, x: nat)
    requires leaves != [] && (forall p :: p in m ==> p < |leaves|) && x in m
    requires Closed(m, entryRoots, prefixRoots, |leaves|).Ok?
    requires var out := Closed(m, entryRoots, prefixRoots, |leaves|).value;
             && |positions| == |hashes| == |out|
             && forall i :: 0 <= i < |out| ==> positions[i] == out[i].0 && hashes[i] == LogLeaf(out[i].1, out[i].2)
    requires client.Reconstructed(LogRoot(leaves), positions, hashes, |leaves|, proof, retained)
    ensures LeafShown(leaves, m, entryRoots, x)
  {
    var n := |leaves|;
    var ps := Listed(m.Keys, n);
    ListedKeys(m, n);
    var k := ListedAt(m.Keys, n, x);
    CollectedAt(ps, m, entryRoots, prefixRoots, |ps|, k);
    DistinctPositions(m, entryRoots, prefixRoots, n, positions);
    PairsValue(positions, hashes, |positions|, k);
    ProvidedShown(client, leaves, positions, hashes, proof, retained, k);
  }

  lemma DistinctPositions(m: Stamps, entryRoots: map<nat, Digest>, prefixRoots: seq<Digest>, n: nat,
                          positions: seq<nat>)
    requires Closed(m, entryRoots, prefixRoots, n).Ok? && |positions| == |Closed(m, entryRoots, prefixRoots, n).value|
    requires forall i :: 0 <= i < |positions| ==> positions[i] == Closed(m, entryRoots, prefixRoots, n).value[i].0
    ensures positions == Listed(m.Keys, n)
    ensures forall a, b :: 0 <= a < b < |positions| ==> positions[a] != positions[b]
  {
    ListedKeys(m, n);
  }

  lemma ListedAt(s: set<nat>, n: nat, x: nat) returns (k: nat)
    requires x in s && x < n
    ensures k < |Listed(s, n)| && Listed(s, n)[k] == x
  {
    assert x in Listed(s, n);
    k :| 0 <= k < |Listed(s, n)| && Listed(s, n)[k] == x;
  }

  /** What is provided to a reconstruction of the log's root is the log's own. */
  lemma ProvidedShown(client: KtClient, leaves: Leaves, positions: seq<nat>, hashes: seq<Digest>, proof: seq<Digest>,
                      retained: Values, k: nat)
    requires leaves != [] && |positions| == |hashes| && k < |positions| && forall i :: 0 <= i < |positions| ==>
               positions[i] < |leaves|
    requires positions[k] in Pairs(positions, hashes, |positions|)
    requires Pairs(positions, hashes, |positions|)[positions[k]] == hashes[k]
    requires client.Reconstructed(LogRoot(leaves), positions, hashes, |leaves|, proof, retained)
    ensures leaves[positions[k]] == hashes[k]
  {
    var provided := Pairs(positions, hashes, |positions|);
    PairsAt(positions, hashes, |positions|);
    var wanted :| var r := CalculatedRoot(Query(|leaves|, provided, retained, wanted), proof);
      r.Ok? && r.value.0 == LogRoot(leaves);
    ReconstructionBinds(leaves, Query(|leaves|, provided, retained, wanted), proof);
  }

  // ---- the operation ----

  /** The root that a head's proof gives over the entries read, with the values captured. */
  ghost function Outcome(client: KtClient, fth: FullTreeHead, n: nat, leaves: seq<LeafData>, inclusion: seq<Digest>,
                         extra: set<nat>): (r: Result<(Digest, Values)>)
    reads client
  {
    client.HeadOutcome(fth, n, PositionsOf(leaves), HashesOf(leaves), inclusion, extra)
  }

  /** The client may trust the head over the entries read. */
  ghost predicate Acceptable(client: KtClient, fth: FullTreeHead, n: nat, updated: bool, leaves: seq<LeafData>,
                             inclusion: seq<Digest>, extra: set<nat>)
    reads client
  {
    var outcome := Outcome(client, fth, n, leaves, inclusion, extra);
    outcome.Ok? && client.HeadFits(fth, n, updated, outcome.value.0, outcome.value.1)
  }

  /** The client trusts the outcome; an updated head is committed with what was captured. */
  ghost predicate HeadTaken(client: KtClient, n: nat, ts: Option<nat>, updated: bool, outcome: (Digest, Values))
    reads client
  {
    client.Trusts(n, outcome.0) && (updated ==> client.Committed(ts, outcome.1))
  }

  /**
   * The end of every operation: accepted exactly when the queues are used up and the head may be trusted over the
   * entries read.
   */
  method Conclude(client: KtClient, fth: FullTreeHead, n: nat, ts: Option<nat>, updated: bool, reader: ProofReader,
                  entryRoots: map<nat, Digest>, inclusion: seq<Digest>, extra: set<nat>)
    returns (r: Result<Values>)
    requires client.Valid() && ReadSome(reader, n) && n > 0 && n - 1 in reader.stamps && Height(n) <= 62
    requires updated || (client.state.Some? && n == client.state.value.treeSize)
    modifies client
    ensures client.Valid()
    ensures var leaves := Finished(reader.proof, MarkOf(reader), entryRoots, n);
            && (r.Ok? <==> leaves.Ok? && old(Acceptable(client, fth, n, updated, leaves.value, inclusion, extra)))
            && (r.Ok? ==>
                  var outcome := old(Outcome(client, fth, n, leaves.value, inclusion, extra)).value;
                  r.value == outcome.1 && HeadTaken(client, n, ts, updated, outcome))
    ensures r.Ok? ==> ShowsLog(client.state.value.rootHash, n, reader.stamps, entryRoots)
    ensures r.Err? || !updated ==>
              client.state == old(client.state) && client.retainedSubtrees == old(client.retainedSubtrees)
  {
    var leaves := reader.Finish(entryRoots, n);
    if leaves.Err? {
      return Err;
    }
    var positions, hashes := PositionsOf(leaves.value), HashesOf(leaves.value);
    FinishedProvides(reader.stamps, entryRoots, reader.proof.prefixRoots, n, positions);
    r := client.VerifyHeadAndCommit(fth, n, ts, updated, positions, hashes, inclusion, extra);
    if r.Ok? {
      FinishedShows(client, client.state.value.rootHash, n, reader.stamps, entryRoots, reader.proof.prefixRoots,
                    positions, hashes, inclusion, old(client.retainedSubtrees));
    }
  }

  /** The head is of a type and size to go on with, and recent. */
  ghost predicate Usable(client: KtClient, fth: FullTreeHead, now: nat)
    reads client
  {
    && HeadSize(fth, client.state) > 0
    && if fth.headType == SAME then client.InBounds(client.state.value.timestamp, now)
       else
         && fth.headType == UPDATED && client.InBounds(fth.treeHead.value.timestamp, now)
         && (client.state.Some? ==> client.state.value.treeSize < fth.treeHead.value.treeSize)
  }

  /** The timestamp of a head that is usable. */
  ghost function HeadTime(fth: FullTreeHead, state: Option<TrustedState>): (ts: Option<nat>)
    requires HeadSize(fth, state) > 0
  {
    Some(if fth.headType == SAME then state.value.timestamp else fth.treeHead.value.timestamp)
  }

  /** The start of every operation: the size, timestamp and type of the head. */
  method StartOperation(client: KtClient, fth: FullTreeHead, now: nat) returns (r: Result<(nat, Option<nat>, bool)>)
    ensures r.Ok? <==> Usable(client, fth, now)
    ensures r.Ok? ==>
              r.value == (HeadSize(fth, client.state), HeadTime(fth, client.state), fth.headType == UPDATED)
    ensures r.Ok? ==> r.value.2 || (client.state.Some? && r.value.0 == client.state.value.treeSize)
  {
    r := client.TreeSizeForHead(fth, now);
    if r.Err? {
      return Err;
    }
    var (n, ts, updated) := r.value;
    if n == 0 {
      return Err;
    }
    if updated && ts.Some? && !client.InBounds(ts.value, now) {
      return Err;
    }
  }

  /** A fresh reader's reading: the timestamps of the frontier, then the requests of a walk. */
  ghost function WalkRead(proof: CombinedTreeProof, walk: seq<Request>, entryRoots: EntryRoots, n: nat)
    : (r: Result<seq<LeafData>>)
    requires n > 0
  {
    var first :- StampedAll(proof, Mark(0, 0, map[], []), Frontier(0, n), |Frontier(0, n)|);
    var last :- Answered(proof, first, walk, |walk|);
    Finished(proof, last, entryRoots, n)
  }

  /**
   * An operation, for any response and any walk: accepted exactly when the head is usable, the reading uses the proof
   * up and the head may be trusted over what was read. The client's trusted state stays well formed, it grows with an
   * updated head, and nothing changes with a same head or an error.
   */
  method VerifyResponse(client: KtClient, fth: FullTreeHead, combined: CombinedTreeProof, inclusion: seq<Digest>,
                        walk: seq<Request>, entryRoots: map<nat, Digest>, extra: set<nat>, now: nat)
    returns (r: Result<Values>)
    requires client.Valid() && Height(HeadSize(fth, client.state)) <= 62
    requires forall i :: 0 <= i < |walk| ==> walk[i].pos < HeadSize(fth, client.state)
    modifies client
    ensures client.Valid()
    ensures r.Ok? <==>
            old(Usable(client, fth, now)) &&
            var n := HeadSize(fth, old(client.state));
            var leaves := WalkRead(combined, walk, entryRoots, n);
            leaves.Ok? && old(Acceptable(client, fth, n, fth.headType == UPDATED, leaves.value, inclusion, extra))
    ensures r.Ok? ==>
              var n := HeadSize(fth, old(client.state));
              var leaves := WalkRead(combined, walk, entryRoots, n).value;
              var outcome := old(Outcome(client, fth, n, leaves, inclusion, extra)).value;
              r.value == outcome.1 &&
              HeadTaken(client, n, HeadTime(fth, old(client.state)), fth.headType == UPDATED, outcome)
    ensures r.Ok? && fth.headType == UPDATED ==>
              old(client.state).None? || old(client.state).value.treeSize < client.state.value.treeSize
    ensures r.Err? || fth.headType == SAME ==>
              client.state == old(client.state) && client.retainedSubtrees == old(client.retainedSubtrees)
  {
    var head := StartOperation(client, fth, now);
    if head.Err? {
      return Err;
    }
    var (n, ts, updated) := head.value;
    LogHeight(n);
    var reader := new ProofReader(combined);
    var started := ReadFrontier(reader, n);
    if !started {
      return Err;
    }
    FrontierHas(combined, Mark(0, 0, map[], []), n, Frontier(0, n));
    var walked := ReadWalk(reader, walk, n);
    if !walked {
      return Err;
    }
    r := Conclude(client, fth, n, ts, updated, reader, entryRoots, inclusion, extra);
  }
}
