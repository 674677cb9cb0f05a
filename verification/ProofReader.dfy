/** The client's reader of a combined proof (src/client/core.rs, ProofReader). */
module ProofReader {
  import opened Digests
  import opened PrefixProofs
  import opened StoredLog
  import opened CombinedProof

  type Stamps = map<nat, nat>

  /** A request of a walk: the timestamp of an entry, or its proof. */
  datatype Request = Request(pos: nat, wantsProof: bool)

  function Stamp(x: nat): Request {
    Request(x, false)
  }

  function Proof(x: nat): Request {
    Request(x, true)
  }

  ghost predicate Monotone(m: Stamps) {
    forall p, q :: p in m && q in m && p < q ==> m[p] <= m[q]
  }

  /** A timestamp lies between those of the entries to the left and to the right. */
  ghost predicate Fits(m: Stamps, pos: nat, ts: nat) {
    forall p :: p in m ==> (p < pos ==> m[p] <= ts) && (p > pos ==> ts <= m[p])
  }

  method LastBefore(m: Stamps, pos: nat) returns (r: Option<nat>)
    ensures r.Some? ==> r.value in m && r.value < pos && forall q :: q in m && q < pos ==> q <= r.value
    ensures r.None? ==> forall q :: q in m ==> q >= pos
  {
    r := None;
    var rest := m.Keys;
    while exists p :: p in rest
      invariant rest <= m.Keys
      invariant r.Some? ==> r.value in m && r.value < pos
      invariant forall q :: q in m && q !in rest && q < pos ==> r.Some? && q <= r.value
      decreases rest
    {
      var p :| p in rest;
      if p < pos && (r.None? || r.value < p) {
        r := Some(p);
      }
      rest := rest - {p};
    }
  }

  method FirstAfter(m: Stamps, pos: nat) returns (r: Option<nat>)
    ensures r.Some? ==> r.value in m && r.value > pos && forall q :: q in m && q > pos ==> q >= r.value
    ensures r.None? ==> forall q :: q in m ==> q <= pos
  {
    r := None;
    var rest := m.Keys;
    while exists p :: p in rest
      invariant rest <= m.Keys
      invariant r.Some? ==> r.value in m && r.value > pos
      invariant forall q :: q in m && q !in rest && q > pos ==> r.Some? && q >= r.value
      decreases rest
    {
      var p :| p in rest;
      if p > pos && (r.None? || r.value > p) {
        r := Some(p);
      }
      rest := rest - {p};
    }
  }

  /** The entries of an ordered map, in order. */
  method SortedKeys(m: Stamps, ghost n: nat) returns (ps: seq<nat>)
    requires forall p :: p in m ==> p < n
    ensures ps == Listed(m.Keys, n)
  {
    var unsorted: seq<nat> := [];
    var rest := m.Keys;
    while exists p :: p in rest
      invariant rest <= m.Keys
      invariant forall x :: x in unsorted <==> x in m && x !in rest
      decreases rest
    {
      var p :| p in rest;
      unsorted := unsorted + [p];
      rest := rest - {p};
    }
    ps := SortDistinct(unsorted);
    IncreasingUnique(ps, Listed(m.Keys, n));
  }

  type EntryRoots = map<nat, Digest>

  /** `record_entry_root`: two proofs of an entry must fold to one root. */
  function Record(roots: EntryRoots, x: nat, root: Option<Digest>): (r: Result<EntryRoots>) {
    if root.None? || (x in roots && roots[x] != root.value) then Err else Ok(roots[x := root.value])
  }

  type LeafData = (nat, nat, Digest)

  /** The first k entries with their roots, and how many of the proof's prefix roots they take. */
  function Collected(ps: seq<nat>, m: Stamps, entryRoots: map<nat, Digest>, prefixRoots: seq<Digest>, k: nat)
    : (r: Result<(seq<LeafData>, nat)>)
    requires k <= |ps| && forall i :: 0 <= i < |ps| ==> ps[i] in m
    ensures r.Ok? ==> |r.value.0| == k && r.value.1 <= |prefixRoots|
    ensures r.Ok? ==> forall i :: 0 <= i < k ==> r.value.0[i].0 == ps[i] && r.value.0[i].1 == m[ps[i]]
    decreases k, ps
  {
    if k == 0 then Ok(([], 0))
    else
      var before := Collected(ps, m, entryRoots, prefixRoots, k - 1);
      if before.Err? then Err
      else
        var (out, used) := before.value;
        var p := ps[k - 1];
        if p in entryRoots then Ok((out + [(p, m[p], entryRoots[p])], used))
        else if used < |prefixRoots| then Ok((out + [(p, m[p], prefixRoots[used])], used + 1))
        else Err
  }

  lemma {:induction false} CollectedFails(ps: seq<nat>, m: Stamps, entryRoots: map<nat, Digest>,
                                          prefixRoots: seq<Digest>, k: nat, k': nat)
    requires k <= k' <= |ps| && forall i :: 0 <= i < |ps| ==> ps[i] in m
    requires Collected(ps, m, entryRoots, prefixRoots, k).Err?
    ensures Collected(ps, m, entryRoots, prefixRoots, k').Err?
    decreases k'
  {
    if k < k' { CollectedFails(ps, m, entryRoots, prefixRoots, k, k' - 1); }
  }

  class ProofReader {
    const proof: CombinedTreeProof
    var tsIdx: nat
    var proofIdx: nat
    var stamps: Stamps
    /** The requests answered so far, in order. */
    ghost var trace: seq<Request>

    ghost predicate Valid()
      reads this
    {
      tsIdx <= |proof.timestamps| && proofIdx <= |proof.prefixProofs| && Monotone(stamps)
    }

    constructor (p: CombinedTreeProof)
      ensures Valid() && proof == p && tsIdx == 0 && proofIdx == 0 && stamps == map[] && trace == []
    {
      proof, tsIdx, proofIdx, stamps, trace := p, 0, 0, map[], [];
    }

    /** `timestamp`: the one stamps before, or the next of the queue if it fits. */
    method Timestamp(pos: nat) returns (r: Result<nat>)
      requires Valid()
      modifies `tsIdx, `stamps, `trace
      ensures Valid() && trace == if r.Ok? then old(trace) + [Request(pos, false)] else old(trace)
      ensures pos in old(stamps) ==> r == Ok(old(stamps)[pos]) && tsIdx == old(tsIdx) && stamps == old(stamps)
      ensures pos !in old(stamps) && old(tsIdx) == |proof.timestamps| ==>
                r.Err? && tsIdx == old(tsIdx) && stamps == old(stamps)
      ensures pos !in old(stamps) && old(tsIdx) < |proof.timestamps| ==>
                var ts := proof.timestamps[old(tsIdx)];
                tsIdx == old(tsIdx) + 1 &&
                if Fits(old(stamps), pos, ts) then r == Ok(ts) && stamps == old(stamps)[pos := ts]
                else r.Err? && stamps == old(stamps)
    {
      if pos in stamps {
        trace := trace + [Request(pos, false)];
        return Ok(stamps[pos]);
      }
      if tsIdx >= |proof.timestamps| {
        return Err;
      }
      var ts := proof.timestamps[tsIdx];
      tsIdx := tsIdx + 1;
      var left := LastBefore(stamps, pos);
      if left.Some? && ts < stamps[left.value] {
        return Err;
      }
      var right := FirstAfter(stamps, pos);
      if right.Some? && ts > stamps[right.value] {
        return Err;
      }
      stamps := stamps[pos := ts];
      trace := trace + [Request(pos, false)];
      return Ok(ts);
    }

    /** `prefix_proof`. */
    method NextProof(pos: nat) returns (r: Result<PrefixProof>)
      requires Valid()
      modifies `proofIdx, `trace
      ensures Valid() && trace == if r.Ok? then old(trace) + [Request(pos, true)] else old(trace)
      ensures if old(proofIdx) < |proof.prefixProofs|
              then r == Ok(proof.prefixProofs[old(proofIdx)]) && proofIdx == old(proofIdx) + 1
              else r.Err? && proofIdx == old(proofIdx)
    {
      if proofIdx >= |proof.prefixProofs| {
        return Err;
      }
      proofIdx := proofIdx + 1;
      trace := trace + [Request(pos, true)];
      return Ok(proof.prefixProofs[proofIdx - 1]);
    }

    /** `finish`: all queues are used up, and the entries come out in order of position. */
    method Finish(entryRoots: map<nat, Digest>, ghost n: nat) returns (r: Result<seq<LeafData>>)
      requires Valid() && forall p :: p in stamps ==> p < n
      ensures r == Finished(proof, MarkOf(this), entryRoots, n)
    {
      if tsIdx != |proof.timestamps| {
        return Err;
      }
      if proofIdx != |proof.prefixProofs| {
        return Err;
      }
      var ps := SortedKeys(stamps, n);
      var collected := CollectRoots(ps, stamps, entryRoots, proof.prefixRoots);
      if collected.Err? || collected.value.1 != |proof.prefixRoots| {
        return Err;
      }
      return Ok(collected.value.0);
    }
  }

  /** A reader between two requests. */
  datatype Mark = Mark(tsIdx: nat, proofIdx: nat, stamps: Stamps, trace: seq<Request>)

  ghost function MarkOf(reader: ProofReader): (m: Mark)
    reads reader
  {
    Mark(reader.tsIdx, reader.proofIdx, reader.stamps, reader.trace)
  }

  /** The timestamp of an entry, if the reader has one that fits. */
  ghost function Stamped(proof: CombinedTreeProof, m: Mark, x: nat): (r: Result<Mark>)
    ensures r.Ok? ==> x in r.value.stamps
  {
    if x in m.stamps then Ok(m.(trace := m.trace + [Stamp(x)]))
    else if m.tsIdx < |proof.timestamps| && Fits(m.stamps, x, proof.timestamps[m.tsIdx])
    then Ok(Mark(m.tsIdx + 1, m.proofIdx, m.stamps[x := proof.timestamps[m.tsIdx]], m.trace + [Stamp(x)]))
    else Err
  }

  /** What a reading ends with, if it has used up all timestamps, proofs and prefix roots. */
  ghost function Finished(proof: CombinedTreeProof, m: Mark, entryRoots: EntryRoots, n: nat)
    : (r: Result<seq<LeafData>>)
  {
    if m.tsIdx != |proof.timestamps| || m.proofIdx != |proof.prefixProofs| then Err
    else Closed(m.stamps, entryRoots, proof.prefixRoots, n)
  }

  method CollectRoots(ps: seq<nat>, m: Stamps, entryRoots: map<nat, Digest>, prefixRoots: seq<Digest>)
    returns (r: Result<(seq<LeafData>, nat)>)
    requires forall i :: 0 <= i < |ps| ==> ps[i] in m
    ensures r == Collected(ps, m, entryRoots, prefixRoots, |ps|)
  {
    var rootsIdx := 0;
    var out: seq<LeafData> := [];
    for k := 0 to |ps|
      invariant Collected(ps, m, entryRoots, prefixRoots, k) == Ok((out, rootsIdx))
    {
      if ps[k] in entryRoots {
        out := out + [(ps[k], m[ps[k]], entryRoots[ps[k]])];
      } else {
        if rootsIdx >= |prefixRoots| {
          CollectedFails(ps, m, entryRoots, prefixRoots, k + 1, |ps|);
          return Err;
        }
        out := out + [(ps[k], m[ps[k]], prefixRoots[rootsIdx])];
        rootsIdx := rootsIdx + 1;
      }
    }
    return Ok((out, rootsIdx));
  }

  lemma ListedKeys(m: Stamps, n: nat)
    ensures forall i :: 0 <= i < |Listed(m.Keys, n)| ==> Listed(m.Keys, n)[i] in m
  {
    assert forall i :: 0 <= i < |Listed(m.Keys, n)| ==> Listed(m.Keys, n)[i] in Listed(m.Keys, n);
  }

  /** All entries collected with all prefix roots taken. */
  function Closed(m: Stamps, entryRoots: map<nat, Digest>, prefixRoots: seq<Digest>, n: nat)
    : (r: Result<seq<LeafData>>) {
    ListedKeys(m, n);
    var ps := Listed(m.Keys, n);
    var c := Collected(ps, m, entryRoots, prefixRoots, |ps|);
    if c.Ok? && c.value.1 == |prefixRoots| then Ok(c.value.0) else Err
  }

  /**
   * Whatever the proof, a finished reading has exactly the entries read, in order of position, and
   * their timestamps do not fall.
   */
  lemma FinishedIsMonotone(m: Stamps, entryRoots: map<nat, Digest>, prefixRoots: seq<Digest>, n: nat)
    requires Monotone(m) && (forall p :: p in m ==> p < n) && Closed(m, entryRoots, prefixRoots, n).Ok?
    ensures var out := Closed(m, entryRoots, prefixRoots, n).value;
            && |out| == |Listed(m.Keys, n)|
            && (forall i :: 0 <= i < |out| ==>
                 out[i].0 == Listed(m.Keys, n)[i] && out[i].0 in m && out[i].1 == m[out[i].0])
            && forall i, j :: 0 <= i < j < |out| ==> out[i].0 < out[j].0 && out[i].1 <= out[j].1
  {
    ListedKeys(m, n);
  }

  // ---- the reader after the session ----

  ghost predicate RisingLog(log: seq<Entry>) {
    forall i, j :: 0 <= i <= j < |log| ==> log[i].0 <= log[j].0
  }

  /** One visit, with or without a proof. */
  method MakeVisit(session: TraversalSession, v: Visit) returns (done: Result<()>)
    requires session.Valid()
    modifies session
    ensures session.Valid() && (done.Ok? <==> v.pos < |session.log|)
    ensures session.visits == if done.Ok? then old(session.visits) + [v] else old(session.visits)
  {
    if v.proof.Some? {
      done := session.VisitWithProof(v.pos, v.proof.value);
    } else {
      done := session.VisitTimestampOnly(v.pos);
    }
  }

  /** The proof of a session that makes these visits. */
  method Serve(log: seq<Entry>, visits: seq<Visit>) returns (r: Result<CombinedTreeProof>)
    ensures r == if InLog(visits, |log|) then Ok(Finalized(log, visits)) else Err
  {
    var session := new TraversalSession(log);
    for i := 0 to |visits|
      invariant session.Valid() && session.log == log && session.visits == visits[..i] && fresh(session)
    {
      assert visits[..i + 1] == visits[..i] + [visits[i]];
      var done := MakeVisit(session, visits[i]);
      if done.Err? {
        return Err;
      }
    }
    assert visits[..|visits|] == visits;
    var combined := session.Finalize();
    return Ok(combined);
  }

  lemma {:induction false} VisitsPrefix(visits: seq<Visit>, k: nat, k': nat)
    requires k <= k' <= |visits|
    ensures FirstSeen(visits, k) <= FirstSeen(visits, k') && ProofsOf(visits, k) <= ProofsOf(visits, k')
    decreases k'
  {
    if k < k' { VisitsPrefix(visits, k, k' - 1); }
  }

  /** A reader that has replayed the first k visits. */
  ghost predicate Replayed(log: seq<Entry>, visits: seq<Visit>, k: nat, tsIdx: nat, proofIdx: nat, stamps: Stamps) {
    && k <= |visits| && stamps.Keys == Seen(visits, k) && TrueStamps(log, stamps)
    && tsIdx == |FirstSeen(visits, k)| && proofIdx == |ProofsOf(visits, k)|
  }

  ghost predicate TrueStamps(log: seq<Entry>, stamps: Stamps) {
    forall p :: p in stamps ==> p < |log| && stamps[p] == log[p].0
  }

  /** The next timestamp and proof of the queues are those of the next visit. */
  lemma NextInQueue(log: seq<Entry>, visits: seq<Visit>, k: nat)
    requires InLog(visits, |log|) && k < |visits|
    ensures var proof := Finalized(log, visits); var v := visits[k]; var t := |FirstSeen(visits, k)|;
            var p := |ProofsOf(visits, k)|;
            && (v.pos !in Seen(visits, k) ==> t < |proof.timestamps| && proof.timestamps[t] == log[v.pos].0)
            && (v.proof.Some? ==> p < |proof.prefixProofs| && proof.prefixProofs[p] == v.proof.value)
  {
    SeenInLog(visits, |log|, |visits|);
    VisitsPrefix(visits, k + 1, |visits|);
    VisitsPrefix(visits, k, |visits|);
    assert visits[k].pos < |log|;
  }

  lemma TrueStampsFit(log: seq<Entry>, stamps: Stamps, pos: nat)
    requires RisingLog(log) && TrueStamps(log, stamps) && pos < |log|
    ensures Fits(stamps, pos, log[pos].0) && TrueStamps(log, stamps[pos := log[pos].0])
  {
  }

  /** One more visit: a new entry takes a timestamp, a proof visit a proof. */
  lemma ReplayedNext(log: seq<Entry>, visits: seq<Visit>, k: nat, tsIdx: nat, proofIdx: nat, stamps: Stamps,
                     tsIdx': nat, proofIdx': nat, stamps': Stamps)
    requires InLog(visits, |log|) && k < |visits| && Replayed(log, visits, k, tsIdx, proofIdx, stamps)
    requires var pos := visits[k].pos;
             if pos in stamps then tsIdx' == tsIdx && stamps' == stamps
             else tsIdx' == tsIdx + 1 && pos < |log| && stamps' == stamps[pos := log[pos].0]
    requires proofIdx' == if visits[k].proof.Some? then proofIdx + 1 else proofIdx
    ensures Replayed(log, visits, k + 1, tsIdx', proofIdx', stamps')
  {}

  method ReplayVisit(reader: ProofReader, log: seq<Entry>, visits: seq<Visit>, k: nat)
    returns (answer: Result<(nat, Option<PrefixProof>)>)
    requires RisingLog(log) && InLog(visits, |log|) && k < |visits| && reader.proof == Finalized(log, visits)
    requires reader.Valid() && Replayed(log, visits, k, reader.tsIdx, reader.proofIdx, reader.stamps)
    modifies reader
    ensures reader.Valid() && Replayed(log, visits, k + 1, reader.tsIdx, reader.proofIdx, reader.stamps)
    ensures answer == Ok((log[visits[k].pos].0, visits[k].proof))
  {
    NextInQueue(log, visits, k);
    TrueStampsFit(log, reader.stamps, visits[k].pos);
    var ts := reader.Timestamp(visits[k].pos);
    if ts.Err? {
      return Err;
    }
    if visits[k].proof.None? {
      ReplayedNext(log, visits, k, old(reader.tsIdx), old(reader.proofIdx), old(reader.stamps),
                   reader.tsIdx, reader.proofIdx, reader.stamps);
      return Ok((ts.value, None));
    }
    var p := reader.NextProof(visits[k].pos);
    if p.Err? {
      return Err;
    }
    ReplayedNext(log, visits, k, old(reader.tsIdx), old(reader.proofIdx), old(reader.stamps),
                 reader.tsIdx, reader.proofIdx, reader.stamps);
    return Ok((ts.value, Some(p.value)));
  }

  /** The first k answers: each visit's own timestamp and proof. */
  function AnswersOf(log: seq<Entry>, visits: seq<Visit>, k: nat): (answers: seq<(nat, Option<PrefixProof>)>)
    requires InLog(visits, |log|) && k <= |visits|
    ensures |answers| == k && forall i :: 0 <= i < k ==> answers[i] == (log[visits[i].pos].0, visits[i].proof)
  {
    seq(k, i requires 0 <= i < k => (log[visits[i].pos].0, visits[i].proof))
  }

  lemma NextAnswer(log: seq<Entry>, visits: seq<Visit>, k: nat)
    requires InLog(visits, |log|) && k < |visits|
    ensures AnswersOf(log, visits, k + 1) == AnswersOf(log, visits, k) + [(log[visits[k].pos].0, visits[k].proof)]
  {
  }

  method ReplayAll(reader: ProofReader, log: seq<Entry>, visits: seq<Visit>)
    returns (answers: seq<(nat, Option<PrefixProof>)>)
    requires RisingLog(log) && InLog(visits, |log|) && reader.proof == Finalized(log, visits)
    requires reader.Valid() && reader.tsIdx == 0 && reader.proofIdx == 0 && reader.stamps == map[]
    modifies reader
    ensures reader.Valid() && Replayed(log, visits, |visits|, reader.tsIdx, reader.proofIdx, reader.stamps)
    ensures answers == AnswersOf(log, visits, |visits|)
  {
    answers := [];
    for k := 0 to |visits|
      invariant reader.Valid() && Replayed(log, visits, k, reader.tsIdx, reader.proofIdx, reader.stamps)
      invariant answers == AnswersOf(log, visits, k)
    {
      NextAnswer(log, visits, k);
      var answer := ReplayVisit(reader, log, visits, k);
      answers := answers + [answer.value];
    }
  }

  /** The entries as the log has them. */
  function LeavesAt(log: seq<Entry>, ps: seq<nat>): (leaves: seq<LeafData>)
    requires AllBelow(ps, |log|)
    ensures |leaves| == |ps| && forall i :: 0 <= i < |ps| ==> leaves[i] == (ps[i], log[ps[i]].0, log[ps[i]].1)
  {
    seq(|ps|, i requires 0 <= i < |ps| => (ps[i], log[ps[i]].0, log[ps[i]].1))
  }

  /**
   * Replaying the visits of a session over its proof gives every entry its own timestamp and every
   * visit its own proof, empties the queues, and ends with the entries as the log has them.
   */
  method ReplayWalk(log: seq<Entry>, visits: seq<Visit>, entryRoots: map<nat, Digest>)
    returns (answers: seq<(nat, Option<PrefixProof>)>, leaves: Result<seq<LeafData>>)
    requires RisingLog(log) && InLog(visits, |log|)
    requires entryRoots.Keys == Proved(visits, |visits|)
    requires forall p :: p in entryRoots && p < |log| ==> entryRoots[p] == log[p].1
    ensures |answers| == |visits|
    ensures forall k :: 0 <= k < |visits| ==> answers[k] == (log[visits[k].pos].0, visits[k].proof)
    ensures leaves == Ok(LeavesAt(log, Listed(Seen(visits, |visits|), |log|)))
  {
    var combined := Serve(log, visits);
    var reader := new ProofReader(combined.value);
    answers := ReplayAll(reader, log, visits);
    SeenInLog(visits, |log|, |visits|);
    ClosedIsTrue(log, visits, reader.stamps, entryRoots);
    leaves := reader.Finish(entryRoots, |log|);
  }

  /** Those of the first k entries that have no proof. */
  function Without(ps: seq<nat>, proved: set<nat>, k: nat): (xs: seq<nat>)
    requires k <= |ps|
    decreases k, ps
  {
    if k == 0 then []
    else if ps[k - 1] in proved then Without(ps, proved, k - 1)
    else Without(ps, proved, k - 1) + [ps[k - 1]]
  }

  lemma {:induction false} WithoutElements(ps: seq<nat>, proved: set<nat>, k: nat)
    requires k <= |ps|
    ensures forall x :: x in Without(ps, proved, k) <==> x in ps[..k] && x !in proved
    decreases k
  {
    if k > 0 {
      WithoutElements(ps, proved, k - 1);
      assert ps[..k] == ps[..k - 1] + [ps[k - 1]];
    }
  }

  lemma {:induction false} WithoutIncreasing(ps: seq<nat>, proved: set<nat>, k: nat)
    requires Increasing(ps) && k <= |ps|
    ensures Increasing(Without(ps, proved, k))
    ensures forall i :: 0 <= i < |Without(ps, proved, k)| ==> k > 0 && Without(ps, proved, k)[i] <= ps[k - 1]
    decreases k
  {
    if k > 1 {
      WithoutIncreasing(ps, proved, k - 1);
      assert ps[k - 2] < ps[k - 1];
    }
  }

  lemma {:induction false} WithoutPrefix(ps: seq<nat>, proved: set<nat>, k: nat, k': nat)
    requires k <= k' <= |ps|
    ensures Without(ps, proved, k) <= Without(ps, proved, k')
    decreases k'
  {
    if k < k' { WithoutPrefix(ps, proved, k, k' - 1); }
  }

  /** The leaves of the first k entries. */
  function LeavesUpTo(log: seq<Entry>, ps: seq<nat>, k: nat): (leaves: seq<LeafData>)
    requires AllBelow(ps, |log|) && k <= |ps|
    decreases k, ps
  {
    if k == 0 then [] else LeavesUpTo(log, ps, k - 1) + [(ps[k - 1], log[ps[k - 1]].0, log[ps[k - 1]].1)]
  }

  /** Entry k finds its own root: from its proof, or at its place among the prefix roots. */
  ghost predicate RootsInPlace(log: seq<Entry>, ps: seq<nat>, entryRoots: map<nat, Digest>, all: seq<Digest>)
    requires AllBelow(ps, |log|)
  {
    forall k :: 0 <= k < |ps| ==> RootInPlace(log, ps, entryRoots, all, k)
  }

  ghost predicate RootInPlace(log: seq<Entry>, ps: seq<nat>, entryRoots: map<nat, Digest>, all: seq<Digest>, k: nat)
    requires AllBelow(ps, |log|) && k < |ps|
  {
    if ps[k] in entryRoots then entryRoots[ps[k]] == log[ps[k]].1
    else |Without(ps, entryRoots.Keys, k)| < |all| && all[|Without(ps, entryRoots.Keys, k)|] == log[ps[k]].1
  }

  lemma {:induction false} CollectedIsTrue(log: seq<Entry>, ps: seq<nat>, m: Stamps, entryRoots: map<nat, Digest>,
                                           all: seq<Digest>, k: nat)
    requires AllBelow(ps, |log|) && k <= |ps| && (forall i :: 0 <= i < |ps| ==> ps[i] in m) && TrueStamps(log, m)
    requires RootsInPlace(log, ps, entryRoots, all)
    ensures Collected(ps, m, entryRoots, all, k) == Ok((LeavesUpTo(log, ps, k), |Without(ps, entryRoots.Keys, k)|))
    decreases k
  {
    if k > 0 {
      CollectedIsTrue(log, ps, m, entryRoots, all, k - 1);
      assert RootInPlace(log, ps, entryRoots, all, k - 1);
    }
  }

  lemma {:induction false} LeavesUpToAt(log: seq<Entry>, ps: seq<nat>, k: nat)
    requires AllBelow(ps, |log|) && k <= |ps|
    ensures LeavesUpTo(log, ps, k) == LeavesAt(log, ps)[..k]
    decreases k
  {
    if k > 0 { LeavesUpToAt(log, ps, k - 1); }
  }

  lemma PrefixHolds(xs: seq<nat>, before: seq<nat>, p: nat)
    requires before + [p] <= xs
    ensures |before| < |xs| && xs[|before|] == p
  {
    assert (before + [p])[|before|] == p;
  }

  /** An entry without a proof has its place among them. */
  lemma WithoutAt(ps: seq<nat>, proved: set<nat>, k: nat, n: nat, xs: seq<nat>)
    requires k < n <= |ps| && ps[k] !in proved && xs == Without(ps, proved, n)
    ensures |Without(ps, proved, k)| < |xs| && xs[|Without(ps, proved, k)|] == ps[k]
  {
    WithoutPrefix(ps, proved, k + 1, n);
    PrefixHolds(xs, Without(ps, proved, k), ps[k]);
  }

  /** Prefix roots listed for the entries without a proof are in place. */
  lemma WithoutInPlace(log: seq<Entry>, ps: seq<nat>, entryRoots: map<nat, Digest>, xs: seq<nat>)
    requires AllBelow(ps, |log|) && AllBelow(xs, |log|) && xs == Without(ps, entryRoots.Keys, |ps|)
    requires forall p :: p in entryRoots && p < |log| ==> entryRoots[p] == log[p].1
    ensures RootsInPlace(log, ps, entryRoots, RootsOf(log, xs))
  {
    forall k | 0 <= k < |ps|
      ensures RootInPlace(log, ps, entryRoots, RootsOf(log, xs), k)
    {
      if ps[k] !in entryRoots { WithoutAt(ps, entryRoots.Keys, k, |ps|, xs); }
    }
  }

  lemma ClosedIsTrue(log: seq<Entry>, visits: seq<Visit>, m: Stamps, entryRoots: map<nat, Digest>)
    requires InLog(visits, |log|) && m.Keys == Seen(visits, |visits|) && TrueStamps(log, m)
    requires entryRoots.Keys == Proved(visits, |visits|)
    requires forall p :: p in entryRoots && p < |log| ==> entryRoots[p] == log[p].1
    ensures Closed(m, entryRoots, Finalized(log, visits).prefixRoots, |log|) ==
            Ok(LeavesAt(log, Listed(Seen(visits, |visits|), |log|)))
  {
    var ps, xs := Listed(m.Keys, |log|), Listed(m.Keys - entryRoots.Keys, |log|);
    ListedKeys(m, |log|);
    ListedWithout(m.Keys, entryRoots.Keys, |log|);
    CollectedAll(log, m, entryRoots, ps, xs);
    ClosedIs(m, entryRoots, RootsOf(log, xs), |log|, ps, LeavesAt(log, ps));
  }

  lemma ClosedIs(m: Stamps, entryRoots: map<nat, Digest>, all: seq<Digest>, n: nat, ps: seq<nat>, leaves: seq<LeafData>)
    requires ps == Listed(m.Keys, n) && (forall i :: 0 <= i < |ps| ==> ps[i] in m)
    requires Collected(ps, m, entryRoots, all, |ps|) == Ok((leaves, |all|))
    ensures Closed(m, entryRoots, all, n) == Ok(leaves)
  {
  }

  lemma CollectedAll(log: seq<Entry>, m: Stamps, entryRoots: map<nat, Digest>, ps: seq<nat>, xs: seq<nat>)
    requires AllBelow(ps, |log|) && (forall i :: 0 <= i < |ps| ==> ps[i] in m) && TrueStamps(log, m)
    requires xs == Without(ps, entryRoots.Keys, |ps|) && AllBelow(xs, |log|)
    requires forall p :: p in entryRoots && p < |log| ==> entryRoots[p] == log[p].1
    ensures Collected(ps, m, entryRoots, RootsOf(log, xs), |ps|) == Ok((LeavesAt(log, ps), |RootsOf(log, xs)|))
  {
    WithoutInPlace(log, ps, entryRoots, xs);
    CollectedIsTrue(log, ps, m, entryRoots, RootsOf(log, xs), |ps|);
    LeavesUpToAt(log, ps, |ps|);
    assert LeavesAt(log, ps)[..|ps|] == LeavesAt(log, ps);
  }

  lemma ListedWithout(s: set<nat>, proved: set<nat>, n: nat)
    ensures Without(Listed(s, n), proved, |Listed(s, n)|) == Listed(s - proved, n)
  {
    var ps := Listed(s, n);
    assert ps[..|ps|] == ps;
    WithoutIncreasing(ps, proved, |ps|);
    WithoutElements(ps, proved, |ps|);
    IncreasingUnique(Without(ps, proved, |ps|), Listed(s - proved, n));
  }
}
