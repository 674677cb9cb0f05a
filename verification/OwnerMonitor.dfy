/** The owner's monitoring request from end to end (src/tree/traversal.rs, src/client/core.rs), without map entries. */
module OwnerMonitor {
  import opened Digests
  import opened PrefixProofs
  import opened LogMath
  import opened StoredLog
  import opened Ibst
  import opened DistinguishedEntries
  import opened CombinedProof
  import opened ProofReader
  import opened ClientOperation
  import opened OwnerWalk
  import opened OwnerReplay
  import opened OwnerLaws

  // ---- the server ----

  /** What the request asks for: the frontier's timestamps, then the walk. */
  function AllRequests(ts: Timestamps, rmw: nat, start: nat, n: nat): (rs: seq<Request>)
    requires 0 < n <= |ts|
  {
    Stamps(Frontier(0, n)) + OwnerRequests(ts, rmw, start, 0, n, 0, ts[n - 1])
  }

  function Stamps(xs: seq<nat>): (rs: seq<Request>)
    ensures |rs| == |xs| && forall i :: 0 <= i < |xs| ==> rs[i] == Stamp(xs[i])
  {
    seq(|xs|, i requires 0 <= i < |xs| => Stamp(xs[i]))
  }

  /** The visit of a request. */
  function VisitFor(q: Request, proofAt: nat -> PrefixProof): (v: Visit) {
    Visit(q.pos, if q.wantsProof then Some(proofAt(q.pos)) else None)
  }

  function VisitsFor(rs: seq<Request>, proofAt: nat -> PrefixProof): (visits: seq<Visit>)
    ensures |visits| == |rs| && forall i :: 0 <= i < |rs| ==> visits[i] == VisitFor(rs[i], proofAt)
  {
    seq(|rs|, i requires 0 <= i < |rs| => VisitFor(rs[i], proofAt))
  }

  /** The walk stays inside its interval. */
  lemma {:induction false} RequestsInside(ts: Timestamps, rmw: nat, start: nat, lo: nat, hi: nat, left: nat, right: nat)
    requires hi <= |ts|
    ensures forall q :: q in OwnerRequests(ts, rmw, start, lo, hi, left, right) ==> lo <= q.pos < hi
    decreases hi - lo
  {
    if lo < hi && Minus(right, left) >= rmw {
      var x := RootOf(lo, hi);
      RequestsInside(ts, rmw, start, lo, x, left, ts[x]);
      RequestsInside(ts, rmw, start, x + 1, hi, ts[x], right);
    }
  }

  lemma AllInside(ts: Timestamps, rmw: nat, start: nat, n: nat)
    requires 0 < n <= |ts|
    ensures forall q :: q in AllRequests(ts, rmw, start, n) ==> q.pos < n
  {
    FrontierRises(0, n);
    RequestsInside(ts, rmw, start, 0, n, 0, ts[n - 1]);
  }

  lemma VisitsInLog(rs: seq<Request>, proofAt: nat -> PrefixProof, n: nat)
    requires forall q :: q in rs ==> q.pos < n
    ensures InLog(VisitsFor(rs, proofAt), n)
  {
    forall i | 0 <= i < |rs| ensures VisitsFor(rs, proofAt)[i].pos < n { assert rs[i] in rs; }
  }

  /** The server's session: the frontier, then the actions of the walk, each with the entry's own proof. */
  method TraverseOwnerMonitor(log: seq<Entry>, ts: Timestamps, greatest: seq<Option<nat>>, start: nat, rmw: nat,
                              proofAt: nat -> PrefixProof)
    returns (combined: Result<CombinedTreeProof>)
    requires TimesOf(log, ts) && 0 < |log| == |greatest| && Log2(|log|) < 64
    ensures var visits := VisitsFor(AllRequests(ts, rmw, start, |log|), proofAt);
            InLog(visits, |log|) && combined == Ok(Finalized(log, visits))
  {
    var n := |log|;
    var frontier := GetFrontier(n);
    WholeTree(n);
    var actions := OwnerWalkActions(ts, greatest, IbstRoot(n), 0, ts[n - 1], start, n, rmw, [], 0, n);
    assert RequestsOf([]) == [];
    var visits := seq(|frontier|, i requires 0 <= i < |frontier| => Visit(frontier[i], None))
      + seq(|actions|, i requires 0 <= i < |actions| => VisitFor(RequestOf(actions[i]), proofAt));
    assert visits == VisitsFor(AllRequests(ts, rmw, start, n), proofAt);
    AllInside(ts, rmw, start, n);
    VisitsInLog(AllRequests(ts, rmw, start, n), proofAt, n);
    combined := Serve(log, visits);
  }

  // ---- the client ----

  /** What is read before the walk: the frontier's timestamps and the last entry's again. */
  ghost function Begun(proof: CombinedTreeProof, m: Mark, n: nat): (r: Result<Mark>)
    requires n > 0
  {
    var first :- StampedAll(proof, m, Frontier(0, n), |Frontier(0, n)|);
    Stamped(proof, first, n - 1)
  }

  method BeginOwnerWalk(reader: ProofReader, n: nat) returns (r: Result<nat>)
    requires n > 0 && Log2(n) < 64 && ReadSome(reader, n)
    modifies reader
    ensures ReadSome(reader, n) && (r.Ok? ==> n - 1 in reader.stamps && r.value == reader.stamps[n - 1])
    ensures Begun(reader.proof, old(MarkOf(reader)), n) == if r.Ok? then Ok(MarkOf(reader)) else Err
  {
    var started := ReadFrontier(reader, n);
    if !started {
      return Err;
    }
    r := ReadStamp(reader, n - 1, n);
  }

  /** The whole walk of an owner's request, from a fresh reader. */
  ghost function Monitored(proof: CombinedTreeProof, check: Check, rmw: nat, start: nat, n: nat): (r: Result<Walked>)
    requires n > 0
  {
    var last :- Begun(proof, Mark(0, 0, map[], []), n);
    Walk(proof, check, rmw, start, 0, n, 0, last.stamps[n - 1], Walked(last, map[]))
  }

  /** The reading of the walk. */
  method ReadOwnerWalk(reader: ProofReader, n: nat, start: nat, rmw: nat, check: Check) returns (r: Result<EntryRoots>)
    requires n > 0 && Log2(n) < 64 && ReadSome(reader, n) && MarkOf(reader) == Mark(0, 0, map[], [])
    modifies reader
    ensures ReadSome(reader, n)
    ensures Monitored(reader.proof, check, rmw, start, n) == if r.Ok? then Ok(Walked(MarkOf(reader), r.value)) else Err
  {
    var rightmost := BeginOwnerWalk(reader, n);
    if rightmost.Err? {
      return Err;
    }
    WholeTree(n);
    r := ReplayOwnerWalk(reader, IbstRoot(n), 0, rightmost.value, start, n, rmw, check, map[], 0, n);
  }

  /** The walk of `verify_owner_monitor` and the end of its reading. */
  method VerifyOwnerWalk(combined: CombinedTreeProof, n: nat, start: nat, rmw: nat, check: Check)
    returns (r: Result<seq<LeafData>>)
    requires n > 0 && Log2(n) < 64
    ensures var w := Monitored(combined, check, rmw, start, n);
            if w.Err? || w.value.mark.tsIdx != |combined.timestamps| || w.value.mark.proofIdx != |combined.prefixProofs|
                then r == Err
            else r == Closed(w.value.mark.stamps, w.value.roots, combined.prefixRoots, n)
  {
    var reader := new ProofReader(combined);
    var roots := ReadOwnerWalk(reader, n, start, rmw, check);
    if roots.Err? {
      return Err;
    }
    r := reader.Finish(roots.value, n);
  }

  // ---- both together ----

  lemma {:induction false} StampedAllTrace(proof: CombinedTreeProof, m: Mark, xs: seq<nat>, i: nat)
    requires i <= |xs| && StampedAll(proof, m, xs, i).Ok?
    ensures var m' := StampedAll(proof, m, xs, i).value;
            m'.trace == m.trace + Stamps(xs[..i]) && m'.proofIdx == m.proofIdx
    decreases i
  {
    if i > 0 {
      StampedAllTrace(proof, m, xs, i - 1);
      assert Stamps(xs[..i]) == Stamps(xs[..i - 1]) + [Stamp(xs[i - 1])];
    }
  }

  /** Before the walk, the frontier's timestamps and the last entry's again have been asked for. */
  lemma {:induction false} BegunTrace(proof: CombinedTreeProof, m: Mark, n: nat, xs: seq<nat>, last: Mark)
    requires n > 0 && xs == Frontier(0, n) && Begun(proof, m, n) == Ok(last) && m.trace == []
    ensures last.trace == Stamps(xs) + [Stamp(n - 1)] && last.proofIdx == m.proofIdx && n - 1 in last.stamps
  {
    ListTrace(proof, m, xs);
    StampedTrace(proof, StampedAll(proof, m, xs, |xs|).value, n - 1);
  }

  lemma {:induction false} StampedTrace(proof: CombinedTreeProof, m: Mark, x: nat)
    requires Stamped(proof, m, x).Ok?
    ensures var m' := Stamped(proof, m, x).value;
            m'.trace == m.trace + [Stamp(x)] && m'.proofIdx == m.proofIdx && x in m'.stamps
  {}

  lemma {:induction false} ListTrace(proof: CombinedTreeProof, m: Mark, xs: seq<nat>)
    requires StampedAll(proof, m, xs, |xs|).Ok? && m.trace == []
    ensures var m' := StampedAll(proof, m, xs, |xs|).value; m'.trace == Stamps(xs) && m'.proofIdx == m.proofIdx
  {
    StampedAllTrace(proof, m, xs, |xs|);
    assert xs[..|xs|] == xs && m.trace + Stamps(xs) == Stamps(xs);
  }

  /** What a walk from there has asked for and recorded. */
  ghost predicate AskedFrom(ts: Timestamps, rmw: nat, start: nat, n: nat, w: Walked, w': Walked)
    requires 0 < n == |ts|
  {
    var rs := OwnerRequests(ts, rmw, start, 0, n, 0, ts[n - 1]);
    && w'.mark.trace == w.mark.trace + rs && w'.mark.proofIdx == w.mark.proofIdx + |Laddered(rs)|
    && forall x :: x in w'.roots <==> x in w.roots || (x in Distinguished(ts, rmw, n) && x > start)
  }

  lemma {:induction false} WalkAsks(proof: CombinedTreeProof, check: Check, rmw: nat, start: nat, n: nat, lo: nat,
                                    ts: Timestamps, w: Walked, w': Walked)
    requires 0 < n == |ts| && lo == 0 && n - 1 in w.mark.stamps && ReadsFrom(w'.mark.stamps, ts)
    requires Walk(proof, check, rmw, start, lo, n, lo, w.mark.stamps[n - 1], w) == Ok(w')
    ensures AskedFrom(ts, rmw, start, n, w, w')
  {
    WalkKeeps(proof, check, rmw, start, lo, n, lo, w.mark.stamps[n - 1], w);
    assert w.mark.stamps[n - 1] == ts[n - 1];
    WalkTraces(proof, check, rmw, start, lo, n, lo, ts[n - 1], w, w', ts);
    AfterIs(check, proof.prefixProofs, OwnerRequests(ts, rmw, start, lo, n, lo, ts[n - 1]), w.Now());
    OwnerLadders(ts, rmw, start, n);
  }

  /**
   * Whatever the proof: an owner's walk that succeeds over the log's timestamps has asked for what the
   * server's session wrote, in the same order, but for reading the last entry's timestamp twice; and it
   * has taken exactly one proof for each distinguished entry right of the start.
   */
  lemma {:induction false} MonitoredAsksTheSame(proof: CombinedTreeProof, check: Check, rmw: nat, start: nat, n: nat,
                                                ts: Timestamps, w: Walked)
    requires n > 0 && Monitored(proof, check, rmw, start, n) == Ok(w) && ReadsFrom(w.mark.stamps, ts) && |ts| == n
    ensures w.mark.trace == Stamps(Frontier(0, n)) + [Stamp(n - 1)] + OwnerRequests(ts, rmw, start, 0, n, 0, ts[n - 1])
    ensures AllRequests(ts, rmw, start, n) == Stamps(Frontier(0, n)) + OwnerRequests(ts, rmw, start, 0, n, 0, ts[n - 1])
    ensures w.mark.proofIdx == |Laddered(OwnerRequests(ts, rmw, start, 0, n, 0, ts[n - 1]))|
    ensures forall x :: x in w.roots <==> x in Distinguished(ts, rmw, n) && x > start
  {
    var m := Mark(0, 0, map[], []);
    var last := Begun(proof, m, n).value;
    BegunTrace(proof, m, n, Frontier(0, n), last);
    WalkAsks(proof, check, rmw, start, n, 0, ts, Walked(last, map[]), w);
  }

  /** Steps that lead on for every due request lead through a list of timestamps. */
  lemma {:induction false} StampsLead(states: States, proof: CombinedTreeProof, visits: seq<Visit>, ts: Timestamps,
                                      check: Check, xs: seq<nat>, i: nat, m: Mark, none: EntryRoots)
    requires Leads(states, proof, visits, ts, check) && i <= |xs| && Due(visits, 0, Stamps(xs))
            && In(states, 0, Walked(m, none))
    ensures var r := StampedAll(proof, m, xs, i);
            r.Ok? && In(states, i, Walked(r.value, none)) && (i > 0 ==> xs[i - 1] in r.value.stamps)
    decreases i
  {
    if i > 0 {
      StampsLead(states, proof, visits, ts, check, xs, i - 1, m, none);
      DueOne(visits, 0, Stamps(xs), i - 1);
      assert StampLeads(states, proof, visits, ts, i - 1, Walked(StampedAll(proof, m, xs, i - 1).value, none),
                        xs[i - 1]);
    }
  }

  /** A timestamp read before costs nothing. */
  ghost predicate AgainLeads(states: States, proof: CombinedTreeProof, ts: Timestamps, k: nat, w: Walked, x: nat) {
    In(states, k, w) && x in w.mark.stamps ==>
      var r := Stamped(proof, w.mark, x);
      r.Ok? && x < |ts| && r.value.stamps[x] == ts[x] && In(states, k, Walked(r.value, w.roots))
  }

  lemma FreshInStates(s: HonestSession, m: Mark, none: EntryRoots)
    requires m == Mark(0, 0, map[], []) && none == map[]
    ensures In(AlongStates(s), 0, Walked(m, none))
  {
    InAlong(s, 0, Walked(m, none));
  }

  lemma {:induction false} DueOne(visits: seq<Visit>, k: nat, rs: seq<Request>, i: nat)
    requires i < |rs| && Due(visits, k, rs)
    ensures Due(visits, k + i, [rs[i]])
    decreases i
  {
    if i > 0 {
      DueOne(visits, k + 1, rs[1..], i - 1);
      assert rs[1..][i - 1] == rs[i];
    }
  }

  /** The frontier's timestamps and the last entry's once more. */
  ghost function Started(proof: CombinedTreeProof, n: nat): (r: Result<Mark>)
    requires n > 0
  {
    var first := StampedAll(proof, Mark(0, 0, map[], []), Frontier(0, n), |Frontier(0, n)|);
    if first.Err? then Err else Stamped(proof, first.value, n - 1)
  }

  lemma HonestStart(s: HonestSession, n: nat, ts: Timestamps)
    requires TimesOf(s.log, ts) && 0 < n == |s.log| && Due(s.visits, 0, Stamps(Frontier(0, n)))
    ensures var r := Started(ProofOf(s), n);
            r.Ok? && r.value.stamps[n - 1] == ts[n - 1] && In(AlongStates(s), |Frontier(0, n)|, Walked(r.value, map[]))
  {
    FreshInStates(s, Mark(0, 0, map[], []), map[]);
    FrontierRises(0, n);
    HonestLeads(s, ts);
    HonestAgain(s, ts);
    StartsFrom(AlongStates(s), ProofOf(s), s.visits, ts, s.check, n, Frontier(0, n), Mark(0, 0, map[], []), map[]);
  }

  lemma StartsFrom(states: States, proof: CombinedTreeProof, visits: seq<Visit>, ts: Timestamps, check: Check,
                   n: nat, xs: seq<nat>, m: Mark, none: EntryRoots)
    requires Leads(states, proof, visits, ts, check)
    requires forall k: nat, w: Walked, x: nat :: AgainLeads(states, proof, ts, k, w, x)
    requires |xs| > 0 && n > 0 && xs[|xs| - 1] == n - 1 && Due(visits, 0, Stamps(xs)) && In(states, 0, Walked(m, none))
    ensures var first := StampedAll(proof, m, xs, |xs|);
            first.Ok? &&
            var r := Stamped(proof, first.value, n - 1);
            r.Ok? && n - 1 < |ts| && r.value.stamps[n - 1] == ts[n - 1] && In(states, |xs|, Walked(r.value, none))
  {
    StampsLead(states, proof, visits, ts, check, xs, |xs|, m, none);
    assert AgainLeads(states, proof, ts, |xs|, Walked(StampedAll(proof, m, xs, |xs|).value, none), n - 1);
  }

  lemma HonestAgain(s: HonestSession, ts: Timestamps)
    requires TimesOf(s.log, ts)
    ensures forall k: nat, w: Walked, x: nat :: AgainLeads(AlongStates(s), ProofOf(s), ts, k, w, x)
  {
    forall k: nat, w: Walked, x: nat
      ensures AgainLeads(AlongStates(s), ProofOf(s), ts, k, w, x)
    {
      if In(AlongStates(s), k, w) && x in w.mark.stamps { StampedAgain(s, ts, k, w, x); }
    }
  }

  lemma StampedAgain(s: HonestSession, ts: Timestamps, k: nat, w: Walked, x: nat)
    requires TimesOf(s.log, ts) && In(AlongStates(s), k, w) && x in w.mark.stamps
    ensures AgainLeads(AlongStates(s), ProofOf(s), ts, k, w, x)
  {
    InAlong(s, k, w);
    InAlong(s, k, Walked(Stamped(ProofOf(s), w.mark, x).value, w.roots));
  }

  /** Over an honest session's proof the walk succeeds and ends where the session does. */
  lemma HonestMonitored(s: HonestSession, rmw: nat, start: nat, n: nat, ts: Timestamps)
    requires TimesOf(s.log, ts) && 0 < n == |s.log| && |s.visits| == |AllRequests(ts, rmw, start, n)|
    requires Due(s.visits, 0, AllRequests(ts, rmw, start, n))
    ensures var r := Monitored(ProofOf(s), s.check, rmw, start, n); r.Ok? && In(AlongStates(s), |s.visits|, r.value)
  {
    DueParts(s.visits, 0, Stamps(Frontier(0, n)), OwnerRequests(ts, rmw, start, 0, n, 0, ts[n - 1]));
    HonestStart(s, n, ts);
    StartedWalks(ProofOf(s), s.check, rmw, start, n);
    HonestWalk(s, |Frontier(0, n)|, |s.visits|, rmw, start, 0, n, 0, ts[n - 1],
               Walked(Started(ProofOf(s), n).value, map[]), ts);
  }

  lemma StartedWalks(proof: CombinedTreeProof, check: Check, rmw: nat, start: nat, n: nat)
    requires n > 0 && Started(proof, n).Ok?
    ensures n - 1 in Started(proof, n).value.stamps
    ensures var m := Started(proof, n).value;
            Monitored(proof, check, rmw, start, n) ==
                Walk(proof, check, rmw, start, 0, n, 0, m.stamps[n - 1], Walked(m, map[]))
  {
  }

  /** At the end of an honest session all queues are used up, and the entries come out as the log has them. */
  lemma AlongCloses(s: HonestSession, w: Walked)
    requires Along(s, |s.visits|, w)
    ensures w.mark.tsIdx == |ProofOf(s).timestamps| && w.mark.proofIdx == |ProofOf(s).prefixProofs|
    ensures AllBelow(Listed(Seen(s.visits, |s.visits|), |s.log|), |s.log|)
    ensures Closed(w.mark.stamps, w.roots, ProofOf(s).prefixRoots, |s.log|) ==
            Ok(LeavesAt(s.log, Listed(Seen(s.visits, |s.visits|), |s.log|)))
  {
    SeenInLog(s.visits, |s.log|, |s.visits|);
    ClosedIsTrue(s.log, s.visits, w.mark.stamps, w.roots);
  }

  lemma SessionIsGood(log: seq<Entry>, rs: seq<Request>, proofAt: nat -> PrefixProof, check: Check)
    requires RisingLog(log) && (forall q :: q in rs ==> q.pos < |log|)
    requires forall x: nat | x < |log| :: check(x, proofAt(x)) == Some(log[x].1)
    ensures Good(Session(log, VisitsFor(rs, proofAt), check)) && Due(VisitsFor(rs, proofAt), 0, rs)
  {
    VisitsInLog(rs, proofAt, |log|);
    DueAll(VisitsFor(rs, proofAt), 0, rs);
  }

  /**
   * The server's session for an owner and the client's walk over it: when every entry's own proof passes
   * the client's check, the walk succeeds, uses the proof up and ends with the log's own entries.
   */
  method OwnerRoundTrip(log: seq<Entry>, ts: Timestamps, greatest: seq<Option<nat>>, start: nat, rmw: nat,
                        proofAt: nat -> PrefixProof, check: Check)
    returns (leaves: Result<seq<LeafData>>)
    requires RisingLog(log) && TimesOf(log, ts) && 0 < |log| == |greatest| && Log2(|log|) < 64
    requires forall x: nat | x < |log| :: check(x, proofAt(x)) == Some(log[x].1)
    ensures var visits := VisitsFor(AllRequests(ts, rmw, start, |log|), proofAt);
            leaves == Ok(LeavesAt(log, Listed(Seen(visits, |visits|), |log|)))
  {
    var combined := TraverseOwnerMonitor(log, ts, greatest, start, rmw, proofAt);
    if combined.Err? {
      return Err;
    }
    leaves := VerifyOwnerWalk(combined.value, |log|, start, rmw, check);
    HonestClosed(log, ts, start, rmw, proofAt, check);
  }

  lemma HonestClosed(log: seq<Entry>, ts: Timestamps, start: nat, rmw: nat, proofAt: nat -> PrefixProof, check: Check)
    requires RisingLog(log) && TimesOf(log, ts) && 0 < |log|
    requires forall x: nat | x < |log| :: check(x, proofAt(x)) == Some(log[x].1)
    ensures var visits := VisitsFor(AllRequests(ts, rmw, start, |log|), proofAt);
            InLog(visits, |log|) &&
            var proof := Finalized(log, visits);
            var r := Monitored(proof, check, rmw, start, |log|);
            && r.Ok? && r.value.mark.tsIdx == |proof.timestamps| && r.value.mark.proofIdx == |proof.prefixProofs|
            && Closed(r.value.mark.stamps, r.value.roots, proof.prefixRoots, |log|)
               == Ok(LeavesAt(log, Listed(Seen(visits, |visits|), |log|)))
  {
    var rs := AllRequests(ts, rmw, start, |log|);
    AllInside(ts, rmw, start, |log|);
    SessionIsGood(log, rs, proofAt, check);
    var s: HonestSession := Session(log, VisitsFor(rs, proofAt), check);
    HonestMonitored(s, rmw, start, |log|, ts);
    var w := Monitored(ProofOf(s), check, rmw, start, |log|).value;
    InAlong(s, |s.visits|, w);
    AlongCloses(s, w);
  }
}
