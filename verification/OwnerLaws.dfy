/** The owner's walk asks for the same on both sides, and an honest session passes. */
module OwnerLaws {
  import opened Digests
  import opened StoredLog
  import opened Ibst
  import opened DistinguishedEntries
  import opened CombinedProof
  import opened ProofReader
  import opened OwnerWalk
  import opened OwnerReplay

  // ---- the requests of a walk ----

  /** Timestamps once read are kept. */
  ghost predicate Keeps(stamps: Stamps, stamps': Stamps) {
    forall p :: p in stamps ==> p in stamps' && stamps'[p] == stamps[p]
  }

  /** The timestamps read so far are these. */
  ghost predicate ReadsFrom(stamps: Stamps, ts: Timestamps) {
    forall p :: p in stamps ==> p < |ts| && stamps[p] == ts[p]
  }

  lemma ReadsFromEarlier(stamps: Stamps, stamps': Stamps, ts: Timestamps)
    requires Keeps(stamps, stamps') && ReadsFrom(stamps', ts)
    ensures ReadsFrom(stamps, ts)
  {
  }

  lemma KeepsOn(a: Stamps, b: Stamps, c: Stamps)
    requires Keeps(a, b) && Keeps(b, c)
    ensures Keeps(a, c)
  {
  }

  lemma {:induction false} WalkKeeps(proof: CombinedTreeProof, check: Check, rmw: nat, start: nat, lo: nat, hi: nat,
                                     left: nat, right: nat, w: Walked)
    requires Walk(proof, check, rmw, start, lo, hi, left, right, w).Ok?
    ensures Keeps(w.mark.stamps, Walk(proof, check, rmw, start, lo, hi, left, right, w).value.mark.stamps)
    decreases hi - lo, 1
  {
    if lo < hi && Minus(right, left) >= rmw {
      var x := RootOf(lo, hi);
      var first := Stamped(proof, w.mark, x).value;
      MiddleKeeps(proof, check, rmw, start, lo, x, left, Walked(first, w.roots));
      var mid := WalkMiddle(proof, check, rmw, start, lo, x, left, Walked(first, w.roots)).value;
      WalkKeeps(proof, check, rmw, start, x + 1, hi, first.stamps[x], right, mid);
      var last := Walk(proof, check, rmw, start, x + 1, hi, first.stamps[x], right, mid).value.mark.stamps;
      KeepsOn(w.mark.stamps, first.stamps, mid.mark.stamps);
      KeepsOn(w.mark.stamps, mid.mark.stamps, last);
    }
  }

  lemma {:induction false} MiddleKeeps(proof: CombinedTreeProof, check: Check, rmw: nat, start: nat, lo: nat, x: nat,
                                       left: nat, w: Walked)
    requires x in w.mark.stamps && WalkMiddle(proof, check, rmw, start, lo, x, left, w).Ok?
    ensures Keeps(w.mark.stamps, WalkMiddle(proof, check, rmw, start, lo, x, left, w).value.mark.stamps)
    decreases x - lo, 2
  {
    if x > start { WalkKeeps(proof, check, rmw, start, lo, x, left, w.mark.stamps[x], w); }
  }

  /**
   * Whatever the proof: a walk that succeeds over the log's timestamps has made exactly the walk's
   * requests, in order, taking for each proof request the next proof of the queue.
   */
  lemma {:induction false} WalkTraces(proof: CombinedTreeProof, check: Check, rmw: nat, start: nat, lo: nat, hi: nat,
                                      left: nat, right: nat, w: Walked, w': Walked, ts: Timestamps)
    requires hi <= |ts| && Walk(proof, check, rmw, start, lo, hi, left, right, w) == Ok(w')
            && ReadsFrom(w'.mark.stamps, ts)
    ensures After(check, proof.prefixProofs, OwnerRequests(ts, rmw, start, lo, hi, left, right), w.Now()) ==
            Ok(w'.Now())
    decreases hi - lo, 1
  {
    if lo >= hi || Minus(right, left) < rmw {
      AfterSingle(check, proof.prefixProofs, Stamp(lo), w.Now());
    } else {
      var x := RootOf(lo, hi);
      var first := Walked(Stamped(proof, w.mark, x).value, w.roots);
      var mid := WalkMiddle(proof, check, rmw, start, lo, x, left, first).value;
      WalkKeeps(proof, check, rmw, start, x + 1, hi, first.mark.stamps[x], right, mid);
      ReadsFromEarlier(mid.mark.stamps, w'.mark.stamps, ts);
      MiddleKeeps(proof, check, rmw, start, lo, x, left, first);
      ReadsFromEarlier(first.mark.stamps, mid.mark.stamps, ts);
      WalkTraces(proof, check, rmw, start, x + 1, hi, ts[x], right, mid, w', ts);
      MiddleTraces(proof, check, rmw, start, lo, x, left, first, mid, ts);
      JoinTraces(proof, check, rmw, start, lo, hi, left, right, x, w, first, mid, w', ts);
    }
  }

  lemma JoinTraces(proof: CombinedTreeProof, check: Check, rmw: nat, start: nat, lo: nat, hi: nat, left: nat,
                   right: nat, x: nat, w: Walked, first: Walked, mid: Walked, w': Walked, ts: Timestamps)
    requires lo < hi <= |ts| && x == RootOf(lo, hi) && Minus(right, left) >= rmw
    requires Stamped(proof, w.mark, x) == Ok(first.mark) && first.roots == w.roots
    requires After(check, proof.prefixProofs, MiddleRequests(ts, rmw, start, lo, x, left), first.Now()) == Ok(mid.Now())
    requires After(check, proof.prefixProofs, OwnerRequests(ts, rmw, start, x + 1, hi, ts[x], right), mid.Now()) ==
            Ok(w'.Now())
    ensures After(check, proof.prefixProofs, OwnerRequests(ts, rmw, start, lo, hi, left, right), w.Now()) ==
            Ok(w'.Now())
  {
    var middle := MiddleRequests(ts, rmw, start, lo, x, left);
    OwnerParts(ts, rmw, start, lo, hi, left, right, x);
    AfterSingle(check, proof.prefixProofs, Stamp(x), w.Now());
    AfterBoth(check, proof.prefixProofs, [Stamp(x)], middle, w.Now(), first.Now(), mid.Now());
    AfterBoth(check, proof.prefixProofs, [Stamp(x)] + middle, OwnerRequests(ts, rmw, start, x + 1, hi, ts[x], right),
              w.Now(), mid.Now(), w'.Now());
  }

  lemma {:induction false} MiddleTraces(proof: CombinedTreeProof, check: Check, rmw: nat, start: nat, lo: nat, x: nat,
                                        left: nat, w: Walked, w': Walked, ts: Timestamps)
    requires x < |ts| && x in w.mark.stamps && WalkMiddle(proof, check, rmw, start, lo, x, left, w) == Ok(w')
    requires ReadsFrom(w'.mark.stamps, ts) && ReadsFrom(w.mark.stamps, ts)
    ensures After(check, proof.prefixProofs, MiddleRequests(ts, rmw, start, lo, x, left), w.Now()) == Ok(w'.Now())
    decreases x - lo, 2
  {
    AfterSingle(check, proof.prefixProofs, Proof(x), w.Now());
    if x > start {
      var before := Walk(proof, check, rmw, start, lo, x, left, ts[x], w).value;
      WalkTraces(proof, check, rmw, start, lo, x, left, ts[x], w, before, ts);
      AfterSingle(check, proof.prefixProofs, Proof(x), before.Now());
      AfterBoth(check, proof.prefixProofs, OwnerRequests(ts, rmw, start, lo, x, left, ts[x]), [Proof(x)],
                w.Now(), before.Now(), w'.Now());
    }
  }

  // ---- an honest session ----

  function RequestOfVisit(v: Visit): (r: Request) {
    Request(v.pos, v.proof.Some?)
  }

  ghost predicate TimesOf(log: seq<Entry>, ts: Timestamps) {
    |ts| == |log| && forall i :: 0 <= i < |ts| ==> ts[i] == log[i].0
  }

  /** Every ladder of the session passes, with the entry's own root. */
  ghost predicate Passes(log: seq<Entry>, visits: seq<Visit>, check: Check) {
    forall v :: v in visits && v.proof.Some? && v.pos < |log| ==> check(v.pos, v.proof.value) == Some(log[v.pos].1)
  }

  /** A session of the server over its log, and the client's check of its ladders. */
  datatype Session = Session(log: seq<Entry>, visits: seq<Visit>, check: Check)

  ghost predicate Good(s: Session) {
    RisingLog(s.log) && InLog(s.visits, |s.log|) && Passes(s.log, s.visits, s.check)
  }

  /** A session whose ladders all pass. */
  type HonestSession = s: Session | Good(s) ghost witness Session([], [], (x, p) => None)

  ghost function ProofOf(s: HonestSession): (proof: CombinedTreeProof) {
    Finalized(s.log, s.visits)
  }

  ghost predicate TrueRoots(log: seq<Entry>, roots: EntryRoots) {
    forall x :: x in roots && x < |log| ==> roots[x] == log[x].1
  }

  /** A walk that has replayed the first k visits of the session. */
  ghost predicate Along(s: HonestSession, k: nat, w: Walked) {
    && Replayed(s.log, s.visits, k, w.mark.tsIdx, w.mark.proofIdx, w.mark.stamps)
    && w.roots.Keys == Proved(s.visits, k) && TrueRoots(s.log, w.roots)
  }

  /** The next visits of the session are for these requests. */
  predicate Due(visits: seq<Visit>, k: nat, rs: seq<Request>)
    decreases |rs|
  {
    rs == [] || (k < |visits| && RequestOfVisit(visits[k]) == rs[0] && Due(visits, k + 1, rs[1..]))
  }

  lemma {:induction false} DueParts(visits: seq<Visit>, k: nat, a: seq<Request>, b: seq<Request>)
    requires Due(visits, k, a + b)
    ensures Due(visits, k, a) && Due(visits, k + |a|, b)
    decreases |a|
  {
    if a == [] {
      assert a + b == b;
    } else {
      assert (a + b)[1..] == a[1..] + b;
      DueParts(visits, k + 1, a[1..], b);
    }
  }

  lemma StampOnTrack(s: HonestSession, k: nat, w: Walked, x: nat)
    requires Along(s, k, w) && Due(s.visits, k, [Stamp(x)])
    ensures x < |s.log|
    ensures var r := Stamped(ProofOf(s), w.mark, x);
            r.Ok? && r.value.stamps[x] == s.log[x].0 && Along(s, k + 1, Walked(r.value, w.roots))
  {
    NextInQueue(s.log, s.visits, k);
    TrueStampsFit(s.log, w.mark.stamps, x);
  }

  lemma ProofOnTrack(s: HonestSession, k: nat, w: Walked, x: nat)
    requires Along(s, k, w) && Due(s.visits, k, [Proof(x)]) && x in w.mark.stamps
    ensures var r := Taken(ProofOf(s), w, x, s.check); r.Ok? && Along(s, k + 1, r.value)
  {
    NextInQueue(s.log, s.visits, k);
    assert s.visits[k] in s.visits;
    assert Seen(s.visits, k) + {x} == Seen(s.visits, k);
  }

  lemma DueThree(visits: seq<Visit>, k: nat, x: nat, middle: seq<Request>, after: seq<Request>, all: seq<Request>)
    requires all == [Stamp(x)] + middle + after && Due(visits, k, all)
    ensures Due(visits, k, [Stamp(x)]) && Due(visits, k + 1, middle) && Due(visits, k + 1 + |middle|, after)
    ensures |all| == 1 + |middle| + |after|
  {
    DueParts(visits, k, [Stamp(x)] + middle, after);
    DueParts(visits, k, [Stamp(x)], middle);
  }

  /** States of a walk by the number of visits replayed. */
  type States = iset<(nat, Walked)>

  ghost predicate In(states: States, k: nat, w: Walked) {
    (k, w) in states
  }

  /** From a state whose next visit is a timestamp's, reading it leads to the next state. */
  ghost predicate StampLeads(states: States, proof: CombinedTreeProof, visits: seq<Visit>, ts: Timestamps, k: nat,
                             w: Walked, x: nat) {
    In(states, k, w) && Due(visits, k, [Stamp(x)]) ==>
      var r := Stamped(proof, w.mark, x);
      r.Ok? && x < |ts| && r.value.stamps[x] == ts[x] && In(states, k + 1, Walked(r.value, w.roots))
  }

  /** From a state whose next visit is a proof's, taking it leads to the next state. */
  ghost predicate ProofLeads(states: States, proof: CombinedTreeProof, visits: seq<Visit>, check: Check, k: nat,
                             w: Walked, x: nat) {
    In(states, k, w) && Due(visits, k, [Proof(x)]) && x in w.mark.stamps ==>
      var r := Taken(proof, w, x, check);
      r.Ok? && In(states, k + 1, r.value)
  }

  ghost predicate Leads(states: States, proof: CombinedTreeProof, visits: seq<Visit>, ts: Timestamps, check: Check) {
    && (forall k: nat, w: Walked, x: nat :: StampLeads(states, proof, visits, ts, k, w, x))
    && (forall k: nat, w: Walked, x: nat :: ProofLeads(states, proof, visits, check, k, w, x))
  }

  /** Steps that lead on for every due request lead through a walk whose requests are due. */
  lemma {:induction false} WalkLeads(states: States, proof: CombinedTreeProof, visits: seq<Visit>, check: Check, k: nat,
                                     end: nat, rmw: nat, start: nat, lo: nat, hi: nat, left: nat, right: nat, w: Walked,
                                     ts: Timestamps)
    requires Leads(states, proof, visits, ts, check) && hi <= |ts| && In(states, k, w)
    requires Due(visits, k, OwnerRequests(ts, rmw, start, lo, hi, left, right))
    requires end == k + |OwnerRequests(ts, rmw, start, lo, hi, left, right)|
    ensures var r := Walk(proof, check, rmw, start, lo, hi, left, right, w); r.Ok? && In(states, end, r.value)
    decreases hi - lo, 1
  {
    if lo < hi && Minus(right, left) >= rmw {
      var x := RootOf(lo, hi);
      var middle, after := MiddleRequests(ts, rmw, start, lo, x, left),
          OwnerRequests(ts, rmw, start, x + 1, hi, ts[x], right);
      OwnerParts(ts, rmw, start, lo, hi, left, right, x);
      DueThree(visits, k, x, middle, after, OwnerRequests(ts, rmw, start, lo, hi, left, right));
      assert StampLeads(states, proof, visits, ts, k, w, x);
      var first := Walked(Stamped(proof, w.mark, x).value, w.roots);
      MiddleLeads(states, proof, visits, check, k + 1, k + 1 + |middle|, rmw, start, lo, x, left, first, ts);
      var mid := WalkMiddle(proof, check, rmw, start, lo, x, left, first).value;
      WalkLeads(states, proof, visits, check, k + 1 + |middle|, end, rmw, start, x + 1, hi, ts[x], right, mid, ts);
    }
  }

  lemma {:induction false} MiddleLeads(states: States, proof: CombinedTreeProof, visits: seq<Visit>, check: Check,
                                       k: nat, end: nat, rmw: nat, start: nat, lo: nat, x: nat, left: nat, w: Walked,
                                       ts: Timestamps)
    requires Leads(states, proof, visits, ts, check) && x < |ts| && In(states, k, w)
    requires x in w.mark.stamps && w.mark.stamps[x] == ts[x]
    requires Due(visits, k, MiddleRequests(ts, rmw, start, lo, x, left))
            && end == k + |MiddleRequests(ts, rmw, start, lo, x, left)|
    ensures var r := WalkMiddle(proof, check, rmw, start, lo, x, left, w); r.Ok? && In(states, end, r.value)
    decreases x - lo, 2
  {
    if x > start {
      var inner := OwnerRequests(ts, rmw, start, lo, x, left, ts[x]);
      DueParts(visits, k, inner, [Proof(x)]);
      WalkLeads(states, proof, visits, check, k, k + |inner|, rmw, start, lo, x, left, ts[x], w, ts);
      var before := Walk(proof, check, rmw, start, lo, x, left, ts[x], w).value;
      WalkKeeps(proof, check, rmw, start, lo, x, left, ts[x], w);
      assert ProofLeads(states, proof, visits, check, k + |inner|, before, x);
    }
  }

  /** The states along an honest session. */
  ghost function AlongStates(s: HonestSession): (states: States) {
    iset k: nat, w: Walked | Along(s, k, w) :: (k, w)
  }

  lemma HonestLeads(s: HonestSession, ts: Timestamps)
    requires TimesOf(s.log, ts)
    ensures Leads(AlongStates(s), ProofOf(s), s.visits, ts, s.check)
  {
    var states := AlongStates(s);
    forall k: nat, w: Walked, x: nat
      ensures StampLeads(states, ProofOf(s), s.visits, ts, k, w, x)
    {
      if In(states, k, w) && Due(s.visits, k, [Stamp(x)]) { StampOnTrack(s, k, w, x); }
    }
    forall k: nat, w: Walked, x: nat
      ensures ProofLeads(states, ProofOf(s), s.visits, s.check, k, w, x)
    {
      if In(states, k, w) && Due(s.visits, k, [Proof(x)]) && x in w.mark.stamps { ProofOnTrack(s, k, w, x); }
    }
  }

  /** In an honest session whose next visits are the walk's, the walk succeeds with the entries' own roots. */
  lemma HonestWalk(s: HonestSession, k: nat, end: nat, rmw: nat, start: nat, lo: nat, hi: nat, left: nat, right: nat,
                   w: Walked, ts: Timestamps)
    requires TimesOf(s.log, ts) && hi <= |ts| && In(AlongStates(s), k, w)
    requires Due(s.visits, k, OwnerRequests(ts, rmw, start, lo, hi, left, right))
    requires end == k + |OwnerRequests(ts, rmw, start, lo, hi, left, right)|
    ensures var r := Walk(ProofOf(s), s.check, rmw, start, lo, hi, left, right, w);
            r.Ok? && In(AlongStates(s), end, r.value)
  {
    HonestLeads(s, ts);
    WalkLeads(AlongStates(s), ProofOf(s), s.visits, s.check, k, end, rmw, start, lo, hi, left, right, w, ts);
  }

  lemma InAlong(s: HonestSession, k: nat, w: Walked)
    ensures In(AlongStates(s), k, w) <==> Along(s, k, w)
  {
  }

  /** A whole list of visits that is for a list of requests is due from the start. */
  lemma {:induction false} DueAll(visits: seq<Visit>, k: nat, rs: seq<Request>)
    requires k + |rs| <= |visits| && forall i :: 0 <= i < |rs| ==> RequestOfVisit(visits[k + i]) == rs[i]
    ensures Due(visits, k, rs)
    decreases |rs|
  {
    if rs != [] {
      assert RequestOfVisit(visits[k + 0]) == rs[0];
      forall i | 0 <= i < |rs[1..]| ensures RequestOfVisit(visits[k + 1 + i]) == rs[1..][i] {
        assert RequestOfVisit(visits[k + (i + 1)]) == rs[i + 1];
      }
      DueAll(visits, k + 1, rs[1..]);
    }
  }
}
