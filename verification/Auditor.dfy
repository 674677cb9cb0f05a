/** The auditor (src/client/auditor.rs, section 15.2 of draft-ietf-keytrans-protocol-05). */
module Auditor {
  import opened Digests
  import opened SparseTree
  import opened PrefixProofs
  import opened Transition
  import opened TransitionExact
  import opened TransitionHonest
  import TransitionAssembly
  import opened LogMath
  import opened LogTree
  import opened Accumulator

  datatype AuditorUpdate = AuditorUpdate(timestamp: nat, added: seq<Leaf>, removed: seq<Leaf>,
                                         proof: Option<PrefixProof>)

  /** Byte order of VRF outputs: the first bit that differs decides. */
  predicate Below(a: Index, b: Index, i: nat)
    requires i <= INDEX_BITS
    decreases INDEX_BITS - i, a
  {
    i < INDEX_BITS && (if a[i] == b[i] then Below(a, b, i + 1) else b[i])
  }

  predicate Ascending(leaves: seq<Leaf>) {
    forall i :: 0 <= i < |leaves| - 1 ==> InOrder(leaves, i)
  }

  predicate InOrder(leaves: seq<Leaf>, i: nat)
    requires i + 1 < |leaves|
  {
    Below(leaves[i].vrfOutput, leaves[i + 1].vrfOutput, 0)
  }

  method IsAscending(leaves: seq<Leaf>) returns (ok: bool)
    ensures ok <==> Ascending(leaves)
  {
    var i: nat := 0;
    while i + 1 < |leaves|
      invariant forall k :: 0 <= k < i && k < |leaves| - 1 ==> InOrder(leaves, k)
    {
      assert InOrder(leaves, i) <==> Below(leaves[i].vrfOutput, leaves[i + 1].vrfOutput, 0);
      if !Below(leaves[i].vrfOutput, leaves[i + 1].vrfOutput, 0) {
        return false;
      }
      i := i + 1;
    }
    return true;
  }

  /** Inclusion results are those of the removed keys. */
  predicate ResultsFit(added: seq<Leaf>, removed: seq<Leaf>, results: seq<SearchResult>)
    requires |results| == |added| + |removed|
  {
    && (forall i :: 0 <= i < |added| && results[i].resultType == INCLUSION ==> added[i].vrfOutput in Keys(removed))
    && (forall i :: |added| <= i < |results| ==> results[i].resultType == INCLUSION)
  }

  /** The new prefix root of an update, if every check of the auditor passes. */
  function CheckedUpdate(prefixRoot: Digest, lastTimestamp: nat, u: AuditorUpdate): (r: Result<Digest>) {
    if u.timestamp < lastTimestamp || !Ascending(u.added) || !Ascending(u.removed) || u.proof.None? then Err
    else if |u.proof.value.results| != |u.added| + |u.removed| then Err
    else if !ResultsFit(u.added, u.removed, u.proof.value.results) then Err
    else NextRoot(prefixRoot, u.added, u.removed, u.proof.value)
  }

  datatype AuditState = AuditState(prefixRoot: Digest, lastTimestamp: nat, treeSize: nat, peaks: seq<Peak>)

  function AuditStep(s: AuditState, u: AuditorUpdate): (r: Result<AuditState>) {
    var next := CheckedUpdate(s.prefixRoot, s.lastTimestamp, u);
    if next.Err? then Err
    else Ok(AuditState(next.value, u.timestamp, s.treeSize + 1,
                       MergeInto(s.peaks, 0, LogLeaf(u.timestamp, next.value))))
  }

  /** The state after the first n updates, stopping before the first that fails, and whether none did. */
  function AuditRun(s: AuditState, updates: seq<AuditorUpdate>, n: nat): (r: (AuditState, bool))
    requires n <= |updates|
    decreases n, updates
  {
    if n == 0 then (s, true)
    else
      var (before, ok) := AuditRun(s, updates, n - 1);
      if !ok || AuditStep(before, updates[n - 1]).Err? then (before, false)
      else (AuditStep(before, updates[n - 1]).value, true)
  }

  lemma {:induction false} RunStopped(s: AuditState, updates: seq<AuditorUpdate>, n: nat, n': nat)
    requires n <= n' <= |updates| && !AuditRun(s, updates, n).1
    ensures AuditRun(s, updates, n') == AuditRun(s, updates, n)
    decreases n'
  {
    if n < n' { RunStopped(s, updates, n, n' - 1); }
  }

  /** What an auditor signs: size, timestamp and log root. */
  datatype SignedHead = SignedHead(treeSize: nat, timestamp: nat, root: Digest)

  class KtAuditor {
    var logAccumulator: LogAccumulator
    var prefixRoot: Digest
    var lastTimestamp: nat

    ghost predicate Valid()
      reads this, logAccumulator
    {
      logAccumulator.Valid()
    }

    ghost function State(): (s: AuditState)
      reads this, logAccumulator
    {
      AuditState(prefixRoot, lastTimestamp, logAccumulator.treeSize, logAccumulator.peaks)
    }

    constructor ()
      ensures Valid() && fresh(logAccumulator) && State() == AuditState(Zero, 0, 0, [])
    {
      logAccumulator := new LogAccumulator();
      prefixRoot, lastTimestamp := Zero, 0;
    }

    method ResultsOk(added: seq<Leaf>, removed: seq<Leaf>, results: seq<SearchResult>) returns (ok: bool)
      requires |results| == |added| + |removed|
      ensures ok <==> ResultsFit(added, removed, results)
    {
      var removedKeys := Keys(removed);
      for i := 0 to |added|
        invariant forall k :: 0 <= k < i && results[k].resultType == INCLUSION ==> added[k].vrfOutput in removedKeys
      {
        if added[i].vrfOutput !in removedKeys && results[i].resultType == INCLUSION {
          return false;
        }
      }
      for i := 0 to |removed|
        invariant forall k :: |added| <= k < |added| + i ==> results[k].resultType == INCLUSION
      {
        if results[|added| + i].resultType != INCLUSION {
          return false;
        }
      }
      return true;
    }

    /** The checks on one update, and the transition it makes. */
    method CheckUpdate(u: AuditorUpdate) returns (r: Result<Digest>)
      ensures r == CheckedUpdate(prefixRoot, lastTimestamp, u)
    {
      if u.timestamp < lastTimestamp {
        return Err;
      }
      var sortedAdded := IsAscending(u.added);
      var sortedRemoved := IsAscending(u.removed);
      if !sortedAdded || !sortedRemoved {
        return Err;
      }
      if u.proof.None? {
        return Err;
      }
      if |u.proof.value.results| != |u.added| + |u.removed| {
        return Err;
      }
      var fit := ResultsOk(u.added, u.removed, u.proof.value.results);
      if !fit {
        return Err;
      }
      r := VerifyAndTransition(prefixRoot, u.added, u.removed, u.proof.value);
    }

    /** One round of the loop of `process_and_sign`. */
    method ProcessUpdate(u: AuditorUpdate) returns (ok: bool)
      requires Valid()
      modifies this, logAccumulator
      ensures Valid() && logAccumulator == old(logAccumulator)
      ensures ok <==> AuditStep(old(State()), u).Ok?
      ensures State() == if ok then AuditStep(old(State()), u).value else old(State())
    {
      var next := CheckUpdate(u);
      if next.Err? {
        return false;
      }
      logAccumulator.AppendLeaf(LogLeaf(u.timestamp, next.value));
      prefixRoot := next.value;
      lastTimestamp := u.timestamp;
      return true;
    }

    /** `process_and_sign`: the updates up to the first that fails, and a head when none does. */
    method ProcessAndSign(updates: seq<AuditorUpdate>) returns (r: Result<Option<SignedHead>>)
      requires Valid()
      modifies this, logAccumulator
      ensures Valid() && logAccumulator == old(logAccumulator)
      ensures State() == AuditRun(old(State()), updates, |updates|).0
      ensures r.Ok? <==> AuditRun(old(State()), updates, |updates|).1
      ensures r.Ok? ==> r.value == if updates == [] then None else Some(HeadOf(State()))
    {
      if updates == [] {
        return Ok(None);
      }
      for i := 0 to |updates|
        invariant Valid() && logAccumulator == old(logAccumulator)
        invariant AuditRun(old(State()), updates, i) == (State(), true)
      {
        var ok := ProcessUpdate(updates[i]);
        if !ok {
          RunStopped(old(State()), updates, i + 1, |updates|);
          return Err;
        }
      }
      var root := logAccumulator.CalculateRoot();
      return Ok(Some(SignedHead(logAccumulator.treeSize, lastTimestamp, root)));
    }
  }

  function HeadOf(s: AuditState): (head: SignedHead) {
    SignedHead(s.treeSize, s.lastTimestamp, RootOfPeaks(s.treeSize, s.peaks))
  }

  // ---- honest updates ----

  /** The audit proof of an operator that adds these leaves to a map, from the answers of its searches. */
  ghost predicate HonestUpdate(m: Contents, u: AuditorUpdate, answers: seq<ProofResult>) {
    && |u.added| > 0 && Ascending(u.added) && AllAnswered(m, u.added, answers) && u.proof.Some?
    && u.removed == PresentLeaves(u.added, answers, |u.added|)
    && BuiltFrom(u.proof.value, answers + PresentAnswers(answers, |answers|))
  }

  ghost predicate BuiltFrom(proof: PrefixProof, all: seq<ProofResult>) {
    && |proof.results| == |all| && (forall j :: 0 <= j < |all| ==> proof.results[j] == all[j].result)
    && proof.elements == TransitionAssembly.Elements(all, |all|)
  }

  /** The update that the server stores, built from its own searches, is honest. */
  method MakeUpdate(timestamp: nat, leaves: seq<Leaf>, answers: seq<ProofResult>, ghost m: Contents)
    returns (u: AuditorUpdate)
    requires |leaves| > 0 && Ascending(leaves) && AllAnswered(m, leaves, answers)
    ensures HonestUpdate(m, u, answers) && u.added == leaves && u.timestamp == timestamp
  {
    var added, removed, proof := BuildAuditProof(leaves, answers);
    u := AuditorUpdate(timestamp, added, removed, Some(proof));
  }

  lemma {:induction false} BelowTransitive(a: Index, b: Index, c: Index, i: nat)
    requires i <= INDEX_BITS && Below(a, b, i) && Below(b, c, i)
    ensures Below(a, c, i)
    decreases INDEX_BITS - i
  {
    if a[i] == b[i] && b[i] == c[i] { BelowTransitive(a, b, c, i + 1); }
  }

  /** Some of the leaves of an ascending list are ascending. */
  lemma {:induction false} PresentAscending(leaves: seq<Leaf>, answers: seq<ProofResult>, n: nat)
    requires n <= |leaves| == |answers| && Ascending(leaves)
    ensures Ascending(PresentLeaves(leaves, answers, n))
    ensures var removed := PresentLeaves(leaves, answers, n);
            removed != [] && n < |leaves| ==> Below(removed[|removed| - 1].vrfOutput, leaves[n].vrfOutput, 0)
    decreases n
  {
    if n > 0 {
      PresentAscending(leaves, answers, n - 1);
      var before, after := PresentLeaves(leaves, answers, n - 1), PresentLeaves(leaves, answers, n);
      forall i | 0 <= i < |after| - 1 ensures InOrder(after, i) {
        if i < |before| - 1 { assert InOrder(before, i); }
      }
      if n < |leaves| {
        assert InOrder(leaves, n - 1);
        if answers[n - 1].commitment.None? && before != [] {
          BelowTransitive(before[|before| - 1].vrfOutput, leaves[n - 1].vrfOutput, leaves[n].vrfOutput, 0);
        }
      }
    }
  }

  lemma HonestResultsFit(m: Contents, u: AuditorUpdate, answers: seq<ProofResult>)
    requires HonestUpdate(m, u, answers)
    ensures |u.proof.value.results| == |u.added| + |u.removed| && ResultsFit(u.added, u.removed, u.proof.value.results)
  {
    var present := PresentAnswers(answers, |answers|);
    PresentAnswered(m, u.added, answers, |u.added|);
    AnswersAreLookups(m, u.added, answers);
    PresentIsLookup(m, u.added, answers, |u.added|);
    var all, results := answers + present, u.proof.value.results;
    forall i | 0 <= i < |u.added| && results[i].resultType == INCLUSION
      ensures u.added[i].vrfOutput in Keys(u.removed)
    {
      assert results[i] == all[i].result && Answers(m, u.added[i].vrfOutput, answers[i]);
    }
    forall i | |u.added| <= i < |results|
      ensures results[i].resultType == INCLUSION
    {
      assert results[i] == all[i].result && Answers(m, u.removed[i - |u.added|].vrfOutput, present[i - |u.added|]);
      assert u.removed[i - |u.added|] in u.removed;
    }
  }

  /** Every honest update passes, and moves the auditor to the root of the operator's next map. */
  lemma HonestUpdateAccepted(m: Contents, last: nat, u: AuditorUpdate, answers: seq<ProofResult>)
    requires HonestUpdate(m, u, answers) && u.timestamp >= last
    ensures CheckedUpdate(Root(m), last, u) == Ok(Root(AddAll(m, u.added, |u.added|)))
  {
    PresentAscending(u.added, answers, |u.added|);
    HonestResultsFit(m, u, answers);
    BuiltProofAccepted(m, u.added, answers, u.proof.value);
  }

  // ---- runs ----

  /** The operator's map after the first n updates. */
  function MapAfter(m: Contents, updates: seq<AuditorUpdate>, n: nat): (m': Contents)
    requires n <= |updates|
    decreases n, updates
  {
    if n == 0 then m else AddAll(MapAfter(m, updates, n - 1), updates[n - 1].added, |updates[n - 1].added|)
  }

  /** The operator's log after the first n updates. */
  function LogAfter(leaves: Leaves, m: Contents, updates: seq<AuditorUpdate>, n: nat): (leaves': Leaves)
    requires n <= |updates|
    ensures |leaves'| == |leaves| + n
    decreases n, updates
  {
    if n == 0 then leaves
    else LogAfter(leaves, m, updates, n - 1) + [LogLeaf(updates[n - 1].timestamp, Root(MapAfter(m, updates, n)))]
  }

  /** The auditor's state is that of this map and log. */
  ghost predicate Follows(s: AuditState, m: Contents, leaves: Leaves) {
    s.prefixRoot == Root(m) && s.treeSize == |leaves| && s.peaks == PeakValues(leaves, |leaves|, 0)
  }

  lemma StepFollows(s: AuditState, m: Contents, leaves: Leaves, u: AuditorUpdate)
    requires Follows(s, m, leaves) && AuditStep(s, u).Ok? && Keys(u.removed) <= Keys(u.added)
    ensures var m' := AddAll(m, u.added, |u.added|);
            Follows(AuditStep(s, u).value, m', leaves + [LogLeaf(u.timestamp, Root(m'))])
  {
    AcceptedTransitionAdds(m, u.added, u.removed, u.proof.value);
    AppendIsNext(leaves, LogLeaf(u.timestamp, Root(AddAll(m, u.added, |u.added|))));
  }

  /**
   * Whatever the operator sends: as long as an auditor accepts updates that add back every key
   * they remove, it holds the root of the map overridden by them, and the log of those roots.
   */
  lemma {:induction false} AcceptedRunFollows(s: AuditState, m: Contents, leaves: Leaves, updates: seq<AuditorUpdate>,
                                              n: nat)
    requires Follows(s, m, leaves) && n <= |updates| && AuditRun(s, updates, n).1
    requires forall i :: 0 <= i < n ==> Keys(updates[i].removed) <= Keys(updates[i].added)
    ensures Follows(AuditRun(s, updates, n).0, MapAfter(m, updates, n), LogAfter(leaves, m, updates, n))
    decreases n
  {
    if n > 0 {
      AcceptedRunFollows(s, m, leaves, updates, n - 1);
      StepFollows(AuditRun(s, updates, n - 1).0, MapAfter(m, updates, n - 1), LogAfter(leaves, m, updates, n - 1),
                  updates[n - 1]);
    }
  }

  /** The head of an auditor that follows a log signs the root of that log. */
  lemma FollowerSignsRoot(s: AuditState, m: Contents, leaves: Leaves)
    requires Follows(s, m, leaves)
    ensures HeadOf(s) == SignedHead(|leaves|, s.lastTimestamp, LogRoot(leaves))
  {
    if leaves != [] { FoldIsLogRoot(leaves); }
  }

  function LastBefore(last: nat, updates: seq<AuditorUpdate>, i: nat): (t: nat)
    requires i <= |updates|
  {
    if i == 0 then last else updates[i - 1].timestamp
  }

  /** The first n updates of an operator, each honest about the map that the ones before it leave. */
  ghost predicate HonestRun(m: Contents, last: nat, updates: seq<AuditorUpdate>, answers: seq<seq<ProofResult>>, n: nat)
    requires n <= |updates| == |answers|
    decreases n, updates
  {
    n == 0 ||
    (HonestRun(m, last, updates, answers, n - 1)
     && HonestUpdate(MapAfter(m, updates, n - 1), updates[n - 1], answers[n - 1])
     && updates[n - 1].timestamp >= LastBefore(last, updates, n - 1))
  }

  /** After n updates the auditor has accepted all of them and is where the operator is. */
  ghost predicate CaughtUp(s: AuditState, m: Contents, leaves: Leaves, updates: seq<AuditorUpdate>, n: nat)
    requires n <= |updates|
  {
    && AuditRun(s, updates, n).1
    && AuditRun(s, updates, n).0.lastTimestamp == LastBefore(s.lastTimestamp, updates, n)
    && Follows(AuditRun(s, updates, n).0, MapAfter(m, updates, n), LogAfter(leaves, m, updates, n))
  }

  lemma CatchesUp(s: AuditState, m: Contents, leaves: Leaves, updates: seq<AuditorUpdate>,
                  answers: seq<seq<ProofResult>>, i: nat)
    requires i < |updates| == |answers| && CaughtUp(s, m, leaves, updates, i)
    requires HonestRun(m, s.lastTimestamp, updates, answers, i + 1)
    ensures CaughtUp(s, m, leaves, updates, i + 1)
  {
    var before, mi := AuditRun(s, updates, i).0, MapAfter(m, updates, i);
    HonestUpdateAccepted(mi, before.lastTimestamp, updates[i], answers[i]);
    HonestRemovesPresent(mi, updates[i], answers[i]);
    StepFollows(before, mi, LogAfter(leaves, m, updates, i), updates[i]);
  }

  /**
   * An auditor that starts with the operator's root and log, from genesis or from bootstrapped
   * peaks, accepts every honest update and holds the operator's roots after each.
   */
  lemma {:induction false} HonestRunAccepted(s: AuditState, m: Contents, leaves: Leaves, updates: seq<AuditorUpdate>,
                                             answers: seq<seq<ProofResult>>, n: nat)
    requires Follows(s, m, leaves) && n <= |updates| == |answers| && HonestRun(m, s.lastTimestamp, updates, answers, n)
    ensures CaughtUp(s, m, leaves, updates, n)
    decreases n
  {
    if n > 0 {
      HonestRunAccepted(s, m, leaves, updates, answers, n - 1);
      CatchesUp(s, m, leaves, updates, answers, n - 1);
    }
  }

  lemma HonestRemovesPresent(m: Contents, u: AuditorUpdate, answers: seq<ProofResult>)
    requires HonestUpdate(m, u, answers)
    ensures Keys(u.removed) <= Keys(u.added)
  {
    AnswersAreLookups(m, u.added, answers);
    PresentIsLookup(m, u.added, answers, |u.added|);
  }

  // ---- starting points ----

  lemma GenesisFollows()
    ensures Follows(AuditState(Zero, 0, 0, []), map[], [])
  {
    var none: Contents := map[];
    assert !Occupied(none, []);
  }

  /** An operator's starting point for an auditor; the first signature covers one size and root. */
  datatype BootstrapResponse = BootstrapResponse(treeSize: nat, firstSignature: Option<(nat, Digest)>,
                                                 logPeaks: seq<Digest>, prefixRoot: Digest, timestamp: nat)

  /** `bootstrap`: adopting the peaks whose root the operator signs, with its prefix root as it is. */
  method Bootstrap(auditor: KtAuditor, resp: BootstrapResponse) returns (ok: bool)
    requires auditor.Valid()
    modifies auditor
    ensures auditor.Valid()
    ensures ok <==> Bootstraps(resp)
    ensures !ok ==> auditor.State() == old(auditor.State()) && auditor.logAccumulator == old(auditor.logAccumulator)
    ensures ok ==> auditor.State() == BootstrapState(resp)
  {
    var acc := LogAccumulator.FromPeaks(resp.treeSize, resp.logPeaks);
    if acc.Err? {
      return false;
    }
    var root := acc.value.CalculateRoot();
    if resp.firstSignature != Some((resp.treeSize, root)) {
      return false;
    }
    auditor.logAccumulator := acc.value;
    auditor.prefixRoot := resp.prefixRoot;
    auditor.lastTimestamp := resp.timestamp;
    return true;
  }

  ghost predicate Bootstraps(resp: BootstrapResponse) {
    && |resp.logPeaks| == |Peaks(resp.treeSize, 0)|
    && resp.firstSignature == Some((resp.treeSize,
         RootOfPeaks(resp.treeSize, Labelled(Peaks(resp.treeSize, 0), resp.logPeaks))))
  }

  /** The state that a bootstrap leaves. */
  function BootstrapState(resp: BootstrapResponse): (s: AuditState)
    requires |resp.logPeaks| == |Peaks(resp.treeSize, 0)|
  {
    AuditState(resp.prefixRoot, resp.timestamp, resp.treeSize, Labelled(Peaks(resp.treeSize, 0), resp.logPeaks))
  }

  function RootOfPeaks(n: nat, peaks: seq<Peak>): Digest {
    if n == 0 || peaks == [] then Zero else FoldPeaks(peaks)
  }

  /** An auditor that bootstraps from the operator's own peaks follows the operator's log. */
  lemma BootstrapFollows(m: Contents, leaves: Leaves, timestamp: nat, logPeaks: seq<Digest>)
    requires |logPeaks| == |PeakValues(leaves, |leaves|, 0)|
    requires forall i :: 0 <= i < |logPeaks| ==> logPeaks[i] == PeakValues(leaves, |leaves|, 0)[i].1
    ensures Bootstraps(BootstrapResponse(|leaves|, Some((|leaves|, LogRoot(leaves))), logPeaks, Root(m), timestamp))
    ensures Follows(AuditState(Root(m), timestamp, |leaves|, Labelled(Peaks(|leaves|, 0), logPeaks)), m, leaves)
  {
    assert Labelled(Peaks(|leaves|, 0), logPeaks) == PeakValues(leaves, |leaves|, 0);
    if leaves != [] { FoldIsLogRoot(leaves); }
  }

  /**
   * Whatever the response: one that is adopted with the operator's signature over a log brings that log's
   * peaks, and the auditor follows the operator exactly when the prefix root in it is the operator's.
   */
  lemma BootstrapBinds(resp: BootstrapResponse, m: Contents, leaves: Leaves)
    requires Bootstraps(resp) && resp.firstSignature == Some((|leaves|, LogRoot(leaves)))
    ensures BootstrapState(resp).peaks == PeakValues(leaves, |leaves|, 0)
    ensures Follows(BootstrapState(resp), m, leaves) <==> resp.prefixRoot == Root(m)
  {
    var peaks := BootstrapState(resp).peaks;
    if leaves == [] {
      assert peaks == [];
    } else {
      FoldIsLogRoot(leaves);
      FoldBindsPeaks(peaks, PeakValues(leaves, |leaves|, 0));
    }
  }

  /** An honest update passes exactly from the operator's own prefix root and no later timestamp. */
  lemma HonestUpdateChecked(m: Contents, prefixRoot: Digest, last: nat, u: AuditorUpdate, answers: seq<ProofResult>)
    requires HonestUpdate(m, u, answers)
    ensures CheckedUpdate(prefixRoot, last, u).Ok? <==> prefixRoot == Root(m) && last <= u.timestamp
  {
    HonestUpdateAccepted(m, u.timestamp, u, answers);
    OneOldRoot(prefixRoot, Root(m), u.added, u.removed, u.proof.value);
  }

  /** A batch proof is accepted against one old root only. */
  lemma OneOldRoot(a: Digest, b: Digest, added: seq<Leaf>, removed: seq<Leaf>, proof: PrefixProof)
    requires NextRoot(b, added, removed, proof).Ok?
    ensures NextRoot(a, added, removed, proof).Ok? <==> a == b
  {}

  /**
   * Whatever the response: after adopting it with the operator's signature, the auditor accepts the
   * operator's next honest update, and then follows the operator, exactly when the prefix root was the
   * operator's and the timestamp is not past the update's.
   */
  lemma BootstrapNextUpdate(resp: BootstrapResponse, m: Contents, leaves: Leaves, u: AuditorUpdate,
                            answers: seq<ProofResult>)
    requires Bootstraps(resp) && resp.firstSignature == Some((|leaves|, LogRoot(leaves))) && HonestUpdate(m, u, answers)
    ensures AuditStep(BootstrapState(resp), u).Ok? <==> resp.prefixRoot == Root(m) && resp.timestamp <= u.timestamp
    ensures var m' := AddAll(m, u.added, |u.added|);
            AuditStep(BootstrapState(resp), u).Ok? ==>
              Follows(AuditStep(BootstrapState(resp), u).value, m', leaves + [LogLeaf(u.timestamp, Root(m'))])
  {
    BootstrapBinds(resp, m, leaves);
    HonestUpdateChecked(m, resp.prefixRoot, resp.timestamp, u, answers);
    if AuditStep(BootstrapState(resp), u).Ok? {
      HonestRemovesPresent(m, u, answers);
      StepFollows(BootstrapState(resp), m, leaves, u);
    }
  }

  /**
   * The signature does not cover the prefix root: the operator's own peaks and signature with any other
   * root are adopted, and no honest update passes from there.
   */
  lemma BootstrapAdoptsAnyPrefixRoot(m: Contents, leaves: Leaves, timestamp: nat, prefixRoot: Digest,
                                     logPeaks: seq<Digest>, u: AuditorUpdate, answers: seq<ProofResult>)
    requires |logPeaks| == |PeakValues(leaves, |leaves|, 0)| && prefixRoot != Root(m)
    requires forall i :: 0 <= i < |logPeaks| ==> logPeaks[i] == PeakValues(leaves, |leaves|, 0)[i].1
    requires HonestUpdate(m, u, answers)
    ensures var resp := BootstrapResponse(|leaves|, Some((|leaves|, LogRoot(leaves))), logPeaks, prefixRoot, timestamp);
            && Bootstraps(resp) && !Follows(BootstrapState(resp), m, leaves)
            && AuditStep(BootstrapState(resp), u).Err?
  {
    var resp := BootstrapResponse(|leaves|, Some((|leaves|, LogRoot(leaves))), logPeaks, prefixRoot, timestamp);
    BootstrapFollows(m, leaves, timestamp, logPeaks);
    BootstrapNextUpdate(resp, m, leaves, u, answers);
  }
}
