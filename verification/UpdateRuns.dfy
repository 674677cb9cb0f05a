/** The tree's version state over all runs of batches (src/batcher.rs, src/tree/write.rs, src/tree/read.rs). */
module UpdateRuns {
  import opened Digests
  import opened Updates

  predicate Rising(ptrs: seq<nat>) {
    forall i, j :: 0 <= i < j < |ptrs| ==> ptrs[i] < ptrs[j]
  }

  /** The first free prefix-tree position. */
  function NextPosition(ptrs: seq<nat>): (next: nat) {
    if ptrs == [] then 0 else ptrs[|ptrs| - 1] + 1
  }

  /** The log entries' positions after n more updates: one more log entry, unless there are none. */
  function Grown(ptrs: seq<nat>, n: nat): (ptrs': seq<nat>) {
    if n == 0 then ptrs else ptrs + [NextPosition(ptrs) + n - 1]
  }

  lemma GrownRises(ptrs: seq<nat>, n: nat)
    requires Rising(ptrs)
    ensures Rising(Grown(ptrs, n)) && NextPosition(Grown(ptrs, n)) == NextPosition(ptrs) + n
  {
  }

  /** A request that was accepted: its label and the greatest version it named. */
  type Claim = (Label, Option<nat>)

  /** Every accepted request named a version that has since been passed. */
  ghost predicate Passed(claims: set<Claim>, hs: Histories) {
    forall c :: c in claims ==> LessThan(c.1, LastVersion(HistoryOf(hs, c.0)))
  }

  /** The claims of the first k requests that are accepted. */
  ghost function ClaimsOf(hs: Histories, jobs: seq<Job>, k: nat): (claims: set<Claim>)
    requires k <= |jobs|
    decreases k, jobs
  {
    if k == 0 then {}
    else if VerdictOn(hs, jobs, k - 1).Accept?
        then ClaimsOf(hs, jobs, k - 1) + {(jobs[k - 1].name, jobs[k - 1].greatest)}
    else ClaimsOf(hs, jobs, k - 1)
  }

  lemma {:induction false} ClaimsPassed(hs: Histories, jobs: seq<Job>, k: nat, n: nat, hs': Histories)
    requires k <= n <= |jobs|
    requires forall l :: LastVersion(HistoryOf(hs', l)) == Current(hs, OverlayAfter(hs, jobs, n), l)
    ensures Passed(ClaimsOf(hs, jobs, k), hs')
    decreases k
  {
    if k > 0 {
      ClaimsPassed(hs, jobs, k - 1, n, hs');
      if VerdictOn(hs, jobs, k - 1).Accept? {
        AcceptedAdvances(hs, jobs, k - 1);
        CurrentGrows(hs, jobs, k, n, jobs[k - 1].name);
      }
    }
  }

  /** Request k of a batch repeats no claim accepted before it, in this batch or an earlier one. */
  ghost predicate IsNewClaim(hs: Histories, jobs: seq<Job>, claims: set<Claim>, k: nat)
    requires k < |jobs|
  {
    (jobs[k].name, jobs[k].greatest) !in claims + ClaimsOf(hs, jobs, k)
  }

  lemma NewClaim(hs: Histories, jobs: seq<Job>, claims: set<Claim>, k: nat)
    requires Passed(claims, hs) && k < |jobs| && VerdictOn(hs, jobs, k).Accept?
    ensures IsNewClaim(hs, jobs, claims, k)
  {
    var c := (jobs[k].name, jobs[k].greatest);
    AcceptedAdvances(hs, jobs, k);
    CurrentGrows(hs, jobs, 0, k, jobs[k].name);
    if c in ClaimsOf(hs, jobs, k) {
      var i := ClaimedBy(hs, jobs, k, c);
      AcceptedOnce(hs, jobs, i, k);
    }
  }

  lemma {:induction false} ClaimedBy(hs: Histories, jobs: seq<Job>, k: nat, c: Claim) returns (i: nat)
    requires k <= |jobs| && c in ClaimsOf(hs, jobs, k)
    ensures i < k && VerdictOn(hs, jobs, i).Accept? && c == (jobs[i].name, jobs[i].greatest)
    decreases k
  {
    if VerdictOn(hs, jobs, k - 1).Accept? && c == (jobs[k - 1].name, jobs[k - 1].greatest) {
      i := k - 1;
    } else {
      i := ClaimedBy(hs, jobs, k - 1, c);
    }
  }

  /** The histories end where phase 1 said they would. */
  lemma BatchEnds(hs: Histories, jobs: seq<Job>, start: nat, us: seq<PreUpdate>)
    requires AllLinear(hs, start) && us == PreAfter(hs, jobs, |jobs|)
    ensures AllPass(hs, us) && AllLinear(WithUpdates(hs, us, start, |us|), start + |us|)
    ensures forall l ::
              LastVersion(HistoryOf(WithUpdates(hs, us, start, |us|), l)) ==
              Current(hs, OverlayAfter(hs, jobs, |jobs|), l)
  {
    BatchPasses(hs, jobs, |jobs|);
    UpdatesKeepLinear(hs, us, start, |us|);
    forall l
      ensures LastVersion(HistoryOf(WithUpdates(hs, us, start, |us|), l)) ==
              Current(hs, OverlayAfter(hs, jobs, |jobs|), l)
    {
      assert Current(hs, AssignOverlay(hs, us, |us|), l) == Current(hs, OverlayAfter(hs, jobs, |jobs|), l);
    }
  }

  lemma OldClaimsPassed(claims: set<Claim>, hs: Histories, jobs: seq<Job>, hs': Histories)
    requires Passed(claims, hs)
    requires forall l :: LastVersion(HistoryOf(hs', l)) == Current(hs, OverlayAfter(hs, jobs, |jobs|), l)
    ensures Passed(claims, hs')
  {
    forall c | c in claims
      ensures LessThan(c.1, LastVersion(HistoryOf(hs', c.0)))
    {
      CurrentGrows(hs, jobs, 0, |jobs|, c.0);
    }
  }

  // ---- stored values ----

  /** The values by prefix-tree position, with those of the first k updates. */
  function StoredAfter(values: map<nat, Value>, us: seq<PreUpdate>, start: nat, k: nat): (values': map<nat, Value>)
    requires k <= |us|
    ensures forall p :: p in values' <==> p in values || start <= p < start + k
    ensures forall p :: p in values' ==> values'[p] == if start <= p < start + k then us[p - start].value else values[p]
    decreases k
  {
    if k == 0 then values else StoredAfter(values, us, start, k - 1)[start + k - 1 := us[k - 1].value]
  }

  /** A label has the version, and the value stored at its position is this one. */
  ghost predicate StoredAs(hs: Histories, values: map<nat, Value>, l: Label, v: nat, value: Value) {
    var h := HistoryOf(hs, l);
    v < |h| && h[v].0 == v && h[v].1 in values && values[h[v].1] == value
  }

  lemma {:induction false} UpdateInHistory(hs: Histories, us: seq<PreUpdate>, start: nat, k: nat, p: nat)
    requires p < k <= |us|
    ensures (us[p].version, start + p) in HistoryOf(WithUpdates(hs, us, start, k), us[p].name)
    decreases k
  {
    if p < k - 1 { UpdateInHistory(hs, us, start, k - 1, p); }
  }

  lemma {:induction false} UpdateIsStored(hs: Histories, us: seq<PreUpdate>, start: nat, values: map<nat, Value>,
                                          u: PreUpdate)
    requires AllLinear(WithUpdates(hs, us, start, |us|), start + |us|) && u in us
    ensures StoredAs(WithUpdates(hs, us, start, |us|), StoredAfter(values, us, start, |us|), u.name, u.version, u.value)
  {
    var p :| 0 <= p < |us| && us[p] == u;
    UpdateInHistory(hs, us, start, |us|, p);
    var h := HistoryOf(WithUpdates(hs, us, start, |us|), u.name);
    var j :| 0 <= j < |h| && h[j] == (u.version, start + p);
  }

  /** What was stored before stays. */
  lemma {:induction false} StoredStays(hs: Histories, us: seq<PreUpdate>, start: nat, values: map<nat, Value>,
                                       l: Label, v: nat, value: Value)
    requires AllLinear(hs, start) && StoredAs(hs, values, l, v, value)
    ensures StoredAs(WithUpdates(hs, us, start, |us|), StoredAfter(values, us, start, |us|), l, v, value)
  {
    HistoriesExtend(hs, us, start, |us|, l);
    assert HistoryOf(hs, l)[v] == HistoryOf(WithUpdates(hs, us, start, |us|), l)[v];
  }

  /** Every accepted request's values are stored, each as the version it was told. */
  ghost predicate StoredAsAsked(jobs: seq<Job>, verdicts: seq<Verdict>, hs: Histories, values: map<nat, Value>) {
    |verdicts| == |jobs| && forall k: nat, i: nat :: k < |jobs| && verdicts[k].Accept? && i < |jobs[k].values| ==>
      StoredAs(hs, values, jobs[k].name, verdicts[k].first + i, jobs[k].values[i])
  }

  lemma {:induction false} BatchIsStored(hs: Histories, us: seq<PreUpdate>, start: nat, values: map<nat, Value>,
                                         jobs: seq<Job>, verdicts: seq<Verdict>)
    requires AllLinear(WithUpdates(hs, us, start, |us|), start + |us|) && CarriesOut(jobs, verdicts, us)
    ensures StoredAsAsked(jobs, verdicts, WithUpdates(hs, us, start, |us|), StoredAfter(values, us, start, |us|))
  {
    forall k: nat, i: nat | k < |jobs| && verdicts[k].Accept? && i < |jobs[k].values|
      ensures StoredAs(WithUpdates(hs, us, start, |us|), StoredAfter(values, us, start, |us|), jobs[k].name,
                       verdicts[k].first + i, jobs[k].values[i])
    {
      UpdateIsStored(hs, us, start, values, PreUpdate(jobs[k].name, jobs[k].values[i], verdicts[k].first + i));
    }
  }

  /** A batch makes no versions but those of its accepted requests. */
  lemma {:induction false} BatchCounts(hs: Histories, next: nat, jobs: seq<Job>, verdicts: seq<Verdict>, hs': Histories,
                                       next': nat, l: Label)
    requires AllLinear(hs, next) && AllLinear(hs', next') && |verdicts| == |jobs|
    requires forall j :: 0 <= j < |jobs| ==> verdicts[j] == VerdictOn(hs, jobs, j)
    requires LastVersion(HistoryOf(hs', l)) == Current(hs, OverlayAfter(hs, jobs, |jobs|), l)
    ensures |HistoryOf(hs', l)| == |HistoryOf(hs, l)| + Made(jobs, verdicts, |jobs|, l)
  {
    CurrentIsCount(hs, next, jobs, verdicts, |jobs|, l);
  }

  /** No stored value is lost or replaced. */
  ghost predicate StoredKept(hs: Histories, values: map<nat, Value>, hs': Histories, values': map<nat, Value>) {
    forall l, v: nat, value :: StoredAs(hs, values, l, v, value) ==> StoredAs(hs', values', l, v, value)
  }

  /**
   * What a batch does: each request is judged by how many versions its label has when its turn comes, the values of
   * the accepted ones are stored as the versions they were told, nothing stored is lost, and no more is stored.
   */
  ghost predicate BatchDone(hs: Histories, values: map<nat, Value>, jobs: seq<Job>, verdicts: seq<Verdict>,
                            hs': Histories, values': map<nat, Value>) {
    && StoredAsAsked(jobs, verdicts, hs', values') && StoredKept(hs, values, hs', values')
    && (forall k :: 0 <= k < |jobs| ==>
          Judged(verdicts[k], jobs[k], |HistoryOf(hs, jobs[k].name)| + Made(jobs, verdicts, k, jobs[k].name)))
    && (forall l :: |HistoryOf(hs', l)| == |HistoryOf(hs, l)| + Made(jobs, verdicts, |jobs|, l))
  }

  lemma {:induction false} BatchIsDone(hs: Histories, values: map<nat, Value>, jobs: seq<Job>, verdicts: seq<Verdict>,
                                       us: seq<PreUpdate>, start: nat)
    requires AllLinear(hs, start) && us == PreAfter(hs, jobs, |jobs|) && CarriesOut(jobs, verdicts, us)
    requires forall k :: 0 <= k < |jobs| ==> verdicts[k] == VerdictOn(hs, jobs, k)
    ensures BatchDone(hs, values, jobs, verdicts, WithUpdates(hs, us, start, |us|),
                      StoredAfter(values, us, start, |us|))
  {
    var hs', values' := WithUpdates(hs, us, start, |us|), StoredAfter(values, us, start, |us|);
    BatchEnds(hs, jobs, start, us);
    BatchIsStored(hs, us, start, values, jobs, verdicts);
    forall l, v: nat, value | StoredAs(hs, values, l, v, value)
      ensures StoredAs(hs', values', l, v, value)
    {
      StoredStays(hs, us, start, values, l, v, value);
    }
    forall k | 0 <= k < |jobs|
      ensures Judged(verdicts[k], jobs[k], |HistoryOf(hs, jobs[k].name)| + Made(jobs, verdicts, k, jobs[k].name))
    {
      VerdictsByCount(hs, start, jobs, verdicts, k);
    }
    forall l
      ensures |HistoryOf(hs', l)| == |HistoryOf(hs, l)| + Made(jobs, verdicts, |jobs|, l)
    {
      BatchCounts(hs, start, jobs, verdicts, hs', start + |us|, l);
    }
  }

  lemma {:induction false} StoredUpTo(values: map<nat, Value>, us: seq<PreUpdate>, start: nat)
    requires ValuesUpTo(values, start)
    ensures ValuesUpTo(StoredAfter(values, us, start, |us|), start + |us|)
  {}

  ghost predicate ValuesUpTo(values: map<nat, Value>, next: nat) {
    forall p: nat :: p in values <==> p < next
  }

  class Tree {
    var histories: Histories
    /** The value inserted at each prefix-tree position. */
    var values: map<nat, Value>
    /** For each log entry, the last prefix-tree position it covers. */
    var prefixPtrs: seq<nat>
    var nextPrefixVersion: nat
    /** The requests accepted so far. */
    ghost var claims: set<Claim>

    ghost predicate Valid()
      reads this
    {
      && AllLinear(histories, nextPrefixVersion) && Passed(claims, histories)
      && Rising(prefixPtrs) && nextPrefixVersion == NextPosition(prefixPtrs)
      && ValuesUpTo(values, nextPrefixVersion)
    }

    constructor ()
      ensures Valid() && histories == map[] && prefixPtrs == [] && claims == {} && values == map[]
    {
      histories, prefixPtrs, nextPrefixVersion, claims, values := map[], [], 0, {}, map[];
    }

    /** `apply_batch`: one log entry for the updates that still fit, whose values are stored. */
    method ApplyBatch(us: seq<PreUpdate>) returns (passed: seq<bool>)
      requires us != []
      modifies `histories, `values, `prefixPtrs, `nextPrefixVersion
      ensures |passed| == |us| && forall k :: 0 <= k < |us| ==> (passed[k] <==> old(Passes(histories, us, k)))
      ensures var valid := old(Passing(histories, us, |us|));
              && histories == WithUpdates(old(histories), valid, old(nextPrefixVersion), |valid|)
              && prefixPtrs == (if valid == [] then old(prefixPtrs)
                   else old(prefixPtrs) + [old(nextPrefixVersion) + |valid| - 1])
              && nextPrefixVersion == old(nextPrefixVersion) + |valid|
              && values == StoredAfter(old(values), valid, old(nextPrefixVersion), |valid|)
    {
      var valid;
      valid, passed := AssignVersions(histories, us);
      if valid == [] {
        return;
      }
      var start := nextPrefixVersion;
      prefixPtrs := prefixPtrs + [start + |valid| - 1];
      nextPrefixVersion := start + |valid| - 1 + 1;
      StoreBatch(valid, start);
    }

    /** The values and the histories of a batch. */
    method StoreBatch(valid: seq<PreUpdate>, start: nat)
      modifies `histories, `values
      ensures histories == WithUpdates(old(histories), valid, start, |valid|)
      ensures values == StoredAfter(old(values), valid, start, |valid|)
    {
      for k := 0 to |valid|
        invariant histories == WithUpdates(old(histories), valid, start, k)
        invariant values == StoredAfter(old(values), valid, start, k)
      {
        values := values[start + k := valid[k].value];
        histories := histories[valid[k].name := HistoryOf(histories, valid[k].name) + [(valid[k].version, start + k)]];
      }
    }

    /**
     * `process_batch`, as one step: the accepted requests make one log entry, in which each gets
     * the versions that phase 1 gave it; no request accepted before is accepted again.
     */
    method ProcessBatch(jobs: seq<Job>) returns (verdicts: seq<Verdict>, passed: seq<bool>)
      requires Valid()
      modifies this
      ensures Valid()
      ensures |verdicts| == |jobs| && forall k :: 0 <= k < |jobs| ==> verdicts[k] == VerdictOn(old(histories), jobs, k)
      ensures var us := PreAfter(old(histories), jobs, |jobs|);
              && histories == WithUpdates(old(histories), us, old(nextPrefixVersion), |us|)
              && prefixPtrs == Grown(old(prefixPtrs), |us|)
      ensures BatchDone(old(histories), old(values), jobs, verdicts, histories, values)
      ensures |passed| == |PreAfter(old(histories), jobs, |jobs|)| && forall k :: 0 <= k < |passed| ==> passed[k]
      ensures claims == old(claims) + ClaimsOf(old(histories), jobs, |jobs|)
      ensures forall k :: 0 <= k < |jobs| && verdicts[k].Accept? ==> IsNewClaim(old(histories), jobs, old(claims), k)
    {
      var pre;
      verdicts, pre := Classify(histories, jobs);
      ghost var hs, stored, ptrs, made := histories, values, prefixPtrs, ClaimsOf(histories, jobs, |jobs|);
      passed := CommitBatch(jobs, pre);
      GrownRises(ptrs, |pre|);
      BatchStep(hs, jobs, NextPosition(ptrs), claims, pre, histories);
      BatchIsDone(hs, stored, jobs, verdicts, pre, NextPosition(ptrs));
      StoredUpTo(stored, pre, NextPosition(ptrs));
      claims := claims + made;
    }

    /** The updates of phase 1 in the tree. */
    method CommitBatch(ghost jobs: seq<Job>, pre: seq<PreUpdate>) returns (passed: seq<bool>)
      requires pre == PreAfter(histories, jobs, |jobs|) && nextPrefixVersion == NextPosition(prefixPtrs)
      modifies `histories, `values, `prefixPtrs, `nextPrefixVersion
      ensures |passed| == |pre| && forall k :: 0 <= k < |passed| ==> passed[k]
      ensures histories == WithUpdates(old(histories), pre, old(nextPrefixVersion), |pre|)
      ensures values == StoredAfter(old(values), pre, old(nextPrefixVersion), |pre|)
      ensures prefixPtrs == Grown(old(prefixPtrs), |pre|) && nextPrefixVersion == old(nextPrefixVersion) + |pre|
    {
      SecondCheckAgrees(histories, jobs);
      passed := [];
      if pre != [] {
        passed := ApplyBatch(pre);
      }
    }
  }

  /** Everything a batch keeps. */
  lemma BatchStep(hs: Histories, jobs: seq<Job>, start: nat, claims: set<Claim>, us: seq<PreUpdate>, hs': Histories)
    requires AllLinear(hs, start) && Passed(claims, hs) && us == PreAfter(hs, jobs, |jobs|)
            && hs' == WithUpdates(hs, us, start, |us|)
    ensures AllLinear(hs', start + |us|) && Passed(claims + ClaimsOf(hs, jobs, |jobs|), hs')
    ensures forall k :: 0 <= k < |jobs| && VerdictOn(hs, jobs, k).Accept? ==> IsNewClaim(hs, jobs, claims, k)
  {
    BatchEnds(hs, jobs, start, us);
    ClaimsPassed(hs, jobs, |jobs|, |jobs|, hs');
    OldClaimsPassed(claims, hs, jobs, hs');
    forall k | 0 <= k < |jobs| && VerdictOn(hs, jobs, k).Accept?
      ensures IsNewClaim(hs, jobs, claims, k)
    {
      NewClaim(hs, jobs, claims, k);
    }
  }
}
