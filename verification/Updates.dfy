/**
 * Creating versions of labels (section 13.5 of draft-ietf-keytrans-protocol-05): the batcher's
 * compare-and-swap (src/batcher.rs) and the tree's second check (src/tree/write.rs).
 */
module Updates {
  import opened Digests

  type Label = string
  type Value = nat

  /** The versions of a label, each with the prefix-tree position at which it was inserted. */
  type History = seq<(nat, nat)>
  type Histories = map<Label, History>

  /** The last version given out to a label in the batch at hand. */
  type Overlay = map<Label, nat>

  /** A request to create versions after the greatest one its sender knows. */
  datatype Job = Job(name: Label, greatest: Option<nat>, values: seq<Value>)

  datatype Verdict = Accept(first: nat) | CatchUp | VersionConflict | NoValues | LongLabel

  datatype PreUpdate = PreUpdate(name: Label, value: Value, version: nat)

  const MAX_LABEL: nat := 255

  function HistoryOf(hs: Histories, l: Label): (h: History) {
    if l in hs then hs[l] else []
  }

  function LastVersion(h: History): (v: Option<nat>) {
    if h == [] then None else Some(h[|h| - 1].0)
  }

  /** The greatest version of a label, counting those of the batch at hand. */
  function Current(hs: Histories, ov: Overlay, l: Label): (v: Option<nat>) {
    if l in ov then Some(ov[l]) else LastVersion(HistoryOf(hs, l))
  }

  function Next(v: Option<nat>): (next: nat) {
    if v.Some? then v.value + 1 else 0
  }

  // ---- phase 1 ----

  function Judge(hs: Histories, ov: Overlay, job: Job): (v: Verdict) {
    var current := Current(hs, ov, job.name);
    if job.greatest != current then
      (if current.Some? && (job.greatest.None? || job.greatest.value < current.value) then CatchUp else VersionConflict)
    else if job.values == [] then NoValues
    else if |job.name| > MAX_LABEL then LongLabel
    else Accept(Next(current))
  }

  function OverlayAfter(hs: Histories, jobs: seq<Job>, k: nat): (ov: Overlay)
    requires k <= |jobs|
    decreases k, jobs
  {
    if k == 0 then map[]
    else
      var ov := OverlayAfter(hs, jobs, k - 1);
      var v := Judge(hs, ov, jobs[k - 1]);
      if v.Accept? then ov[jobs[k - 1].name := v.first + |jobs[k - 1].values| - 1] else ov
  }

  function VerdictOn(hs: Histories, jobs: seq<Job>, k: nat): (v: Verdict)
    requires k < |jobs|
  {
    Judge(hs, OverlayAfter(hs, jobs, k), jobs[k])
  }

  /** The versions of one accepted request. */
  function UpdatesOf(job: Job, first: nat, n: nat): (us: seq<PreUpdate>)
    requires n <= |job.values|
    ensures |us| == n
    decreases n, job
  {
    if n == 0 then [] else UpdatesOf(job, first, n - 1) + [PreUpdate(job.name, job.values[n - 1], first + n - 1)]
  }

  function PreAfter(hs: Histories, jobs: seq<Job>, k: nat): (us: seq<PreUpdate>)
    requires k <= |jobs|
    decreases k, jobs
  {
    if k == 0 then []
    else
      var v := VerdictOn(hs, jobs, k - 1);
      if v.Accept? then PreAfter(hs, jobs, k - 1) + UpdatesOf(jobs[k - 1], v.first, |jobs[k - 1].values|)
      else PreAfter(hs, jobs, k - 1)
  }

  method JudgeJob(hs: Histories, ov: Overlay, job: Job) returns (v: Verdict)
    ensures v == Judge(hs, ov, job)
  {
    var current: Option<nat> := if job.name in ov then Some(ov[job.name]) else LastVersion(HistoryOf(hs, job.name));
    if job.greatest != current {
      var behind;
      if job.greatest.None? && current.Some? {
        behind := true;
      } else if job.greatest.Some? && current.Some? {
        behind := job.greatest.value < current.value;
      } else {
        behind := false;
      }
      return if behind then CatchUp else VersionConflict;
    }
    if job.values == [] {
      return NoValues;
    }
    if |job.name| > MAX_LABEL {
      return LongLabel;
    }
    return Accept(if current.Some? then current.value + 1 else 0);
  }

  /** Phase 1 of `process_batch`: a verdict on every request, and the versions of the accepted ones. */
  method Classify(hs: Histories, jobs: seq<Job>) returns (verdicts: seq<Verdict>, pre: seq<PreUpdate>)
    ensures |verdicts| == |jobs| && forall k :: 0 <= k < |jobs| ==> verdicts[k] == VerdictOn(hs, jobs, k)
    ensures pre == PreAfter(hs, jobs, |jobs|) && CarriesOut(jobs, verdicts, pre)
  {
    verdicts, pre := [], [];
    var overlay: Overlay := map[];
    for k := 0 to |jobs|
      invariant overlay == OverlayAfter(hs, jobs, k) && pre == PreAfter(hs, jobs, k)
      invariant |verdicts| == k && forall i :: 0 <= i < k ==> verdicts[i] == VerdictOn(hs, jobs, i)
    {
      var v := JudgeJob(hs, overlay, jobs[k]);
      verdicts := verdicts + [v];
      if v.Accept? {
        var us: seq<PreUpdate> := [];
        for i := 0 to |jobs[k].values|
          invariant us == UpdatesOf(jobs[k], v.first, i)
        {
          us := us + [PreUpdate(jobs[k].name, jobs[k].values[i], v.first + i)];
        }
        overlay := overlay[jobs[k].name := v.first + |jobs[k].values| - 1];
        pre := pre + us;
      }
    }
    BatchCarriesOut(hs, jobs, verdicts);
  }

  // ---- compare and swap ----

  /** Greatest versions in order; no version at all is less than any. */
  predicate AtMost(a: Option<nat>, b: Option<nat>) {
    a.None? || (b.Some? && a.value <= b.value)
  }

  predicate LessThan(a: Option<nat>, b: Option<nat>) {
    b.Some? && (a.None? || a.value < b.value)
  }

  lemma {:induction false} CurrentGrows(hs: Histories, jobs: seq<Job>, i: nat, j: nat, l: Label)
    requires i <= j <= |jobs|
    ensures AtMost(Current(hs, OverlayAfter(hs, jobs, i), l), Current(hs, OverlayAfter(hs, jobs, j), l))
    decreases j
  {
    if i < j { CurrentGrows(hs, jobs, i, j - 1, l); }
  }

  lemma AcceptedAdvances(hs: Histories, jobs: seq<Job>, i: nat)
    requires i < |jobs| && VerdictOn(hs, jobs, i).Accept?
    ensures jobs[i].greatest == Current(hs, OverlayAfter(hs, jobs, i), jobs[i].name)
    ensures LessThan(jobs[i].greatest, Current(hs, OverlayAfter(hs, jobs, i + 1), jobs[i].name))
  {
  }

  /** Of the requests of a batch for the same label at the same greatest version, at most one is accepted. */
  lemma AcceptedOnce(hs: Histories, jobs: seq<Job>, i: nat, j: nat)
    requires i < j < |jobs| && jobs[i].name == jobs[j].name
    requires VerdictOn(hs, jobs, i).Accept? && VerdictOn(hs, jobs, j).Accept?
    ensures LessThan(jobs[i].greatest, jobs[j].greatest)
  {
    AcceptedAdvances(hs, jobs, i);
    CurrentGrows(hs, jobs, i + 1, j, jobs[i].name);
  }

  // ---- the second check ----

  function AssignOverlay(hs: Histories, us: seq<PreUpdate>, k: nat): (ov: Overlay)
    requires k <= |us|
    decreases k, us
  {
    if k == 0 then map[]
    else
      var ov := AssignOverlay(hs, us, k - 1);
      if us[k - 1].version == Next(Current(hs, ov, us[k - 1].name)) then ov[us[k - 1].name := us[k - 1].version] else ov
  }

  /** The update still fits its place in the batch. */
  predicate Passes(hs: Histories, us: seq<PreUpdate>, k: nat)
    requires k < |us|
  {
    us[k].version == Next(Current(hs, AssignOverlay(hs, us, k), us[k].name))
  }

  function Passing(hs: Histories, us: seq<PreUpdate>, k: nat): (valid: seq<PreUpdate>)
    requires k <= |us|
    decreases k, us
  {
    if k == 0 then [] else if Passes(hs, us, k - 1) then Passing(hs, us, k - 1) + [us[k - 1]]
        else Passing(hs, us, k - 1)
  }

  /** Version assignment in `apply_batch`. */
  method AssignVersions(hs: Histories, us: seq<PreUpdate>) returns (valid: seq<PreUpdate>, passed: seq<bool>)
    ensures valid == Passing(hs, us, |us|)
    ensures |passed| == |us| && forall k :: 0 <= k < |us| ==> (passed[k] <==> Passes(hs, us, k))
  {
    valid, passed := [], [];
    var overlay: Overlay := map[];
    for k := 0 to |us|
      invariant overlay == AssignOverlay(hs, us, k) && valid == Passing(hs, us, k)
      invariant |passed| == k && forall i :: 0 <= i < k ==> (passed[i] <==> Passes(hs, us, i))
    {
      var history := HistoryOf(hs, us[k].name);
      var currentVer := if history == [] then 0 else history[|history| - 1].0;
      if us[k].name in overlay {
        currentVer := overlay[us[k].name];
      }
      var nextVer := if history == [] && us[k].name !in overlay then 0 else currentVer + 1;
      if us[k].version != nextVer {
        passed := passed + [false];
        continue;
      }
      overlay := overlay[us[k].name := nextVer];
      valid := valid + [us[k]];
      passed := passed + [true];
    }
  }

  /** Two overlays stand for the same greatest versions. */
  ghost predicate SameCurrent(hs: Histories, a: Overlay, b: Overlay) {
    forall l :: Current(hs, a, l) == Current(hs, b, l)
  }

  lemma {:induction false} AssignPrefix(hs: Histories, us: seq<PreUpdate>, more: seq<PreUpdate>, k: nat)
    requires us <= more && k <= |us|
    ensures AssignOverlay(hs, us, k) == AssignOverlay(hs, more, k)
    ensures k < |us| ==> (Passes(hs, us, k) <==> Passes(hs, more, k))
    decreases k
  {
    if k > 0 { AssignPrefix(hs, us, more, k - 1); }
  }

  ghost predicate AllPass(hs: Histories, us: seq<PreUpdate>) {
    forall k :: 0 <= k < |us| ==> Passes(hs, us, k)
  }

  lemma PassOneMore(hs: Histories, us: seq<PreUpdate>, u: PreUpdate)
    requires AllPass(hs, us) && u.version == Next(Current(hs, AssignOverlay(hs, us, |us|), u.name))
    ensures AllPass(hs, us + [u])
    ensures AssignOverlay(hs, us + [u], |us| + 1) == AssignOverlay(hs, us, |us|)[u.name := u.version]
  {
    forall k | 0 <= k <= |us|
      ensures Passes(hs, us + [u], k) && AssignOverlay(hs, us, k) == AssignOverlay(hs, us + [u], k)
    {
      AssignPrefix(hs, us, us + [u], k);
    }
  }

  /** The overlay with the first n versions of a request. */
  function OverlayAt(ov: Overlay, l: Label, first: nat, n: nat): (ov': Overlay) {
    if n == 0 then ov else ov[l := first + n - 1]
  }

  /** The versions of one accepted request pass after those of the requests before it. */
  lemma {:induction false} RequestPasses(hs: Histories, us: seq<PreUpdate>, ov: Overlay, job: Job, first: nat, n: nat,
                                         all: seq<PreUpdate>)
    requires AllPass(hs, us) && SameCurrent(hs, AssignOverlay(hs, us, |us|), ov)
    requires n <= |job.values| && first == Next(Current(hs, ov, job.name)) && all == us + UpdatesOf(job, first, n)
    ensures AllPass(hs, all) && SameCurrent(hs, AssignOverlay(hs, all, |all|), OverlayAt(ov, job.name, first, n))
    decreases n
  {
    if n == 0 {
      assert all == us;
    } else {
      var before := us + UpdatesOf(job, first, n - 1);
      RequestPasses(hs, us, ov, job, first, n - 1, before);
      var u := PreUpdate(job.name, job.values[n - 1], first + n - 1);
      OneMoreFits(hs, before, OverlayAt(ov, job.name, first, n - 1), OverlayAt(ov, job.name, first, n), u);
      assert all == before + [u];
    }
  }

  lemma OneMoreFits(hs: Histories, us: seq<PreUpdate>, before: Overlay, after: Overlay, u: PreUpdate)
    requires AllPass(hs, us) && SameCurrent(hs, AssignOverlay(hs, us, |us|), before)
    requires u.version == Next(Current(hs, before, u.name)) && u.name in after && after[u.name] == u.version
    requires forall m :: m != u.name ==> (m in before <==> m in after) && (m in before ==> before[m] == after[m])
    ensures AllPass(hs, us + [u]) && SameCurrent(hs, AssignOverlay(hs, us + [u], |us| + 1), after)
  {
    assert Current(hs, before, u.name) == Current(hs, AssignOverlay(hs, us, |us|), u.name);
    PassOneMore(hs, us, u);
    SetSame(hs, AssignOverlay(hs, us, |us|), before, AssignOverlay(hs, us + [u], |us| + 1), after, u.name, u.version);
  }

  /** Setting the same version in both keeps two overlays the same. */
  lemma SetSame(hs: Histories, a: Overlay, b: Overlay, a': Overlay, b': Overlay, l: Label, v: nat)
    requires SameCurrent(hs, a, b) && a' == a[l := v] && l in b' && b'[l] == v
    requires forall m :: m != l ==> (m in b <==> m in b') && (m in b ==> b[m] == b'[m])
    ensures SameCurrent(hs, a', b')
  {
    forall m
      ensures Current(hs, a', m) == Current(hs, b', m)
    {
      assert Current(hs, a, m) == Current(hs, b, m);
    }
  }

  lemma {:induction false} BatchPasses(hs: Histories, jobs: seq<Job>, k: nat)
    requires k <= |jobs|
    ensures AllPass(hs, PreAfter(hs, jobs, k))
    ensures SameCurrent(hs, AssignOverlay(hs, PreAfter(hs, jobs, k), |PreAfter(hs, jobs, k)|),
                        OverlayAfter(hs, jobs, k))
    decreases k
  {
    if k > 0 {
      BatchPasses(hs, jobs, k - 1);
      var v := VerdictOn(hs, jobs, k - 1);
      if v.Accept? {
        RequestPasses(hs, PreAfter(hs, jobs, k - 1), OverlayAfter(hs, jobs, k - 1), jobs[k - 1], v.first,
                      |jobs[k - 1].values|,
                      PreAfter(hs, jobs, k));
      }
    }
  }

  lemma {:induction false} AllPassing(hs: Histories, us: seq<PreUpdate>, k: nat)
    requires AllPass(hs, us) && k <= |us|
    ensures Passing(hs, us, k) == us[..k]
    decreases k
  {
    if k > 0 { AllPassing(hs, us, k - 1); }
  }

  /** The second check never rejects what the first one assigned. */
  lemma SecondCheckAgrees(hs: Histories, jobs: seq<Job>)
    ensures var us := PreAfter(hs, jobs, |jobs|); AllPass(hs, us) && Passing(hs, us, |us|) == us
  {
    var us := PreAfter(hs, jobs, |jobs|);
    BatchPasses(hs, jobs, |jobs|);
    AllPassing(hs, us, |us|);
    assert us[..|us|] == us;
  }

  // ---- which value becomes which version ----

  /** The update is what request k asks for with its value i: that value, i versions after the first it was told. */
  ghost predicate AskedBy(jobs: seq<Job>, verdicts: seq<Verdict>, k: nat, i: nat, u: PreUpdate) {
    && k < |jobs| == |verdicts| && verdicts[k].Accept? && i < |jobs[k].values|
    && u == PreUpdate(jobs[k].name, jobs[k].values[i], verdicts[k].first + i)
  }

  /** Each value of an accepted request is one update, there are no others, and no two make the same version. */
  ghost predicate CarriesOut(jobs: seq<Job>, verdicts: seq<Verdict>, us: seq<PreUpdate>) {
    && |verdicts| == |jobs|
    && (forall k: nat, i: nat :: k < |jobs| && verdicts[k].Accept? && i < |jobs[k].values| ==>
          PreUpdate(jobs[k].name, jobs[k].values[i], verdicts[k].first + i) in us)
    && (forall u :: u in us ==> exists k: nat, i: nat :: AskedBy(jobs, verdicts, k, i, u))
    && (forall p, q :: 0 <= p < q < |us| && us[p].name == us[q].name ==> us[p].version < us[q].version)
  }

  lemma {:induction false} UpdatesOfAt(job: Job, first: nat, n: nat, i: nat)
    requires i < n <= |job.values|
    ensures UpdatesOf(job, first, n)[i] == PreUpdate(job.name, job.values[i], first + i)
    decreases n
  {
    if i < n - 1 { UpdatesOfAt(job, first, n - 1, i); }
  }

  lemma {:induction false} AllAsked(hs: Histories, jobs: seq<Job>, k: nat, n: nat, i: nat)
    requires k < n <= |jobs| && VerdictOn(hs, jobs, k).Accept? && i < |jobs[k].values|
    ensures PreUpdate(jobs[k].name, jobs[k].values[i], VerdictOn(hs, jobs, k).first + i) in PreAfter(hs, jobs, n)
    decreases n
  {
    if k < n - 1 {
      AllAsked(hs, jobs, k, n - 1, i);
    } else {
      var us := UpdatesOf(jobs[k], VerdictOn(hs, jobs, k).first, |jobs[k].values|);
      UpdatesOfAt(jobs[k], VerdictOn(hs, jobs, k).first, |jobs[k].values|, i);
      assert us[i] in us;
    }
  }

  lemma {:induction false} OnlyAsked(hs: Histories, jobs: seq<Job>, n: nat, verdicts: seq<Verdict>, u: PreUpdate)
    returns (k: nat, i: nat)
    requires n <= |jobs| == |verdicts| && forall j :: 0 <= j < |jobs| ==> verdicts[j] == VerdictOn(hs, jobs, j)
    requires u in PreAfter(hs, jobs, n)
    ensures AskedBy(jobs, verdicts, k, i, u)
    decreases n
  {
    if u in PreAfter(hs, jobs, n - 1) {
      k, i := OnlyAsked(hs, jobs, n - 1, verdicts, u);
    } else {
      var us := UpdatesOf(jobs[n - 1], verdicts[n - 1].first, |jobs[n - 1].values|);
      k := n - 1;
      i :| 0 <= i < |us| && us[i] == u;
      UpdatesOfAt(jobs[k], verdicts[k].first, |jobs[k].values|, i);
    }
  }

  /** An update that passed is counted from then on. */
  lemma {:induction false} PassedCounts(hs: Histories, us: seq<PreUpdate>, p: nat, k: nat)
    requires AllPass(hs, us) && p < k <= |us|
    ensures us[p].name in AssignOverlay(hs, us, k) && us[p].version <= AssignOverlay(hs, us, k)[us[p].name]
    decreases k
  {
    assert Passes(hs, us, k - 1);
    if p < k - 1 { PassedCounts(hs, us, p, k - 1); }
  }

  lemma {:induction false} BatchCarriesOut(hs: Histories, jobs: seq<Job>, verdicts: seq<Verdict>)
    requires |verdicts| == |jobs| && forall k :: 0 <= k < |jobs| ==> verdicts[k] == VerdictOn(hs, jobs, k)
    ensures CarriesOut(jobs, verdicts, PreAfter(hs, jobs, |jobs|))
  {
    var us := PreAfter(hs, jobs, |jobs|);
    forall k: nat, i: nat | k < |jobs| && verdicts[k].Accept? && i < |jobs[k].values|
      ensures PreUpdate(jobs[k].name, jobs[k].values[i], verdicts[k].first + i) in us
    {
      AllAsked(hs, jobs, k, |jobs|, i);
    }
    forall u | u in us
      ensures exists k: nat, i: nat :: AskedBy(jobs, verdicts, k, i, u)
    {
      var k, i := OnlyAsked(hs, jobs, |jobs|, verdicts, u);
    }
    BatchPasses(hs, jobs, |jobs|);
    forall p, q | 0 <= p < q < |us| && us[p].name == us[q].name
      ensures us[p].version < us[q].version
    {
      PassedCounts(hs, us, p, q);
      assert Passes(hs, us, q);
    }
  }

  // ---- how requests are judged ----

  /** How many versions of a label the first k requests make. */
  function Made(jobs: seq<Job>, verdicts: seq<Verdict>, k: nat, l: Label): (n: nat)
    requires k <= |jobs| == |verdicts|
    decreases k
  {
    if k == 0 then 0
    else Made(jobs, verdicts, k - 1, l) +
         if verdicts[k - 1].Accept? && jobs[k - 1].name == l then |jobs[k - 1].values| else 0
  }

  /**
   * A request for a label that has so many versions: it is accepted if it knows all of them, names values and the label
   * is not too long; it is to catch up if it knows fewer, and in conflict if it names more.
   */
  ghost predicate Judged(v: Verdict, job: Job, count: nat) {
    match v
    case Accept(first) => Next(job.greatest) == count == first && job.values != [] && |job.name| <= MAX_LABEL
    case CatchUp => Next(job.greatest) < count
    case VersionConflict => Next(job.greatest) > count
    case NoValues => Next(job.greatest) == count && job.values == []
    case LongLabel => Next(job.greatest) == count && job.values != [] && |job.name| > MAX_LABEL
  }

  lemma {:induction false} CurrentIsCount(hs: Histories, next: nat, jobs: seq<Job>, verdicts: seq<Verdict>, k: nat,
                                          l: Label)
    requires AllLinear(hs, next) && k <= |jobs| == |verdicts|
    requires forall j :: 0 <= j < |jobs| ==> verdicts[j] == VerdictOn(hs, jobs, j)
    ensures Next(Current(hs, OverlayAfter(hs, jobs, k), l)) == |HistoryOf(hs, l)| + Made(jobs, verdicts, k, l)
    decreases k
  {
    if k > 0 { CurrentIsCount(hs, next, jobs, verdicts, k - 1, l); }
  }

  /** Every verdict follows from how many versions the label has when the request's turn comes. */
  lemma {:induction false} VerdictsByCount(hs: Histories, next: nat, jobs: seq<Job>, verdicts: seq<Verdict>, k: nat)
    requires AllLinear(hs, next) && k < |jobs| == |verdicts|
    requires forall j :: 0 <= j < |jobs| ==> verdicts[j] == VerdictOn(hs, jobs, j)
    ensures Judged(verdicts[k], jobs[k], |HistoryOf(hs, jobs[k].name)| + Made(jobs, verdicts, k, jobs[k].name))
  {
    CurrentIsCount(hs, next, jobs, verdicts, k, jobs[k].name);
  }

  // ---- histories ----

  /** The histories with the first k updates, inserted at consecutive positions. */
  function WithUpdates(hs: Histories, us: seq<PreUpdate>, start: nat, k: nat): (hs': Histories)
    requires k <= |us|
    decreases k, us
  {
    if k == 0 then hs
    else
      var before := WithUpdates(hs, us, start, k - 1);
      before[us[k - 1].name := HistoryOf(before, us[k - 1].name) + [(us[k - 1].version, start + k - 1)]]
  }

  /** Versions 0, 1, 2 and so on, at increasing positions below the next free one. */
  ghost predicate Linear(h: History, next: nat) {
    && (forall i :: 0 <= i < |h| ==> h[i].0 == i && h[i].1 < next)
    && (forall i, j :: 0 <= i < j < |h| ==> h[i].1 < h[j].1)
  }

  ghost predicate AllLinear(hs: Histories, next: nat) {
    forall l :: l in hs ==> hs[l] != [] && Linear(hs[l], next)
  }

  lemma LinearMore(h: History, next: nat, v: nat)
    requires Linear(h, next) && v == |h|
    ensures Linear(h + [(v, next)], next + 1)
  {
  }

  /** The overlay says where each history ends. */
  ghost predicate SaysEnds(hs: Histories, ov: Overlay, hs': Histories) {
    forall l :: Current(hs, ov, l) == LastVersion(HistoryOf(hs', l))
  }

  /** Updates that pass keep every history linear, and the overlay says where each one ends. */
  lemma {:induction false} UpdatesKeepLinear(hs: Histories, us: seq<PreUpdate>, start: nat, k: nat)
    requires AllLinear(hs, start) && AllPass(hs, us) && k <= |us|
    ensures AllLinear(WithUpdates(hs, us, start, k), start + k)
    ensures SaysEnds(hs, AssignOverlay(hs, us, k), WithUpdates(hs, us, start, k))
    decreases k
  {
    if k > 0 {
      UpdatesKeepLinear(hs, us, start, k - 1);
      assert Passes(hs, us, k - 1);
      UpdateKeepsLinear(hs, AssignOverlay(hs, us, k - 1), AssignOverlay(hs, us, k), WithUpdates(hs, us, start, k - 1),
                        WithUpdates(hs, us, start, k), us[k - 1], start + k - 1);
    }
  }

  lemma UpdateKeepsLinear(hs: Histories, ov: Overlay, ov': Overlay, before: Histories, after: Histories, u: PreUpdate,
                          pos: nat)
    requires AllLinear(before, pos) && SaysEnds(hs, ov, before) && u.version == Next(Current(hs, ov, u.name))
    requires ov' == ov[u.name := u.version] && after == before[u.name := HistoryOf(before, u.name) + [(u.version, pos)]]
    ensures AllLinear(after, pos + 1) && SaysEnds(hs, ov', after)
  {
    OneUpdateKeepsLinear(before, u, pos);
    forall l
      ensures Current(hs, ov', l) == LastVersion(HistoryOf(after, l))
    {
      assert Current(hs, ov, l) == LastVersion(HistoryOf(before, l));
    }
  }

  lemma OneUpdateKeepsLinear(hs: Histories, u: PreUpdate, pos: nat)
    requires AllLinear(hs, pos) && u.version == Next(LastVersion(HistoryOf(hs, u.name)))
    ensures AllLinear(hs[u.name := HistoryOf(hs, u.name) + [(u.version, pos)]], pos + 1)
  {
    LinearMore(HistoryOf(hs, u.name), pos, u.version);
  }

  /** Histories only get longer. */
  lemma {:induction false} HistoriesExtend(hs: Histories, us: seq<PreUpdate>, start: nat, k: nat, l: Label)
    requires k <= |us|
    ensures HistoryOf(hs, l) <= HistoryOf(WithUpdates(hs, us, start, k), l)
    ensures forall i :: |HistoryOf(hs, l)| <= i < |HistoryOf(WithUpdates(hs, us, start, k), l)| ==>
              start <= HistoryOf(WithUpdates(hs, us, start, k), l)[i].1 < start + k
    decreases k
  {
    if k > 0 { HistoriesExtend(hs, us, start, k - 1, l); }
  }
}
