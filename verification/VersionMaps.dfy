/**
 * Label histories and the prefix tree's maps over all runs of batches (src/tree/write.rs,
 * src/tree/read.rs): what a log entry's tree holds of a label.
 */
module VersionMaps {
  import opened Digests
  import opened Updates
  import opened UpdateRuns
  import opened LabelHistory
  import opened FixedSearch
  import P = PrefixTree

  // ---- runs of batches ----

  /** The histories and the first free position after the first n batches, each as ProcessBatch leaves them. */
  function StateAfter(hs: Histories, next: nat, batches: seq<seq<Job>>, n: nat): (state: (Histories, nat))
    requires n <= |batches|
    decreases n, batches
  {
    if n == 0 then (hs, next)
    else
      var (before, start) := StateAfter(hs, next, batches, n - 1);
      var us := PreAfter(before, batches[n - 1], |batches[n - 1]|);
      (WithUpdates(before, us, start, |us|), start + |us|)
  }

  lemma {:induction false} BatchKeepsLinear(hs: Histories, jobs: seq<Job>, start: nat, us: seq<PreUpdate>)
    requires AllLinear(hs, start) && us == PreAfter(hs, jobs, |jobs|)
    ensures AllLinear(WithUpdates(hs, us, start, |us|), start + |us|)
  {
    BatchEnds(hs, jobs, start, us);
  }

  /** Over a run every label's history stays the versions 0, 1, 2 and so on at rising positions. */
  lemma {:induction false} RunKeepsLinear(hs: Histories, next: nat, batches: seq<seq<Job>>, n: nat)
    requires n <= |batches| && AllLinear(hs, next)
    ensures var (hs', next') := StateAfter(hs, next, batches, n); AllLinear(hs', next')
    decreases n
  {
    if n > 0 {
      RunKeepsLinear(hs, next, batches, n - 1);
      var (before, start) := StateAfter(hs, next, batches, n - 1);
      BatchKeepsLinear(before, batches[n - 1], start, PreAfter(before, batches[n - 1], |batches[n - 1]|));
    }
  }

  /** A history with more versions after the ones it had, all at positions from `from` on. */
  ghost predicate Extended(early: History, late: History, from: nat) {
    early <= late && forall i :: |early| <= i < |late| ==> from <= late[i].1
  }

  lemma {:induction false} ExtendedOn(a: History, b: History, c: History, from: nat, from': nat)
    requires Extended(a, b, from) && Extended(b, c, from') && from <= from'
    ensures Extended(a, c, from)
  {
    assert forall i :: 0 <= i < |b| ==> b[i] == c[i];
  }

  lemma {:induction false} BatchExtends(hs: Histories, us: seq<PreUpdate>, start: nat, l: Label)
    ensures Extended(HistoryOf(hs, l), HistoryOf(WithUpdates(hs, us, start, |us|), l), start)
  {
    HistoriesExtend(hs, us, start, |us|, l);
  }

  /** No run changes a version once given out or the position it was inserted at: histories only get longer. */
  lemma {:induction false} RunKeepsVersions(hs: Histories, next: nat, batches: seq<seq<Job>>, n: nat, l: Label)
    requires n <= |batches|
    ensures var (hs', next') := StateAfter(hs, next, batches, n);
            next <= next' && Extended(HistoryOf(hs, l), HistoryOf(hs', l), next)
    decreases n
  {
    if n > 0 {
      RunKeepsVersions(hs, next, batches, n - 1, l);
      var (before, start) := StateAfter(hs, next, batches, n - 1);
      var us := PreAfter(before, batches[n - 1], |batches[n - 1]|);
      BatchExtends(before, us, start, l);
      ExtendedOn(HistoryOf(hs, l), HistoryOf(before, l), HistoryOf(WithUpdates(before, us, start, |us|), l), next,
                 start);
    }
  }

  /** All updates of the first n batches. */
  function AllUpdates(hs: Histories, next: nat, batches: seq<seq<Job>>, n: nat): (us: seq<PreUpdate>)
    requires n <= |batches|
    decreases n, batches
  {
    if n == 0 then []
    else
      var before := StateAfter(hs, next, batches, n - 1).0;
      AllUpdates(hs, next, batches, n - 1) + PreAfter(before, batches[n - 1], |batches[n - 1]|)
  }

  lemma {:induction false} UpdatesPrefix(hs: Histories, a: seq<PreUpdate>, b: seq<PreUpdate>, start: nat, k: nat)
    requires k <= |a|
    ensures WithUpdates(hs, a + b, start, k) == WithUpdates(hs, a, start, k)
    decreases k
  {
    if k > 0 { UpdatesPrefix(hs, a, b, start, k - 1); }
  }

  /** Two lists of updates one after the other are one longer list. */
  lemma {:induction false} UpdatesSum(hs: Histories, a: seq<PreUpdate>, b: seq<PreUpdate>, start: nat, k: nat)
    requires k <= |b|
    ensures WithUpdates(hs, a + b, start, |a| + k) == WithUpdates(WithUpdates(hs, a, start, |a|), b, start + |a|, k)
    decreases k
  {
    if k == 0 { UpdatesPrefix(hs, a, b, start, |a|); } else { UpdatesSum(hs, a, b, start, k - 1); }
  }

  lemma {:induction false} UpdatesJoin(hs: Histories, a: seq<PreUpdate>, b: seq<PreUpdate>, start: nat, mid: Histories,
                                       pos: nat)
    requires mid == WithUpdates(hs, a, start, |a|) && pos == start + |a|
    ensures WithUpdates(hs, a + b, start, |a + b|) == WithUpdates(mid, b, pos, |b|) && start + |a + b| == pos + |b|
  {
    UpdatesSum(hs, a, b, start, |b|);
  }

  /** The first n batches leave the histories of all their updates in a row. */
  ghost predicate LeavesUpdates(hs: Histories, next: nat, batches: seq<seq<Job>>, n: nat, us: seq<PreUpdate>)
    requires n <= |batches|
  {
    && us == AllUpdates(hs, next, batches, n)
    && StateAfter(hs, next, batches, n) == (WithUpdates(hs, us, next, |us|), next + |us|)
  }

  lemma {:induction false} AfterNext(hs: Histories, next: nat, batches: seq<seq<Job>>, n: nat, before: Histories,
                                     start: nat, more: seq<PreUpdate>)
    requires n < |batches| && StateAfter(hs, next, batches, n) == (before, start)
    requires more == PreAfter(before, batches[n], |batches[n]|)
    ensures StateAfter(hs, next, batches, n + 1) == (WithUpdates(before, more, start, |more|), start + |more|)
    ensures AllUpdates(hs, next, batches, n + 1) == AllUpdates(hs, next, batches, n) + more
  {}

  /** One more batch, whose updates come after those of the batches before. */
  lemma {:induction false} LeavesUpdatesNext(hs: Histories, next: nat, batches: seq<seq<Job>>, n: nat,
                                             earlier: seq<PreUpdate>, us: seq<PreUpdate>)
    requires n < |batches| && LeavesUpdates(hs, next, batches, n, earlier)
    requires us == AllUpdates(hs, next, batches, n + 1)
    ensures LeavesUpdates(hs, next, batches, n + 1, us)
  {
    var (before, start) := StateAfter(hs, next, batches, n);
    var more := PreAfter(before, batches[n], |batches[n]|);
    AfterNext(hs, next, batches, n, before, start, more);
    UpdatesJoin(hs, earlier, more, next, before, start);
  }

  /** How the updates fall into batches does not matter. */
  lemma {:induction false} RunIsUpdates(hs: Histories, next: nat, batches: seq<seq<Job>>, n: nat, us: seq<PreUpdate>)
    requires n <= |batches| && us == AllUpdates(hs, next, batches, n)
    ensures LeavesUpdates(hs, next, batches, n, us)
    decreases n
  {
    if n > 0 {
      var earlier := AllUpdates(hs, next, batches, n - 1);
      RunIsUpdates(hs, next, batches, n - 1, earlier);
      LeavesUpdatesNext(hs, next, batches, n - 1, earlier, us);
    }
  }

  // ---- what the trees hold ----

  /** No version of a label has the index of an update of another label or version. */
  ghost predicate OwnIndices(us: seq<PreUpdate>, index: (Label, nat) -> Index, l: Label) {
    forall i, v :: 0 <= i < |us| && index(us[i].name, us[i].version) == index(l, v) ==>
                     us[i].name == l && us[i].version == v
  }

  /** What the updates insert into the prefix tree, one entry each. */
  function EntriesOf(us: seq<PreUpdate>, index: (Label, nat) -> Index, commit: PreUpdate -> Commitment)
    : (entries: seq<(Index, Commitment)>)
    ensures |entries| == |us| && forall i :: 0 <= i < |us| ==>
            entries[i] == (index(us[i].name, us[i].version), commit(us[i]))
  {
    seq(|us|, i requires 0 <= i < |us| => (index(us[i].name, us[i].version), commit(us[i])))
  }

  /** A history lists the updates of its label, each at its own position. */
  lemma {:induction false} ListedInHistory(us: seq<PreUpdate>, k: nat, l: Label, v: nat, pos: nat)
    requires k <= |us|
    ensures (v, pos) in HistoryOf(WithUpdates(map[], us, 0, k), l) <==>
            pos < k && us[pos].name == l && us[pos].version == v
    decreases k
  {
    if k > 0 { ListedInHistory(us, k - 1, l, v, pos); }
  }

  /** In a linear history, what was inserted by a position is what its greatest version there covers. */
  lemma CoveredByMax(h: History, next: nat, ptr: nat, v: nat)
    requires Linear(h, next)
    ensures (exists pos: nat :: pos <= ptr && (v, pos) in h) <==> MaxAt(h, ptr).Some? && v <= MaxAt(h, ptr).value
  {
    MaxIsLast(h, next, ptr, |h|);
    var max := MaxAt(h, ptr);
    if max.Some? && v <= max.value {
      assert h[v] in h && h[v].1 <= ptr && h[v] == (v, h[v].1);
    }
    if pos: nat :| pos <= ptr && (v, pos) in h {
      var i :| 0 <= i < |h| && h[i] == (v, pos);
    }
  }

  /** The tree at a position holds a version of a label exactly when it is at most the greatest version there. */
  lemma TreeHoldsUpToMax(us: seq<PreUpdate>, index: (Label, nat) -> Index, commit: PreUpdate -> Commitment, l: Label,
                         v: nat, ptr: nat)
    requires ptr < |us| && OwnIndices(us, index, l) && AllLinear(WithUpdates(map[], us, 0, |us|), |us|)
    ensures var h := HistoryOf(WithUpdates(map[], us, 0, |us|), l);
            index(l, v) in P.Insert(map[], EntriesOf(us, index, commit), ptr + 1) <==>
                MaxAt(h, ptr).Some? && v <= MaxAt(h, ptr).value
  {
    var h, entries := HistoryOf(WithUpdates(map[], us, 0, |us|), l), EntriesOf(us, index, commit);
    P.InsertedKeys(map[], entries, ptr + 1, index(l, v));
    CoveredByMax(h, |us|, ptr, v);
    forall i: nat | i < |us|
      ensures entries[i].0 == index(l, v) <==> (v, i) in h
    {
      ListedInHistory(us, |us|, l, v, i);
    }
  }

  /** Whether the tree of each log entry holds a version of a label. */
  ghost function Holds(us: seq<PreUpdate>, index: (Label, nat) -> Index, commit: PreUpdate -> Commitment, l: Label,
                       v: nat, ptrs: seq<nat>)
    : (included: seq<bool>)
    requires forall x :: 0 <= x < |ptrs| ==> ptrs[x] < |us|
  {
    seq(|ptrs|, x requires 0 <= x < |ptrs| => index(l, v) in P.Insert(map[], EntriesOf(us, index, commit), ptrs[x] + 1))
  }

  /**
   * A fixed-version search over the trees of the log's own entries: client and server end at the same
   * entry, and succeed exactly when the version was created.
   */
  lemma SearchOverTrees(us: seq<PreUpdate>, index: (Label, nat) -> Index, commit: PreUpdate -> Commitment,
                        ptrs: seq<nat>, l: Label, target: nat)
    requires OwnIndices(us, index, l) && AllLinear(WithUpdates(map[], us, 0, |us|), |us|)
    requires UpdateRuns.Rising(ptrs) && |us| == NextPosition(ptrs)
    ensures forall x :: 0 <= x < |ptrs| ==> ptrs[x] < |us|
    ensures var h := HistoryOf(WithUpdates(map[], us, 0, |us|), l);
            var greatest := GreatestAt(h, ptrs);
            && ClientAnswer(Relations(greatest, target), Holds(us, index, commit, l, target, ptrs))
               == ServerAnswer(greatest, target, VersionsOf(h))
            && (ServerAnswer(greatest, target, VersionsOf(h)).Ok? <==> target < |h|)
  {
    var h := HistoryOf(WithUpdates(map[], us, 0, |us|), l);
    var greatest := GreatestAt(h, ptrs);
    LastIsGreatest(ptrs);
    var included := Holds(us, index, commit, l, target, ptrs);
    forall x | 0 <= x < |ptrs|
      ensures included[x] <==> greatest[x].Some? && target <= greatest[x].value
    {
      TreeHoldsUpToMax(us, index, commit, l, target, ptrs[x]);
    }
    GreatestRises(h, |us|, ptrs);
    HistoryIsLinear(h, |us|, ptrs);
    FixedSearchAgrees(greatest, target, VersionsOf(h), included);
    VersionsAreBelow(h, |us|, target);
  }

  lemma LastIsGreatest(ptrs: seq<nat>)
    requires UpdateRuns.Rising(ptrs)
    ensures forall x :: 0 <= x < |ptrs| ==> ptrs[x] < NextPosition(ptrs)
  {
  }

  lemma VersionsAreBelow(h: History, next: nat, v: nat)
    requires Linear(h, next)
    ensures v in VersionsOf(h) <==> v < |h|
  {
    if v < |h| { assert h[v].0 == v; }
  }
}
