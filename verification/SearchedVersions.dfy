/**
 * What a client's search shows of the label's history (src/client/core.rs, src/tree/write.rs): the maps that the
 * client knows by their roots alone are those that the update runs have left.
 */
module SearchedVersions {
  import opened Digests
  import opened SparseTree
  import opened BinaryLadder
  import opened Updates
  import opened UpdateRuns
  import opened LabelHistory
  import opened VersionMaps
  import opened FixedSearch
  import opened FixedLaws
  import opened ClientSearch
  import LadderProofs
  import P = PrefixTree

  /** The maps of the log entries, of which each covers the updates up to its position. */
  ghost function MapsOf(us: seq<PreUpdate>, index: (Label, nat) -> Index, commit: PreUpdate -> Commitment,
                        ptrs: seq<nat>)
    : (maps: seq<Contents>)
    requires forall x :: 0 <= x < |ptrs| ==> ptrs[x] < |us|
    ensures |maps| == |ptrs|
    ensures forall x :: 0 <= x < |ptrs| ==> maps[x] == P.Insert(map[], EntriesOf(us, index, commit), ptrs[x] + 1)
  {
    seq(|ptrs|, x requires 0 <= x < |ptrs| => P.Insert(map[], EntriesOf(us, index, commit), ptrs[x] + 1))
  }

  /** The client looks the versions of a label up at the indices the server has inserted them at. */
  ghost predicate LooksUp(c: LadderProofs.Claim, index: (Label, nat) -> Index, l: Label) {
    forall v :: c.index(v) == index(l, v)
  }

  /** A run of updates from an empty tree, up to the last log entry. */
  ghost predicate Run(us: seq<PreUpdate>, index: (Label, nat) -> Index, ptrs: seq<nat>, l: Label) {
    && OwnIndices(us, index, l) && AllLinear(WithUpdates(map[], us, 0, |us|), |us|)
    && UpdateRuns.Rising(ptrs) && |us| == NextPosition(ptrs) && forall x :: 0 <= x < |ptrs| ==> ptrs[x] < |us|
  }

  /** What was inserted once is there. */
  lemma {:induction false} InsertedValue(m: Contents, entries: seq<(Index, Commitment)>, n: nat, k: nat)
    requires k < n <= |entries| && forall i :: k < i < n ==> entries[i].0 != entries[k].0
    ensures entries[k].0 in P.Insert(m, entries, n) && P.Insert(m, entries, n)[entries[k].0] == entries[k].1
    decreases n
  {
    if k < n - 1 { InsertedValue(m, entries, n - 1, k); }
  }

  /** A version of a linear history is inserted by one update, which its position names. */
  lemma {:induction false} UpdateOfVersion(us: seq<PreUpdate>, l: Label, h: History, v: nat)
    requires h == HistoryOf(WithUpdates(map[], us, 0, |us|), l) && Linear(h, |us|) && v < |h|
    ensures h[v].1 < |us| && us[h[v].1].name == l && us[h[v].1].version == v
    ensures forall i :: 0 <= i < |us| && us[i].name == l && us[i].version == v ==> i == h[v].1
  {
    assert h[v] == (v, h[v].1) && h[v] in h;
    ListedInHistory(us, |us|, l, v, h[v].1);
    forall i | 0 <= i < |us| && us[i].name == l && us[i].version == v
      ensures i == h[v].1
    {
      ListedInHistory(us, |us|, l, v, i);
      var j :| 0 <= j < |h| && h[j] == (v, i);
    }
  }

  /** Once a version is inserted, the map has it with the commitment of the update that made it. */
  lemma {:induction false} ValueOfVersion(us: seq<PreUpdate>, index: (Label, nat) -> Index,
                                          commit: PreUpdate -> Commitment, l: Label, h: History, v: nat, n: nat)
    requires OwnIndices(us, index, l) && h == HistoryOf(WithUpdates(map[], us, 0, |us|), l) && Linear(h, |us|)
    requires v < |h| && h[v].1 < n <= |us|
    ensures var m := P.Insert(map[], EntriesOf(us, index, commit), n);
            index(l, v) in m && m[index(l, v)] == commit(us[h[v].1])
  {
    UpdateOfVersion(us, l, h, v);
    InsertedValue(map[], EntriesOf(us, index, commit), n, h[v].1);
  }

  lemma {:induction false} MaxCovers(h: History, next: nat, ptr: nat, v: nat)
    requires Linear(h, next) && MaxAt(h, ptr).Some? && v <= MaxAt(h, ptr).value
    ensures v < |h| && h[v].1 <= ptr
  {
    MaxIsLast(h, next, ptr, |h|);
  }

  /** The maps that a run leaves hold the label's versions as the searches need them. */
  lemma {:induction false} RunHasEntries(us: seq<PreUpdate>, index: (Label, nat) -> Index,
                                         commit: PreUpdate -> Commitment, ptrs: seq<nat>, l: Label, h: History,
                                         c: LadderProofs.Claim)
    requires Run(us, index, ptrs, l) && LooksUp(c, index, l)
    requires h == HistoryOf(WithUpdates(map[], us, 0, |us|), l) && |h| <= MAX_VERSION + 1
    ensures Entries(c, MapsOf(us, index, commit, ptrs), GreatestAt(h, ptrs))
  {
    forall x | 0 <= x < |ptrs|
      ensures EntryHolds(c, MapsOf(us, index, commit, ptrs)[x], GreatestAt(h, ptrs)[x])
    {
      MaxIsLast(h, |us|, ptrs[x], |h|);
      forall v: nat
        ensures c.index(v) in MapsOf(us, index, commit, ptrs)[x] <==>
                MaxAt(h, ptrs[x]).Some? && v <= MaxAt(h, ptrs[x]).value
      {
        TreeHoldsUpToMax(us, index, commit, l, v, ptrs[x]);
      }
    }
  }

  /** What a search shows of a label: the target exists, and its commitment is that of the update that made it. */
  ghost predicate TrueOf(us: seq<PreUpdate>, commit: PreUpdate -> Commitment, h: History, c: LadderProofs.Claim,
                         ptr: nat) {
    c.target < |h| && h[c.target].1 <= ptr && h[c.target].1 < |us| && commit(us[h[c.target].1]) == c.commitment
  }

  /** What the map of a log entry holds is true. */
  lemma {:induction false} HeldIsTrue(us: seq<PreUpdate>, index: (Label, nat) -> Index,
                                      commit: PreUpdate -> Commitment, ptrs: seq<nat>, l: Label, h: History,
                                      c: LadderProofs.Claim, x: nat)
    requires Run(us, index, ptrs, l) && LooksUp(c, index, l) && h == HistoryOf(WithUpdates(map[], us, 0, |us|), l)
    requires x < |ptrs| && Held(c, MapsOf(us, index, commit, ptrs)[x])
    ensures TrueOf(us, commit, h, c, ptrs[x])
  {
    TreeHoldsUpToMax(us, index, commit, l, c.target, ptrs[x]);
    MaxCovers(h, |us|, ptrs[x], c.target);
    ValueOfVersion(us, index, commit, l, h, c.target, ptrs[x] + 1);
  }

  /** The greatest version at the last log entry is the latest. */
  lemma {:induction false} GreatestIsLatest(us: seq<PreUpdate>, index: (Label, nat) -> Index, ptrs: seq<nat>, l: Label,
                                            h: History, v: nat)
    requires Run(us, index, ptrs, l) && h == HistoryOf(WithUpdates(map[], us, 0, |us|), l) && ptrs != []
    requires GreatestAt(h, ptrs)[|ptrs| - 1] == Some(v)
    ensures v == |h| - 1
  {
    MaxIsLast(h, |us|, ptrs[|ptrs| - 1], |h|);
    assert h[|h| - 1].1 < |us|;
  }

  lemma {:induction false} ServerEndsThere(us: seq<PreUpdate>, h: History, target: nat, ptrs: seq<nat>, x: nat)
    requires Linear(h, |us|) && target < |h|
    requires Terminal(Relations(GreatestAt(h, ptrs), target), PathTo(Relations(GreatestAt(h, ptrs), target), 0, |ptrs|))
             == Some(x)
    ensures ServerAnswer(GreatestAt(h, ptrs), target, VersionsOf(h)) == Ok(x)
  {
    VersionsAreBelow(h, |us|, target);
  }

  /**
   * Over the maps of a run, a right answer is the truth about the label: the target exists, the claimed commitment
   * is that of the update that made it, and a claimed greatest version is the label's latest. A fixed-version search
   * ends where the server's does.
   */
  lemma {:induction false} RightAnswerIsTrue(us: seq<PreUpdate>, index: (Label, nat) -> Index,
                                             commit: PreUpdate -> Commitment, ptrs: seq<nat>, l: Label, h: History,
                                             c: LadderProofs.Claim, x: nat)
    requires Run(us, index, ptrs, l) && LooksUp(c, index, l) && h == HistoryOf(WithUpdates(map[], us, 0, |us|), l)
    requires RightAnswer(c, MapsOf(us, index, commit, ptrs), GreatestAt(h, ptrs), x)
    ensures x < |ptrs| && TrueOf(us, commit, h, c, ptrs[x])
    ensures c.greatest ==> c.target == |h| - 1
    ensures !c.greatest ==> ServerAnswer(GreatestAt(h, ptrs), c.target, VersionsOf(h)) == Ok(x)
  {
    RightAnswerHolds(c, MapsOf(us, index, commit, ptrs), GreatestAt(h, ptrs), x);
    HeldIsTrue(us, index, commit, ptrs, l, h, c, x);
    if c.greatest {
      GreatestIsLatest(us, index, ptrs, l, h, c.target);
    } else {
      ServerEndsThere(us, h, c.target, ptrs, x);
    }
  }

  lemma {:induction false} RightAnswerHolds(c: LadderProofs.Claim, maps: seq<Contents>, greatest: Versions, x: nat)
    requires RightAnswer(c, maps, greatest, x)
    ensures x < |maps| == |greatest| && Held(c, maps[x])
    ensures c.greatest ==> greatest[|maps| - 1] == Some(c.target)
    ensures !c.greatest ==>
              Terminal(Relations(greatest, c.target), PathTo(Relations(greatest, c.target), 0, |maps|)) == Some(x)
  {}

  // ---- back to the requests ----

  /** The verdicts of phase 1. */
  function VerdictsOn(hs: Histories, jobs: seq<Job>): (verdicts: seq<Verdict>)
    ensures |verdicts| == |jobs| && forall k :: 0 <= k < |jobs| ==> verdicts[k] == VerdictOn(hs, jobs, k)
  {
    seq(|jobs|, k requires 0 <= k < |jobs| => VerdictOn(hs, jobs, k))
  }

  /** The verdicts on batch b of a run that starts with an empty tree. */
  function RunVerdicts(batches: seq<seq<Job>>, b: nat): (verdicts: seq<Verdict>)
    requires b < |batches|
    ensures |verdicts| == |batches[b]|
  {
    VerdictsOn(StateAfter(map[], 0, batches, b).0, batches[b])
  }

  /** The update is what an accepted request of the run asks for. */
  ghost predicate AskedInRun(batches: seq<seq<Job>>, b: nat, k: nat, i: nat, u: PreUpdate) {
    b < |batches| && AskedBy(batches[b], RunVerdicts(batches, b), k, i, u)
  }

  lemma {:induction false} RunOnlyAsked(batches: seq<seq<Job>>, n: nat, u: PreUpdate)
    returns (b: nat, k: nat, i: nat)
    requires n <= |batches| && u in AllUpdates(map[], 0, batches, n)
    ensures AskedInRun(batches, b, k, i, u)
    decreases n
  {
    if u in AllUpdates(map[], 0, batches, n - 1) {
      b, k, i := RunOnlyAsked(batches, n - 1, u);
    } else {
      b := n - 1;
      var before := StateAfter(map[], 0, batches, b).0;
      k, i := OnlyAsked(before, batches[b], |batches[b]|, RunVerdicts(batches, b), u);
    }
  }

  /**
   * Whatever a search accepts over the maps of a run of batches is what the label's own request asked for: a request
   * that was accepted, with the claimed version given to a value whose commitment is the claimed one.
   */
  lemma {:induction false} RightAnswerWasAsked(batches: seq<seq<Job>>, us: seq<PreUpdate>,
                                               index: (Label, nat) -> Index, commit: PreUpdate -> Commitment,
                                               ptrs: seq<nat>, l: Label, h: History, c: LadderProofs.Claim, x: nat)
    returns (b: nat, k: nat, i: nat)
    requires us == AllUpdates(map[], 0, batches, |batches|) && Run(us, index, ptrs, l) && LooksUp(c, index, l)
    requires h == HistoryOf(WithUpdates(map[], us, 0, |us|), l) && |h| <= MAX_VERSION + 1
    requires RightAnswer(c, MapsOf(us, index, commit, ptrs), GreatestAt(h, ptrs), x)
    ensures b < |batches| && k < |batches[b]| && RunVerdicts(batches, b)[k].Accept?
    ensures batches[b][k].name == l && i < |batches[b][k].values|
    ensures RunVerdicts(batches, b)[k].first + i == c.target
    ensures commit(PreUpdate(l, batches[b][k].values[i], c.target)) == c.commitment
  {
    RightAnswerIsTrue(us, index, commit, ptrs, l, h, c, x);
    UpdateOfVersion(us, l, h, c.target);
    b, k, i := RunOnlyAsked(batches, |batches|, us[h[c.target].1]);
  }
}
