/**
 * Reading a label's history against the log (src/tree/read.rs, get_max_version_at;
 * src/tree/write.rs, catch_up_update).
 */
module LabelHistory {
  import opened Digests
  import opened Updates
  import opened UpdateRuns
  import opened FixedSearch

  /** The greatest version among the first k that were inserted at or before a position. */
  function MaxUpTo(h: History, ptr: nat, k: nat): (v: Option<nat>)
    requires k <= |h|
    decreases k, h
  {
    if k == 0 then None
    else
      var before := MaxUpTo(h, ptr, k - 1);
      if h[k - 1].1 <= ptr && (before.None? || before.value < h[k - 1].0) then Some(h[k - 1].0) else before
  }

  function MaxAt(h: History, ptr: nat): (v: Option<nat>) {
    MaxUpTo(h, ptr, |h|)
  }

  /** `get_max_version_at`: a filter and a maximum. */
  method GetMaxVersionAt(h: History, ptrs: seq<nat>, pos: nat) returns (v: Option<nat>)
    ensures v == MaxAt(h, if pos < |ptrs| then ptrs[pos] else 0)
  {
    var ptr := if pos < |ptrs| then ptrs[pos] else 0;
    v := None;
    for k := 0 to |h|
      invariant v == MaxUpTo(h, ptr, k)
    {
      if h[k].1 <= ptr && (v.None? || v.value < h[k].0) {
        v := Some(h[k].0);
      }
    }
  }

  /** In a linear history the greatest version at a position is the last one inserted by then. */
  lemma {:induction false} MaxIsLast(h: History, next: nat, ptr: nat, k: nat)
    requires Linear(h, next) && k <= |h|
    ensures var v := MaxUpTo(h, ptr, k);
            && (v.Some? ==> v.value < k && h[v.value].1 <= ptr && forall i :: v.value < i < k ==> h[i].1 > ptr)
            && (v.None? ==> forall i :: 0 <= i < k ==> h[i].1 > ptr)
    decreases k
  {
    if k > 0 { MaxIsLast(h, next, ptr, k - 1); }
  }

  /** The greatest version of a label at every log entry. */
  function GreatestAt(h: History, ptrs: seq<nat>): (greatest: Versions)
    ensures |greatest| == |ptrs| && forall x :: 0 <= x < |ptrs| ==> greatest[x] == MaxAt(h, ptrs[x])
  {
    seq(|ptrs|, x requires 0 <= x < |ptrs| => MaxAt(h, ptrs[x]))
  }

  /** Greatest versions do not fall from one log entry to the next. */
  lemma GreatestRises(h: History, next: nat, ptrs: seq<nat>)
    requires Linear(h, next) && UpdateRuns.Rising(ptrs)
    ensures Rises(GreatestAt(h, ptrs))
  {
    forall x, y | 0 <= x < y < |ptrs| && GreatestAt(h, ptrs)[x].Some?
      ensures GreatestAt(h, ptrs)[y].Some? && GreatestAt(h, ptrs)[x].value <= GreatestAt(h, ptrs)[y].value
    {
      MaxIsLast(h, next, ptrs[x], |h|);
      MaxIsLast(h, next, ptrs[y], |h|);
    }
  }

  /** The versions of a label. */
  function VersionsOf(h: History): (vs: set<nat>) {
    set i | 0 <= i < |h| :: h[i].0
  }

  /** A label's history has exactly the versions up to its greatest one at the last log entry. */
  lemma HistoryIsLinear(h: History, next: nat, ptrs: seq<nat>)
    requires Linear(h, next) && UpdateRuns.Rising(ptrs)
    requires next == if ptrs == [] then 0 else ptrs[|ptrs| - 1] + 1
    ensures LinearHistory(GreatestAt(h, ptrs), VersionsOf(h))
  {
    var greatest := GreatestAt(h, ptrs);
    forall x, v: nat | 0 <= x < |greatest| && greatest[x].Some? && v <= greatest[x].value
      ensures v in VersionsOf(h)
    {
      MaxIsLast(h, next, ptrs[x], |h|);
      assert h[v].0 == v;
    }
    forall v | v in VersionsOf(h)
      ensures greatest != [] && greatest[|greatest| - 1].Some? && v <= greatest[|greatest| - 1].value
    {
      var i :| 0 <= i < |h| && h[i].0 == v;
      if ptrs != [] { MaxIsLast(h, next, ptrs[|ptrs| - 1], |h|); }
    }
  }

  /** Whatever the batches so far, the versions of a label are as the searches need them. */
  lemma HistoriesSearchable(tree: Tree, l: Label)
    requires tree.Valid()
    ensures Rises(GreatestAt(HistoryOf(tree.histories, l), tree.prefixPtrs))
    ensures LinearHistory(GreatestAt(HistoryOf(tree.histories, l), tree.prefixPtrs),
                          VersionsOf(HistoryOf(tree.histories, l)))
  {
    GreatestRises(HistoryOf(tree.histories, l), tree.nextPrefixVersion, tree.prefixPtrs);
    HistoryIsLinear(HistoryOf(tree.histories, l), tree.nextPrefixVersion, tree.prefixPtrs);
  }

  // ---- catching up ----

  /** `find_log_entry_for_prefix_pos`: the first log entry that covers a position. */
  method FindLogEntry(ptrs: seq<nat>, pos: nat) returns (entry: nat)
    requires UpdateRuns.Rising(ptrs) && ptrs != [] && pos <= ptrs[|ptrs| - 1]
    ensures entry < |ptrs| && ptrs[entry] >= pos && forall k :: 0 <= k < entry ==> ptrs[k] < pos
  {
    var lo, hi := 0, |ptrs| - 1;
    while lo < hi
      invariant 0 <= lo <= hi < |ptrs| && ptrs[hi] >= pos && forall k :: 0 <= k < lo ==> ptrs[k] < pos
      decreases hi - lo
    {
      var mid := lo + (hi - lo) / 2;
      if ptrs[mid] >= pos {
        hi := mid;
      } else {
        lo := mid + 1;
      }
    }
    return lo;
  }

  /** Consecutive versions. */
  function VersionRange(first: nat, n: nat): (vs: seq<nat>)
    ensures |vs| == n && forall i :: 0 <= i < n ==> vs[i] == first + i
  {
    seq(n, i requires 0 <= i < n => first + i)
  }

  /** What a requester that is behind is told: a log entry and the versions that follow its own there, with values. */
  datatype CatchUpResponse = CatchUpResponse(position: nat, versions: seq<nat>, values: seq<Value>)

  method FindVersion(h: History, v: nat) returns (i: nat)
    ensures i <= |h| && (i < |h| ==> h[i].0 == v) && forall k :: 0 <= k < i ==> h[k].0 != v
  {
    i := 0;
    while i < |h| && h[i].0 != v
      invariant i <= |h| && forall k :: 0 <= k < i ==> h[k].0 != v
    {
      i := i + 1;
    }
  }

  /** The values are those stored for the versions of a history. */
  ghost predicate ValuesOf(h: History, values: map<nat, Value>, versions: seq<nat>, vs: seq<Value>) {
    |vs| == |versions| && forall j :: 0 <= j < |vs| ==>
      versions[j] < |h| && h[versions[j]].1 in values && vs[j] == values[h[versions[j]].1]
  }

  /** The versions from `first` on, of those inserted at or before a position, with their values. */
  method VersionsFrom(h: History, first: nat, ptr: nat, values: map<nat, Value>, ghost next: nat)
    returns (versions: seq<nat>, vs: seq<Value>)
    requires Linear(h, next) && first < |h| && h[first].1 <= ptr && UpdateRuns.ValuesUpTo(values, next)
    ensures ValuesOf(h, values, versions, vs)
    ensures MaxAt(h, ptr).Some? && MaxAt(h, ptr).value >= first
    ensures versions == VersionRange(first, MaxAt(h, ptr).value - first + 1)
  {
    versions, vs := [], [];
    for k := 0 to |h|
      invariant ValuesOf(h, values, versions, vs)
      invariant k <= first ==> versions == []
      invariant k > first ==> MaxUpTo(h, ptr, k).Some? && MaxUpTo(h, ptr, k).value >= first
                              && versions == VersionRange(first, MaxUpTo(h, ptr, k).value - first + 1)
    {
      MaxIsLast(h, next, ptr, k);
      if h[k].0 >= first && h[k].1 <= ptr {
        versions, vs := versions + [h[k].0], vs + [values[h[k].1]];
      }
    }
  }

  /** The entry that has a label's version, and the greatest version there. */
  ghost predicate EntryOf(h: History, ptrs: seq<nat>, v: nat, entry: nat)
    requires v < |h|
  {
    entry < |ptrs| && ptrs[entry] >= h[v].1 && forall k :: 0 <= k < entry ==> ptrs[k] < h[v].1
  }

  /**
   * `catch_up_update`: the versions from the first missing one on that its log entry has, a
   * non-empty run without gaps that ends with the entry's greatest version.
   */
  method CatchUpUpdate(tree: Tree, l: Label, greatest: Option<nat>) returns (r: Result<CatchUpResponse>)
    requires tree.Valid()
    ensures var h := HistoryOf(tree.histories, l);
            && (r.Ok? <==> LessThan(greatest, LastVersion(h)))
            && (r.Ok? ==> Next(greatest) < |h| && EntryOf(h, tree.prefixPtrs, Next(greatest), r.value.position)
                          && CaughtUp(h, tree.prefixPtrs, Next(greatest), r.value)
                          && ValuesOf(h, tree.values, r.value.versions, r.value.values))
  {
    if |tree.prefixPtrs| == 0 {
      return Err;
    }
    var history := HistoryOf(tree.histories, l);
    var firstMissing := Next(greatest);
    var i := FindVersion(history, firstMissing);
    if i == |history| {
      return Err;
    }
    var position := FindLogEntry(tree.prefixPtrs, history[i].1);
    var versions, vs := VersionsFrom(history, firstMissing, tree.prefixPtrs[position], tree.values,
                                     tree.nextPrefixVersion);
    return Ok(CatchUpResponse(position, versions, vs));
  }

  /** The versions told run from the first missing one to the entry's greatest. */
  ghost predicate CaughtUp(h: History, ptrs: seq<nat>, first: nat, r: CatchUpResponse)
    requires r.position < |ptrs|
  {
    var max := MaxAt(h, ptrs[r.position]);
    max.Some? && max.value >= first && r.versions == VersionRange(first, max.value - first + 1)
  }
}
