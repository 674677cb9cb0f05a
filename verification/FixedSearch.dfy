/**
 * Searching for one version of a label (section 7.2 of draft-ietf-keytrans-protocol-05) without a
 * maximum lifetime: the server (src/tree/traversal.rs) and the client (src/client/core.rs).
 */
module FixedSearch {
  import opened Digests
  import opened LogMath
  import opened Ibst
  import opened BinaryLadder
  import opened LadderDecode

  /** The greatest version of the label at each log entry, if it has any there. */
  type Versions = seq<Option<nat>>

  /** How an entry's greatest version compares with the target. */
  function RelationAt(g: Option<nat>, target: nat): Ordering {
    if g.None? then Less else Compare(g.value, target)
  }

  function Relations(greatest: Versions, target: nat): (rel: seq<Ordering>)
    ensures |rel| == |greatest| && forall x :: 0 <= x < |rel| ==> rel[x] == RelationAt(greatest[x], target)
  {
    seq(|greatest|, x requires 0 <= x < |greatest| => RelationAt(greatest[x], target))
  }

  // ---- the path ----

  /** The entries inspected among those from lo up to hi. */
  function PathTo(rel: seq<Ordering>, lo: nat, hi: nat): (path: seq<nat>)
    requires hi <= |rel|
    ensures forall i :: 0 <= i < |path| ==> lo <= path[i] < hi
    decreases hi - lo, rel
  {
    if lo >= hi then []
    else
      var x := RootOf(lo, hi);
      [x] + match rel[x] case Less => PathTo(rel, x + 1, hi) case Greater => PathTo(rel, lo, x) case Equal => []
  }

  /** The least inspected entry with a greater version. */
  function LeastGreater(rel: seq<Ordering>, path: seq<nat>): (r: Option<nat>)
    requires forall i :: 0 <= i < |path| ==> path[i] < |rel|
    decreases |path|
  {
    if path == [] then None
    else
      var rest := LeastGreater(rel, path[1..]);
      if rel[path[0]] != Greater || (rest.Some? && rest.value < path[0]) then rest else Some(path[0])
  }

  /** The last entry of a path, if its greatest version is the target. */
  function EqualAt(rel: seq<Ordering>, path: seq<nat>): (x: Option<nat>)
    requires forall i :: 0 <= i < |path| ==> path[i] < |rel|
  {
    if path != [] && rel[path[|path| - 1]] == Equal then Some(path[|path| - 1]) else None
  }

  lemma EqualAtNext(rel: seq<Ordering>, path: seq<nat>, x: nat)
    requires (forall i :: 0 <= i < |path| ==> path[i] < |rel|) && x < |rel|
    ensures EqualAt(rel, path + [x]) == if rel[x] == Equal then Some(x) else None
  {
  }

  lemma EqualAtLonger(rel: seq<Ordering>, x: nat, rest: seq<nat>)
    requires x < |rel| && (forall i :: 0 <= i < |rest| ==> rest[i] < |rel|) && (rest != [] || rel[x] != Equal)
    ensures forall i :: 0 <= i < |[x] + rest| ==> ([x] + rest)[i] < |rel|
    ensures EqualAt(rel, [x] + rest) == EqualAt(rel, rest)
  {
  }

  /** Where the search ends: at an equal version, or else at the least greater one. */
  function Terminal(rel: seq<Ordering>, path: seq<nat>): (r: Option<nat>)
    requires forall i :: 0 <= i < |path| ==> path[i] < |rel|
  {
    if EqualAt(rel, path).Some? then EqualAt(rel, path) else LeastGreater(rel, path)
  }

  // ---- what the search finds ----

  /** Versions do not fall from one entry to the next. */
  ghost predicate Sorted(rel: seq<Ordering>) {
    && (forall x, y :: 0 <= x < y < |rel| && rel[x] == Greater ==> rel[y] == Greater)
    && (forall x, y :: 0 <= x < y < |rel| && rel[x] == Equal ==> rel[y] != Less)
  }

  ghost predicate Rises(greatest: Versions) {
    forall x, y :: 0 <= x < y < |greatest| && greatest[x].Some? ==>
        greatest[y].Some? && greatest[x].value <= greatest[y].value
  }

  lemma RelationsSorted(greatest: Versions, target: nat)
    requires Rises(greatest)
    ensures Sorted(Relations(greatest, target))
  {
  }

  /** If an entry has the target as its greatest version, the path ends at one that has. */
  lemma {:induction false} EqualIsFound(rel: seq<Ordering>, lo: nat, hi: nat, x: nat, path: seq<nat>)
    requires Sorted(rel) && lo <= x < hi <= |rel| && rel[x] == Equal && path == PathTo(rel, lo, hi)
    ensures EqualAt(rel, path).Some?
    decreases hi - lo
  {
    var r := RootOf(lo, hi);
    match rel[r]
    case Less =>
      EqualIsFound(rel, r + 1, hi, x, PathTo(rel, r + 1, hi));
      EqualAtLonger(rel, r, PathTo(rel, r + 1, hi));
    case Greater =>
      EqualIsFound(rel, lo, r, x, PathTo(rel, lo, r));
      EqualAtLonger(rel, r, PathTo(rel, lo, r));
    case Equal =>
  }

  /** The leftmost entry with a greater version, among those from lo up to hi. */
  ghost predicate Leftmost(rel: seq<Ordering>, lo: nat, hi: nat, x: nat) {
    lo <= x < hi <= |rel| && rel[x] == Greater && forall y :: lo <= y < x ==> rel[y] != Greater
  }

  /** The least greater entry found is the leftmost there is. */
  ghost predicate FindsLeftmost(rel: seq<Ordering>, lo: nat, hi: nat, r: Option<nat>)
    requires hi <= |rel|
  {
    if r.Some? then Leftmost(rel, lo, hi, r.value) else forall y :: lo <= y < hi ==> rel[y] != Greater
  }

  lemma LeastOfLonger(rel: seq<Ordering>, x: nat, rest: seq<nat>)
    requires x < |rel| && forall i :: 0 <= i < |rest| ==> rest[i] < |rel|
    ensures forall i :: 0 <= i < |rest| + 1 ==> ([x] + rest)[i] < |rel|
    ensures LeastGreater(rel, [x] + rest) ==
            if rel[x] != Greater || (LeastGreater(rel, rest).Some? && LeastGreater(rel, rest).value < x)
                then LeastGreater(rel, rest)
            else Some(x)
  {
    assert ([x] + rest)[1..] == rest;
  }

  /** Below a lesser root, the leftmost of the right part is the leftmost of all. */
  lemma FindsRight(rel: seq<Ordering>, lo: nat, r: nat, hi: nat, found: Option<nat>)
    requires Sorted(rel) && lo <= r < hi <= |rel| && rel[r] == Less && FindsLeftmost(rel, r + 1, hi, found)
    ensures FindsLeftmost(rel, lo, hi, found)
  {
  }

  /** Below a greater root, it is the leftmost of the left part, or else the root. */
  lemma FindsLeft(rel: seq<Ordering>, lo: nat, r: nat, hi: nat, found: Option<nat>)
    requires Sorted(rel) && lo <= r < hi <= |rel| && rel[r] == Greater && FindsLeftmost(rel, lo, r, found)
    ensures FindsLeftmost(rel, lo, hi, if found.Some? then found else Some(r))
  {
  }

  /** Without an equal version, the least greater one inspected is the leftmost of all. */
  lemma {:induction false} LeftmostIsFound(rel: seq<Ordering>, lo: nat, hi: nat, path: seq<nat>)
    requires Sorted(rel) && lo <= hi <= |rel| && path == PathTo(rel, lo, hi)
            && forall y :: lo <= y < hi ==> rel[y] != Equal
    ensures FindsLeftmost(rel, lo, hi, LeastGreater(rel, path)) && EqualAt(rel, path).None?
    decreases hi - lo
  {
    if lo < hi {
      var r := RootOf(lo, hi);
      if rel[r] == Less {
        var rest := PathTo(rel, r + 1, hi);
        LeftmostIsFound(rel, r + 1, hi, rest);
        LeastOfLonger(rel, r, rest);
        EqualAtLonger(rel, r, rest);
        FindsRight(rel, lo, r, hi, LeastGreater(rel, rest));
      } else {
        var rest := PathTo(rel, lo, r);
        LeftmostIsFound(rel, lo, r, rest);
        LeastOfLonger(rel, r, rest);
        EqualAtLonger(rel, r, rest);
        FindsLeft(rel, lo, r, hi, LeastGreater(rel, rest));
      }
    }
  }

  ghost predicate FoundIn(greatest: Versions, target: nat, r: Option<nat>) {
    match r
    case Some(x) =>
      x < |greatest| &&
      if Some(target) in greatest then greatest[x] == Some(target)
          else Leftmost(Relations(greatest, target), 0, |greatest|, x)
    case None => forall y :: 0 <= y < |greatest| ==> greatest[y].None? || greatest[y].value < target
  }

  lemma {:induction false} TargetIsFound(greatest: Versions, target: nat, rel: seq<Ordering>, path: seq<nat>, lo: nat)
    requires Rises(greatest) && Some(target) in greatest && lo == 0
    requires rel == Relations(greatest, target) && path == PathTo(rel, lo, |greatest|)
    ensures FoundIn(greatest, target, Terminal(rel, path))
  {
    RelationsSorted(greatest, target);
    var x :| 0 <= x < |greatest| && greatest[x] == Some(target);
    EqualIsFound(rel, lo, |greatest|, x, path);
  }

  lemma {:induction false} GreaterIsFound(greatest: Versions, target: nat, rel: seq<Ordering>, path: seq<nat>, lo: nat)
    requires Rises(greatest) && Some(target) !in greatest && lo == 0
    requires rel == Relations(greatest, target) && path == PathTo(rel, lo, |greatest|)
    ensures FoundIn(greatest, target, Terminal(rel, path))
  {
    RelationsSorted(greatest, target);
    LeftmostIsFound(rel, lo, |greatest|, path);
  }

  /**
   * The search ends at an entry with the target as its greatest version if there is one; else at
   * the leftmost entry whose greatest version is greater; else nowhere.
   */
  lemma {:induction false} SearchFinds(greatest: Versions, target: nat)
    requires Rises(greatest)
    ensures var rel := Relations(greatest, target);
            FoundIn(greatest, target, Terminal(rel, PathTo(rel, 0, |greatest|)))
  {
    var rel := Relations(greatest, target);
    var path := PathTo(rel, 0, |greatest|);
    if Some(target) in greatest {
      TargetIsFound(greatest, target, rel, path, 0);
    } else {
      GreaterIsFound(greatest, target, rel, path, 0);
    }
  }

  // ---- the two programs ----

  /** The entries where the search goes on. */
  ghost predicate GoesOn(o: Ordering, x: nat, lo: nat, hi: nat, lo': nat, hi': nat) {
    match o
    case Less => lo' == x + 1 && hi' == hi
    case Greater => lo' == lo && hi' == x
    case Equal => lo' == hi' == x
  }

  lemma PathStep(before: seq<nat>, rel: seq<Ordering>, lo: nat, hi: nat, x: nat, lo': nat, hi': nat)
    requires lo < hi <= |rel| && x == RootOf(lo, hi) && GoesOn(rel[x], x, lo, hi, lo', hi')
    ensures hi' <= |rel| && before + PathTo(rel, lo, hi) == before + [x] + PathTo(rel, lo', hi')
  {
    PathHead(rel, lo, hi, x, lo', hi', PathTo(rel, lo, hi), PathTo(rel, lo', hi'));
  }

  lemma PathHead(rel: seq<Ordering>, lo: nat, hi: nat, x: nat, lo': nat, hi': nat, path: seq<nat>, rest: seq<nat>)
    requires lo < hi <= |rel| && x == RootOf(lo, hi) && GoesOn(rel[x], x, lo, hi, lo', hi')
    requires path == PathTo(rel, lo, hi) && rest == PathTo(rel, lo', hi')
    ensures path == [x] + rest
  {
  }

  /** The child to go to: right of a lesser entry, left of a greater one. */
  method NextEntry(o: Ordering, x: nat, n: nat, ghost lo: nat, ghost hi: nat)
    returns (next: Option<nat>, ghost lo': nat, ghost hi': nat)
    requires lo < hi && IsSubtree(n, lo, hi) && x == RootOf(lo, hi)
    ensures hi <= n && GoesOn(o, x, lo, hi, lo', hi') && hi' - lo' < hi - lo
    ensures IsChild(next, n, lo', hi')
  {
    var leftChild, rightChild := Children(x, n, lo, hi);
    match o
    case Less => return rightChild, x + 1, hi;
    case Greater => return leftChild, lo, x;
    case Equal => return None, x, x;
  }

  /** The entries of a path with their relations. */
  function Inspected(rel: seq<Ordering>, path: seq<nat>): (inspected: seq<(nat, Ordering)>)
    requires forall i :: 0 <= i < |path| ==> path[i] < |rel|
    ensures |inspected| == |path| && forall i :: 0 <= i < |path| ==> inspected[i] == (path[i], rel[path[i]])
  {
    seq(|path|, i requires 0 <= i < |path| => (path[i], rel[path[i]]))
  }

  lemma MoreInspected(rel: seq<Ordering>, path: seq<nat>, x: nat)
    requires (forall i :: 0 <= i < |path| ==> path[i] < |rel|) && x < |rel|
    ensures Inspected(rel, path + [x]) == Inspected(rel, path) + [(x, rel[x])]
  {
  }

  /** The least greater entry of those inspected. */
  function LeastOf(inspected: seq<(nat, Ordering)>): (r: Option<nat>)
    decreases |inspected|
  {
    if inspected == [] then None
    else
      var rest := LeastOf(inspected[1..]);
      if inspected[0].1 != Greater || (rest.Some? && rest.value < inspected[0].0) then rest else Some(inspected[0].0)
  }

  method LeastInspected(inspected: seq<(nat, Ordering)>) returns (r: Option<nat>)
    ensures r == LeastOf(inspected)
  {
    r := None;
    for i := |inspected| downto 0
      invariant r == LeastOf(inspected[i..])
    {
      assert inspected[i..] == [inspected[i]] + inspected[i + 1..];
      if inspected[i].1 == Greater && !(r.Some? && r.value < inspected[i].0) {
        r := Some(inspected[i].0);
      }
    }
    assert inspected[0..] == inspected;
  }

  lemma {:induction false} LeastOfPath(rel: seq<Ordering>, path: seq<nat>)
    requires forall i :: 0 <= i < |path| ==> path[i] < |rel|
    ensures LeastOf(Inspected(rel, path)) == LeastGreater(rel, path)
    decreases |path|
  {
    if path != [] {
      LeastOfPath(rel, path[1..]);
      assert Inspected(rel, path)[1..] == Inspected(rel, path[1..]);
    }
  }

  /** A ladder sent for an entry. */
  datatype SearchVisit = SearchVisit(pos: nat, versions: seq<nat>)

  /** The ladder for an entry; a label that is absent there takes one lookup. */
  function VersionsAt(g: Option<nat>, target: nat): (vs: seq<nat>) {
    if g.None? then [0] else SearchLadder(target, g.value)
  }

  /** The ladders of the inspected entries. */
  function VisitsOf(greatest: Versions, target: nat, path: seq<nat>): (visits: seq<SearchVisit>)
    requires forall i :: 0 <= i < |path| ==> path[i] < |greatest|
    ensures |visits| == |path|
    ensures forall i :: 0 <= i < |path| ==> visits[i] == SearchVisit(path[i], VersionsAt(greatest[path[i]], target))
  {
    seq(|path|, i requires 0 <= i < |path| => SearchVisit(path[i], VersionsAt(greatest[path[i]], target)))
  }

  lemma MoreVisits(greatest: Versions, target: nat, path: seq<nat>, x: nat, versions: seq<nat>)
    requires (forall i :: 0 <= i < |path| ==> path[i] < |greatest|) && x < |greatest|
            && versions == VersionsAt(greatest[x], target)
    ensures VisitsOf(greatest, target, path + [x]) == VisitsOf(greatest, target, path) + [SearchVisit(x, versions)]
  {
  }

  /** One inspection: the ladder for an entry, and how the entry compares with the target. */
  method InspectEntry(greatest: Versions, target: nat, curr: nat, visits: seq<SearchVisit>, ghost path: seq<nat>)
    returns (o: Ordering, visits': seq<SearchVisit>)
    requires curr < |greatest| && forall i :: 0 <= i < |path| ==> path[i] < |greatest|
    requires visits == VisitsOf(greatest, target, path)
    requires greatest[curr].Some? ==> greatest[curr].value <= MAX_VERSION
    ensures o == RelationAt(greatest[curr], target) && visits' == VisitsOf(greatest, target, path + [curr])
  {
    o := RelationAt(greatest[curr], target);
    var versions := LadderFor(greatest[curr], target);
    MoreVisits(greatest, target, path, curr, versions);
    visits' := visits + [SearchVisit(curr, versions)];
  }

  /** The search loop of `traverse_fixed_search`. */
  method InspectPath(greatest: Versions, n: nat, target: nat, ghost rel: seq<Ordering>)
    returns (inspected: seq<(nat, Ordering)>, visits: seq<SearchVisit>, success: bool, ghost path: seq<nat>)
    requires n == |greatest| > 0 && forall x :: 0 <= x < n && greatest[x].Some? ==> greatest[x].value <= MAX_VERSION
    requires rel == Relations(greatest, target)
    ensures path == PathTo(rel, 0, n) && visits == VisitsOf(greatest, target, path)
    ensures inspected == Inspected(rel, path) && path != [] && (success <==> EqualAt(rel, path).Some?)
  {
    ghost var all := PathTo(rel, 0, n);
    inspected, visits, success, path := [], [], false, [];
    WholeTree(n);
    var next := Some(IbstRoot(n));
    ghost var lo: nat, hi: nat := 0, n;
    while next.Some? && !success
      invariant hi <= n && IsChild(next, n, lo, hi)
      invariant path + PathTo(rel, lo, hi) == all
      invariant (forall i :: 0 <= i < |path| ==> path[i] < n) && inspected == Inspected(rel, path)
      invariant visits == VisitsOf(greatest, target, path)
      invariant (path == [] ==> lo < hi) && (success <==> EqualAt(rel, path).Some?)
      invariant success ==> lo >= hi
      decreases hi - lo
    {
      var curr := next.value;
      var o;
      o, visits := InspectEntry(greatest, target, curr, visits, path);
      MoreInspected(rel, path, curr);
      EqualAtNext(rel, path, curr);
      inspected := inspected + [(curr, o)];
      ghost var lo', hi';
      next, lo', hi' := NextEntry(o, curr, n, lo, hi);
      PathStep(path, rel, lo, hi, curr, lo', hi');
      path := path + [curr];
      lo, hi := lo', hi';
      success := o == Equal;
    }
    assert path == all;
  }

  method LadderFor(g: Option<nat>, target: nat) returns (versions: seq<nat>)
    requires g.Some? ==> g.value <= MAX_VERSION
    ensures versions == VersionsAt(g, target)
  {
    if g.None? {
      return [0];
    }
    versions := SearchBinaryLadder(target, g.value, [], []);
    OthersNone(SearchLadder(target, g.value), [], []);
  }

  /** What the server answers: the terminal entry, if the version is in the label's history. */
  function ServerAnswer(greatest: Versions, target: nat, history: set<nat>): (r: Result<nat>) {
    var rel := Relations(greatest, target);
    var terminal := Terminal(rel, PathTo(rel, 0, |greatest|));
    if terminal.Some? && target in history then Ok(terminal.value) else Err
  }

  /** `traverse_fixed_search`: at the end the target is looked up at the identified entry. */
  method TraverseFixedSearch(greatest: Versions, n: nat, target: nat, history: set<nat>)
    returns (r: Result<nat>, visits: seq<SearchVisit>)
    requires n == |greatest| > 0 && forall x :: 0 <= x < n && greatest[x].Some? ==> greatest[x].value <= MAX_VERSION
    ensures r == ServerAnswer(greatest, target, history)
    ensures var rel := Relations(greatest, target); var path := PathTo(rel, 0, n);
            visits == VisitsOf(greatest, target, path) +
              if r.Ok? && EqualAt(rel, path).None? then [SearchVisit(r.value, [target])] else []
  {
    ghost var rel := Relations(greatest, target);
    var inspected, success;
    ghost var path;
    inspected, visits, success, path := InspectPath(greatest, n, target, rel);
    if success {
      return (if target in history then Ok(inspected[|inspected| - 1].0) else Err), visits;
    }
    var identified := LeastInspected(inspected);
    LeastOfPath(rel, path);
    if identified.None? || target !in history {
      return Err, visits;
    }
    visits := visits + [SearchVisit(identified.value, [target])];
    return Ok(identified.value), visits;
  }

  /** What the client concludes from the relations its ladders prove and the outcome of the last lookup. */
  function ClientAnswer(rel: seq<Ordering>, included: seq<bool>): (r: Result<nat>)
    requires |rel| == |included|
  {
    var path := PathTo(rel, 0, |rel|);
    var terminal := Terminal(rel, path);
    if terminal.None? then Err
    else if EqualAt(rel, path).Some? then Ok(terminal.value)
    else LeastInside(rel, path); if included[terminal.value] then Ok(terminal.value) else Err
  }

  lemma {:induction false} LeastInside(rel: seq<Ordering>, path: seq<nat>)
    requires forall i :: 0 <= i < |path| ==> path[i] < |rel|
    ensures LeastGreater(rel, path).Some? ==> LeastGreater(rel, path).value < |rel|
    decreases |path|
  {
    if path != [] { LeastInside(rel, path[1..]); }
  }

  // ---- agreement ----

  /** The relation that the ladder of an honest entry proves. */
  lemma HonestRelation(g: Option<nat>, target: nat, outcomes: seq<bool>)
    requires target <= MAX_VERSION && (g.Some? ==> g.value <= MAX_VERSION)
    requires if g.Some? then Tells(outcomes, 0, VersionsAt(g, target), g.value) else outcomes == [false]
    ensures Decode(outcomes, target).Ok? && Relation(Decode(outcomes, target).value, target) == RelationAt(g, target)
  {
    if g.Some? {
      DecodeInverse(target, g.value, outcomes);
      RelationIsCompare(target, g.value);
    } else {
      AbsentDecodes(outcomes, target, 0);
    }
  }

  /** A ladder of one rejected lookup, read from its first rung `k`, decodes to that lookup. */
  lemma AbsentDecodes(outcomes: seq<bool>, target: nat, k: nat)
    requires outcomes == [false] && k == 0
    ensures DecodeClimbing(outcomes, target, k, k) == Ok([Lookup(0, false)])
    ensures Relation([Lookup(0, false)], target) == Less
  {
    RungBelow(k);
    assert Rung(k) == 0 && [Lookup(0, false)] + [] == [Lookup(0, false)];
  }

  /** Versions are given out in order, so that a history has all up to the greatest one in the log. */
  ghost predicate LinearHistory(greatest: Versions, history: set<nat>) {
    && (forall x, v: nat :: 0 <= x < |greatest| && greatest[x].Some? && v <= greatest[x].value ==> v in history)
    && (forall v :: v in history ==>
         greatest != [] && greatest[|greatest| - 1].Some? && v <= greatest[|greatest| - 1].value)
  }

  /** An entry's tree includes the versions up to its greatest one. */
  ghost predicate IncludesUpTo(greatest: Versions, target: nat, included: seq<bool>) {
    |included| == |greatest| &&
    forall x :: 0 <= x < |greatest| ==> (included[x] <==> greatest[x].Some? && target <= greatest[x].value)
  }

  /**
   * Over honest ladders the client inspects the server's entries and ends where the server does;
   * both succeed exactly when the version exists.
   */
  lemma FixedSearchAgrees(greatest: Versions, target: nat, history: set<nat>, included: seq<bool>)
    requires Rises(greatest) && LinearHistory(greatest, history) && IncludesUpTo(greatest, target, included)
    ensures ClientAnswer(Relations(greatest, target), included) == ServerAnswer(greatest, target, history)
    ensures ServerAnswer(greatest, target, history).Ok? <==> target in history
  {
    SearchFinds(greatest, target);
    var rel := Relations(greatest, target);
    var path := PathTo(rel, 0, |rel|);
    var terminal := Terminal(rel, path);
    if terminal.Some? {
      assert greatest[terminal.value].Some? && target <= greatest[terminal.value].value;
    }
  }
}
