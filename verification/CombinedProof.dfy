/**
 * Combined proofs (section 12.3 and Appendix C of draft-ietf-keytrans-protocol-05): the queues a
 * server session writes (src/tree/walker.rs) and the client's reader consumes (src/client/core.rs).
 */
module CombinedProof {
  import opened Digests
  import opened PrefixProofs
  import opened StoredLog

  datatype CombinedTreeProof = CombinedTreeProof(
    timestamps: seq<nat>, prefixProofs: seq<PrefixProof>, prefixRoots: seq<Digest>)

  /** An entry touched by a walk: for its timestamp only, or with a proof. */
  datatype Visit = Visit(pos: nat, proof: Option<PrefixProof>)

  // ---- what a walk touches ----

  function Seen(visits: seq<Visit>, k: nat): (s: set<nat>)
    requires k <= |visits|
    decreases k, visits
  {
    if k == 0 then {} else Seen(visits, k - 1) + {visits[k - 1].pos}
  }

  /** The entries with a proof. */
  function Proved(visits: seq<Visit>, k: nat): (s: set<nat>)
    requires k <= |visits|
    ensures s <= Seen(visits, k)
    decreases k, visits
  {
    if k == 0 then {}
    else if visits[k - 1].proof.Some? then Proved(visits, k - 1) + {visits[k - 1].pos}
    else Proved(visits, k - 1)
  }

  /** The entries in the order they are first touched. */
  function FirstSeen(visits: seq<Visit>, k: nat): (xs: seq<nat>)
    requires k <= |visits|
    ensures forall x :: x in xs <==> x in Seen(visits, k)
    decreases k, visits
  {
    if k == 0 then []
    else if visits[k - 1].pos in FirstSeen(visits, k - 1) then FirstSeen(visits, k - 1)
    else FirstSeen(visits, k - 1) + [visits[k - 1].pos]
  }

  /** The proofs in the order of the visits, each with its entry. */
  function ProofsOf(visits: seq<Visit>, k: nat): (ps: seq<(nat, PrefixProof)>)
    requires k <= |visits|
    decreases k, visits
  {
    if k == 0 then []
    else if visits[k - 1].proof.Some? then ProofsOf(visits, k - 1) + [(visits[k - 1].pos, visits[k - 1].proof.value)]
    else ProofsOf(visits, k - 1)
  }

  function WithoutEntries(ps: seq<(nat, PrefixProof)>): (proofs: seq<PrefixProof>)
    ensures |proofs| == |ps| && forall i :: 0 <= i < |ps| ==> proofs[i] == ps[i].1
  {
    seq(|ps|, i requires 0 <= i < |ps| => ps[i].1)
  }

  function EntriesOf(ps: seq<(nat, PrefixProof)>): (s: set<nat>) {
    set i | 0 <= i < |ps| :: ps[i].0
  }

  lemma {:induction false} ProofEntries(visits: seq<Visit>, k: nat)
    requires k <= |visits|
    ensures EntriesOf(ProofsOf(visits, k)) == Proved(visits, k)
  {
    if k > 0 {
      ProofEntries(visits, k - 1);
      if visits[k - 1].proof.Some? {
        MoreEntries(ProofsOf(visits, k - 1), visits[k - 1].pos, visits[k - 1].proof.value);
      }
    }
  }

  lemma MoreEntries(ps: seq<(nat, PrefixProof)>, pos: nat, proof: PrefixProof)
    ensures EntriesOf(ps + [(pos, proof)]) == EntriesOf(ps) + {pos}
  {
    var more := ps + [(pos, proof)];
    assert more[|ps|].0 == pos;
    assert forall i :: 0 <= i < |ps| ==> more[i] == ps[i];
    forall x
      ensures x in EntriesOf(more) <==> x in EntriesOf(ps) + {pos}
    {
      if x in EntriesOf(ps) {
        var i :| 0 <= i < |ps| && ps[i].0 == x;
        assert more[i].0 == x;
      }
    }
  }

  // ---- increasing lists ----

  predicate Increasing(xs: seq<nat>) {
    forall i, j :: 0 <= i < j < |xs| ==> xs[i] < xs[j]
  }

  /** The elements of a set below n, in order. */
  function Listed(s: set<nat>, n: nat): (xs: seq<nat>)
    ensures (forall x :: x in xs <==> x in s && x < n) && (forall i :: 0 <= i < |xs| ==> xs[i] < n) && Increasing(xs)
    decreases n, s
  {
    if n == 0 then [] else if n - 1 in s then Listed(s, n - 1) + [n - 1] else Listed(s, n - 1)
  }

  /** An increasing list is determined by its elements. */
  lemma {:induction false} IncreasingUnique(xs: seq<nat>, ys: seq<nat>)
    requires Increasing(xs) && Increasing(ys) && forall x :: x in xs <==> x in ys
    ensures xs == ys
    decreases |xs|
  {
    assert |xs| > 0 ==> xs[0] in ys;
    assert |ys| > 0 ==> ys[0] in xs;
    if |xs| > 0 && |ys| > 0 {
      var fx, x, fy, y := xs[..|xs| - 1], xs[|xs| - 1], ys[..|ys| - 1], ys[|ys| - 1];
      assert xs == fx + [x] && ys == fy + [y];
      SameFronts(fx, x, fy, y);
      IncreasingUnique(fx, fy);
    }
  }

  lemma SameFronts(fx: seq<nat>, x: nat, fy: seq<nat>, y: nat)
    requires Increasing(fx + [x]) && Increasing(fy + [y]) && forall z :: z in fx + [x] <==> z in fy + [y]
    ensures Increasing(fx) && Increasing(fy) && x == y && forall z :: z in fx <==> z in fy
  {
    LastIsGreatest(fx, x);
    LastIsGreatest(fy, y);
    assert x in fx + [x] && y in fy + [y];
    forall z
      ensures z in fx <==> z in fy
    {
      assert z in fx + [x] <==> z in fy + [y];
    }
  }

  lemma LastIsGreatest(front: seq<nat>, last: nat)
    requires Increasing(front + [last])
    ensures Increasing(front) && forall x :: x in front ==> x < last
    ensures forall x :: x in front + [last] <==> x in front || x == last
  {
    var xs := front + [last];
    assert forall i :: 0 <= i < |front| ==> xs[i] == front[i];
    forall x | x in front
      ensures x < last
    {
      var i :| 0 <= i < |front| && front[i] == x;
      assert xs[i] < xs[|front|];
    }
  }

  method SortDistinct(xs: seq<nat>) returns (ys: seq<nat>)
    ensures Increasing(ys) && forall x :: x in ys <==> x in xs
  {
    ys := [];
    for i := 0 to |xs|
      invariant Increasing(ys) && forall x :: x in ys <==> x in xs[..i]
    {
      ys := InsertInOrder(ys, xs[i]);
      assert xs[..i + 1] == xs[..i] + [xs[i]];
    }
    assert xs[..|xs|] == xs;
  }

  method InsertInOrder(xs: seq<nat>, x: nat) returns (ys: seq<nat>)
    requires Increasing(xs)
    ensures Increasing(ys) && forall y :: y in ys <==> y in xs || y == x
  {
    var i := 0;
    while i < |xs| && xs[i] < x
      invariant 0 <= i <= |xs| && forall k :: 0 <= k < i ==> xs[k] < x
    {
      i := i + 1;
    }
    assert xs == xs[..i] + xs[i..];
    ys := if i < |xs| && xs[i] == x then xs else xs[..i] + [x] + xs[i..];
  }

  // ---- the server's session ----

  predicate AllBelow(xs: seq<nat>, n: nat) {
    forall i :: 0 <= i < |xs| ==> xs[i] < n
  }

  function StampsOf(log: seq<Entry>, xs: seq<nat>): (ts: seq<nat>)
    requires AllBelow(xs, |log|)
    ensures |ts| == |xs| && forall i :: 0 <= i < |xs| ==> ts[i] == log[xs[i]].0
  {
    seq(|xs|, i requires 0 <= i < |xs| => log[xs[i]].0)
  }

  function RootsOf(log: seq<Entry>, xs: seq<nat>): (roots: seq<Digest>)
    requires AllBelow(xs, |log|)
    ensures |roots| == |xs| && forall i :: 0 <= i < |xs| ==> roots[i] == log[xs[i]].1
  {
    seq(|xs|, i requires 0 <= i < |xs| => log[xs[i]].1)
  }

  predicate InLog(visits: seq<Visit>, n: nat) {
    forall i :: 0 <= i < |visits| ==> visits[i].pos < n
  }

  lemma {:induction false} SeenInLog(visits: seq<Visit>, n: nat, k: nat)
    requires InLog(visits, n) && k <= |visits|
    ensures (forall x :: x in Seen(visits, k) ==> x < n) && AllBelow(FirstSeen(visits, k), n)
  {
    if k > 0 { SeenInLog(visits, n, k - 1); }
  }

  /**
   * The proof of a walk: timestamps in the order of first touch, proofs in the order of the visits,
   * and from left to right the prefix roots of the entries without a proof.
   */
  function Finalized(log: seq<Entry>, visits: seq<Visit>): (proof: CombinedTreeProof)
    requires InLog(visits, |log|)
  {
    SeenInLog(visits, |log|, |visits|);
    CombinedTreeProof(
      StampsOf(log, FirstSeen(visits, |visits|)), WithoutEntries(ProofsOf(visits, |visits|)),
      RootsOf(log, Listed(Seen(visits, |visits|) - Proved(visits, |visits|), |log|)))
  }

  /** What a session has written for its visits. */
  ghost predicate Written(log: seq<Entry>, visits: seq<Visit>, tsOrder: seq<nat>, tsSeen: set<nat>,
                          timestamps: map<nat, nat>, prefixProofs: seq<(nat, PrefixProof)>,
                          availableRoots: map<nat, Digest>) {
    && InLog(visits, |log|)
    && tsOrder == FirstSeen(visits, |visits|) && tsSeen == Seen(visits, |visits|)
    && prefixProofs == ProofsOf(visits, |visits|)
    && (forall x :: x in tsSeen ==> x < |log| && x in timestamps && timestamps[x] == log[x].0)
    && (forall x :: x in availableRoots ==> x < |log| && availableRoots[x] == log[x].1)
    && (forall x :: x in tsSeen && x !in Proved(visits, |visits|) ==> x in availableRoots)
  }

  lemma WrittenNext(log: seq<Entry>, visits: seq<Visit>, v: Visit, tsOrder: seq<nat>, tsSeen: set<nat>,
                    timestamps: map<nat, nat>, prefixProofs: seq<(nat, PrefixProof)>, availableRoots: map<nat, Digest>)
    requires Written(log, visits, tsOrder, tsSeen, timestamps, prefixProofs, availableRoots) && v.pos < |log|
    ensures Written(log, visits + [v],
                    if v.pos in tsSeen then tsOrder else tsOrder + [v.pos], tsSeen + {v.pos},
                    if v.pos in tsSeen then timestamps else timestamps[v.pos := log[v.pos].0],
                    if v.proof.Some? then prefixProofs + [(v.pos, v.proof.value)] else prefixProofs,
                    if v.proof.Some? || v.pos in availableRoots then availableRoots
                    else availableRoots[v.pos := log[v.pos].1])
  {
    Extended(visits, v);
  }

  class TraversalSession {
    const log: seq<Entry>
    var tsOrder: seq<nat>
    var tsSeen: set<nat>
    var timestamps: map<nat, nat>
    var prefixProofs: seq<(nat, PrefixProof)>
    var availableRoots: map<nat, Digest>
    ghost var visits: seq<Visit>

    ghost predicate Valid()
      reads this
    {
      Written(log, visits, tsOrder, tsSeen, timestamps, prefixProofs, availableRoots)
    }

    constructor (entries: seq<Entry>)
      ensures Valid() && log == entries && visits == []
    {
      log := entries;
      tsOrder, tsSeen, timestamps, prefixProofs, availableRoots := [], {}, map[], [], map[];
      visits := [];
    }

    method AddNode(pos: nat, ts: nat)
      modifies `tsOrder, `tsSeen, `timestamps
      ensures tsSeen == old(tsSeen) + {pos}
      ensures tsOrder == if pos in old(tsSeen) then old(tsOrder) else old(tsOrder) + [pos]
      ensures timestamps == if pos in old(tsSeen) then old(timestamps) else old(timestamps)[pos := ts]
    {
      if pos !in tsSeen {
        tsOrder := tsOrder + [pos];
        timestamps := timestamps[pos := ts];
      }
      tsSeen := tsSeen + {pos};
    }

    /** `visit_timestamp_only`. */
    method VisitTimestampOnly(pos: nat) returns (r: Result<()>)
      requires Valid()
      modifies this
      ensures Valid() && (r.Ok? <==> pos < |log|)
      ensures visits == if r.Ok? then old(visits) + [Visit(pos, None)] else old(visits)
    {
      if pos >= |log| {
        return Err;
      }
      AddNode(pos, log[pos].0);
      if pos !in availableRoots {
        availableRoots := availableRoots[pos := log[pos].1];
      }
      WrittenNext(log, visits, Visit(pos, None), old(tsOrder), old(tsSeen), old(timestamps), prefixProofs,
                  old(availableRoots));
      visits := visits + [Visit(pos, None)];
      return Ok(());
    }

    /** `visit`: the proof is the one generated for the entry. */
    method VisitWithProof(pos: nat, proof: PrefixProof) returns (r: Result<()>)
      requires Valid()
      modifies this
      ensures Valid() && (r.Ok? <==> pos < |log|)
      ensures visits == if r.Ok? then old(visits) + [Visit(pos, Some(proof))] else old(visits)
    {
      if pos >= |log| {
        return Err;
      }
      AddNode(pos, log[pos].0);
      prefixProofs := prefixProofs + [(pos, proof)];
      WrittenNext(log, visits, Visit(pos, Some(proof)), old(tsOrder), old(tsSeen), old(timestamps), old(prefixProofs),
                  availableRoots);
      visits := visits + [Visit(pos, Some(proof))];
      return Ok(());
    }

    /** `finalize`, without the inclusion proof. */
    method Finalize() returns (combined: CombinedTreeProof)
      requires Valid()
      ensures combined == Finalized(log, visits)
    {
      SeenInLog(visits, |log|, |visits|);
      var stamps := [];
      for i := 0 to |tsOrder|
        invariant |stamps| == i && forall k :: 0 <= k < i ==> stamps[k] == log[tsOrder[k]].0
      {
        assert tsOrder[i] in tsOrder;
        stamps := stamps + [timestamps[tsOrder[i]]];
      }
      var proofNodes := EntriesOf(prefixProofs);
      ProofEntries(visits, |visits|);
      var proofs := WithoutEntries(prefixProofs);
      var rootless := Rootless(proofNodes);
      var roots := [];
      for i := 0 to |rootless|
        invariant |roots| == i && forall k :: 0 <= k < i ==> roots[k] == log[rootless[k]].1
      {
        assert rootless[i] in rootless;
        if rootless[i] in availableRoots {
          roots := roots + [availableRoots[rootless[i]]];
        }
      }
      combined := CombinedTreeProof(stamps, proofs, roots);
      assert stamps == StampsOf(log, FirstSeen(visits, |visits|));
      assert roots == RootsOf(log, rootless);
    }

    method Rootless(proofNodes: set<nat>) returns (rootless: seq<nat>)
      requires Valid() && proofNodes == Proved(visits, |visits|)
      ensures rootless == Listed(Seen(visits, |visits|) - Proved(visits, |visits|), |log|)
    {
      var unsorted: seq<nat> := [];
      for i := 0 to |tsOrder|
        invariant forall x :: x in unsorted <==> x in tsOrder[..i] && x !in proofNodes
      {
        assert tsOrder[..i + 1] == tsOrder[..i] + [tsOrder[i]];
        if tsOrder[i] !in proofNodes {
          unsorted := unsorted + [tsOrder[i]];
        }
      }
      assert tsOrder[..|tsOrder|] == tsOrder;
      rootless := SortDistinct(unsorted);
      IncreasingUnique(rootless, Listed(Seen(visits, |visits|) - Proved(visits, |visits|), |log|));
    }
  }

  /** What one more visit adds. */
  lemma Extended(visits: seq<Visit>, v: Visit)
    ensures var more := visits + [v];
            && Seen(more, |more|) == Seen(visits, |visits|) + {v.pos}
            && FirstSeen(more, |more|) == (if v.pos in Seen(visits, |visits|) then FirstSeen(visits, |visits|)
                                           else FirstSeen(visits, |visits|) + [v.pos])
            && ProofsOf(more, |more|) == ProofsOf(visits, |visits|) + (if v.proof.Some? then [(v.pos, v.proof.value)]
                 else [])
            && Proved(more, |more|) == Proved(visits, |visits|) + (if v.proof.Some? then {v.pos} else {})
  {
    SameVisits(visits, visits + [v], |visits|);
  }

  lemma {:induction false} SameVisits(visits: seq<Visit>, more: seq<Visit>, k: nat)
    requires visits <= more && k <= |visits|
    ensures Seen(more, k) == Seen(visits, k) && FirstSeen(more, k) == FirstSeen(visits, k)
    ensures ProofsOf(more, k) == ProofsOf(visits, k) && Proved(more, k) == Proved(visits, k)
  {
    if k > 0 { SameVisits(visits, more, k - 1); }
  }
}
