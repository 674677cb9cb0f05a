/**
 * No proof has anything left over: what is accepted has exactly as many elements, nodes, timestamps and roots as its
 * verification takes (src/client/prefix_verifier.rs, src/client/verifier.rs, src/client/core.rs).
 */
module ProofLengths {
  import opened Digests
  import opened PrefixProofs
  import opened Transition
  import opened LogMath
  import opened LogTree
  import opened LogProofs
  import opened LogServer
  import opened LadderDecode
  import opened LadderProofs
  import opened CombinedProof
  import opened ProofReader
  import opened ClientOperation
  import opened Ibst
  import opened FixedReplay
  import opened ClientSearch

  // ---- prefix proofs ----

  /** The elements that the first n outcomes take. */
  function DepthsOf(results: seq<SearchResult>, n: nat): (total: nat)
    requires n <= |results|
    decreases n, results
  {
    if n == 0 then 0 else DepthsOf(results, n - 1) + results[n - 1].depth
  }

  lemma {:induction false} AgreedTakes(c: LadderProofs.Claim, ls: seq<Lookup>, proof: PrefixProof, n: nat)
    requires n <= |ls| && Agreed(c, ls, proof, n).Ok?
    ensures n <= |proof.results| && Agreed(c, ls, proof, n).value.1 == DepthsOf(proof.results, n)
    decreases n
  {
    if n > 0 { AgreedTakes(c, ls, proof, n - 1); }
  }

  /** An accepted ladder has one outcome for each lookup, and only their elements. */
  lemma {:induction false} LadderUsesAll(c: LadderProofs.Claim, proof: PrefixProof, isRightmost: bool)
    requires CheckedLadder(c, proof, isRightmost).Ok?
    ensures Decode(OutcomesOf(proof), c.target).Ok?
    ensures |Decode(OutcomesOf(proof), c.target).value| == |proof.results|
    ensures |proof.elements| == DepthsOf(proof.results, |proof.results|)
  {
    var ls := Decode(OutcomesOf(proof), c.target).value;
    ClimbingReads(OutcomesOf(proof), c.target, 0, 0);
    AgreedTakes(c, ls, proof, |ls|);
  }

  /** An accepted lookup has one outcome, and only its elements. */
  lemma {:induction false} LookupUsesAll(c: LadderProofs.Claim, proof: PrefixProof)
    requires SingleLookup(c, proof).Ok?
    ensures |proof.results| == 1 && |proof.elements| == proof.results[0].depth
  {}

  lemma {:induction false} SiblingsKeepOffset(a: Assembly, key: Index, elements: seq<Digest>, batch: set<Index>, n: nat)
    requires n <= |elements| <= INDEX_BITS && AddSiblings(a, key, elements, batch, n).Ok?
    ensures AddSiblings(a, key, elements, batch, n).value.offset == a.offset
    decreases n
  {
    if n > 0 { SiblingsKeepOffset(a, key, elements, batch, n - 1); }
  }

  lemma {:induction false} AbsorbTakes(a: Assembly, item: Leaf, result: SearchResult, isRemoved: bool,
                                       removedKeys: set<Index>, batch: set<Index>, elements: seq<Digest>)
    requires Absorb(a, item, result, isRemoved, removedKeys, batch, elements).Ok?
    ensures Absorb(a, item, result, isRemoved, removedKeys, batch, elements).value.offset == a.offset + result.depth
  {
    var end := a.offset + result.depth;
    var nodes := AddTerminal(a.nodes, item, result, isRemoved, removedKeys).value;
    SiblingsKeepOffset(Assembly(nodes, a.covering, end), item.vrfOutput, elements[a.offset..end], batch, result.depth);
  }

  lemma {:induction false} AssembledTakes(added: seq<Leaf>, removed: seq<Leaf>, proof: PrefixProof, n: nat)
    requires n <= |proof.results| == |added| + |removed| && Assemble(added, removed, proof, n).Ok?
    ensures Assemble(added, removed, proof, n).value.offset == DepthsOf(proof.results, n)
    decreases n
  {
    if n > 0 {
      AssembledTakes(added, removed, proof, n - 1);
      AbsorbTakes(Assemble(added, removed, proof, n - 1).value, (added + removed)[n - 1], proof.results[n - 1],
                  n - 1 >= |added|, Keys(removed), Keys(added) + Keys(removed), proof.elements);
    }
  }

  /** An accepted transition has one outcome for each leaf, and only their elements. */
  lemma {:induction false} TransitionUsesAll(oldRoot: Digest, added: seq<Leaf>, removed: seq<Leaf>, proof: PrefixProof)
    requires NextRoot(oldRoot, added, removed, proof).Ok?
    ensures |proof.results| == |added| + |removed|
    ensures |proof.elements| == DepthsOf(proof.results, |proof.results|)
  {
    AssembledTakes(added, removed, proof, |proof.results|);
  }

  // ---- the log ----

  lemma {:induction false} RebuildTakes(q: Query, k: nat, j: nat, proof: seq<Digest>, used: nat, captured: Values)
    requires Rebuild(q, k, j, proof, used, captured).Ok? && used <= |proof|
    ensures var r := Rebuild(q, k, j, proof, used, captured).value;
            r.used == used + |Needed(q.n, q.provided.Keys, {}, q.retained.Keys, k, j)| <= |proof|
    decreases k
  {
    if k > 0 && Visited(q.provided.Keys, k, j) {
      var l := Rebuild(q, k - 1, 2 * j, proof, used, captured).value;
      RebuildTakes(q, k - 1, 2 * j, proof, used, captured);
      if RightIndex(k - 1, j, q.n) != 2 * j { RebuildTakes(q, k - 1, 2 * j + 1, proof, l.used, l.captured); }
    }
  }

  /** An accepted proof of a root has exactly the nodes that are neither provided nor retained. */
  lemma {:induction false} ReconstructionUsesAll(q: Query, proof: seq<Digest>)
    requires q.n > 0 && CalculatedRoot(q, proof).Ok?
    ensures |proof| == |Needed(q.n, q.provided.Keys, {}, q.retained.Keys, Height(q.n), 0)|
  {
    RebuildTakes(q, Height(q.n), 0, proof, 0, map[]);
  }

  // ---- the reader's queues ----

  /** A reader has taken one timestamp for each entry that it has one of. */
  ghost predicate Counted(m: Mark, n: nat) {
    m.tsIdx == |m.stamps| && forall p :: p in m.stamps ==> p < n
  }

  lemma {:induction false} StampedCounts(proof: CombinedTreeProof, m: Mark, x: nat, n: nat)
    requires Counted(m, n) && x < n && Stamped(proof, m, x).Ok?
    ensures Counted(Stamped(proof, m, x).value, n)
  {
    if x !in m.stamps { assert m.stamps[x := proof.timestamps[m.tsIdx]].Keys == m.stamps.Keys + {x}; }
  }

  lemma {:induction false} StampedAllCounts(proof: CombinedTreeProof, m: Mark, xs: seq<nat>, i: nat, n: nat)
    requires Counted(m, n) && i <= |xs| && (forall j :: 0 <= j < |xs| ==> xs[j] < n) && StampedAll(proof, m, xs, i).Ok?
    ensures Counted(StampedAll(proof, m, xs, i).value, n)
    decreases i
  {
    if i > 0 {
      StampedAllCounts(proof, m, xs, i - 1, n);
      StampedCounts(proof, StampedAll(proof, m, xs, i - 1).value, xs[i - 1], n);
    }
  }

  /** An increasing list has as many entries as elements. */
  lemma {:induction false} CountIncreasing(xs: seq<nat>, s: set<nat>)
    requires Increasing(xs) && forall x :: x in xs <==> x in s
    ensures |xs| == |s|
    decreases |xs|
  {
    if xs == [] {
      assert s == {};
    } else {
      var front, last := xs[..|xs| - 1], xs[|xs| - 1];
      assert xs == front + [last];
      LastIsGreatest(front, last);
      CountOne(s, s - {last}, last);
      CountIncreasing(front, s - {last});
    }
  }

  lemma {:induction false} CountOne(s: set<nat>, rest: set<nat>, x: nat)
    requires rest == s - {x}
    ensures |s| == if x in s then |rest| + 1 else |rest|
  {}

  lemma {:induction false} CountListed(s: set<nat>, n: nat)
    requires forall x :: x in s ==> x < n
    ensures |Listed(s, n)| == |s|
  {
    CountIncreasing(Listed(s, n), s);
  }

  lemma {:induction false} CollectedTakes(ps: seq<nat>, m: Stamps, roots: EntryRoots, prefixRoots: seq<Digest>, k: nat)
    requires k <= |ps| && (forall i :: 0 <= i < |ps| ==> ps[i] in m) && Collected(ps, m, roots, prefixRoots, k).Ok?
    ensures Collected(ps, m, roots, prefixRoots, k).value.1 == |Without(ps, roots.Keys, k)|
    decreases k
  {
    if k > 0 { CollectedTakes(ps, m, roots, prefixRoots, k - 1); }
  }

  /**
   * A finished reading has taken a timestamp for each entry read, a proof for each one asked for, and a prefix root for
   * each entry without a proof; the proof has no others.
   */
  lemma {:induction false} ReadingUsesAll(proof: CombinedTreeProof, m: Mark, roots: EntryRoots, n: nat)
    requires Counted(m, n) && Finished(proof, m, roots, n).Ok?
    ensures |proof.timestamps| == |m.stamps| == |Finished(proof, m, roots, n).value|
    ensures |proof.prefixProofs| == m.proofIdx
    ensures |proof.prefixRoots| == |m.stamps.Keys - roots.Keys|
  {
    var ps := Listed(m.stamps.Keys, n);
    CountListed(m.stamps.Keys, n);
    CountListed(m.stamps.Keys - roots.Keys, n);
    ListedKeys(m.stamps, n);
    CollectedTakes(ps, m.stamps, roots, proof.prefixRoots, |ps|);
    ListedWithout(m.stamps.Keys, roots.Keys, n);
  }

  lemma {:induction false} SearchedInside(check: Check, proofs: seq<PrefixProof>, lo: nat, hi: nat, t: Trail, n: nat)
    requires Searched(check, proofs, lo, hi, t).Ok? && hi <= n
    requires forall i :: 0 <= i < |t.inspected| ==> t.inspected[i].0 < n
    ensures var t' := Searched(check, proofs, lo, hi, t).value;
            forall i :: 0 <= i < |t'.inspected| ==> t'.inspected[i].0 < n
    decreases hi - lo
  {
    if lo < hi {
      var x := RootOf(lo, hi);
      SearchedOnward(check, proofs, lo, hi, t, x);
      InspectKeeps(check, proofs, x, t);
      var (t', o) := Inspect(check, proofs, x, t).value;
      SearchedInside(check, proofs, Next(o, x, lo, hi).0, Next(o, x, lo, hi).1, t', n);
    }
  }

  /** A fixed-version search asks for timestamps of the tree only. */
  lemma {:induction false} AskedInside(c: LadderProofs.Claim, proofs: seq<PrefixProof>, n: nat, idx: nat)
    requires n > 0 && FixedAnswer(c, proofs, n, idx).Ok?
    ensures var xs := DatesAsked(n, FixedAnswer(c, proofs, n, idx).value.1);
            forall j :: 0 <= j < |xs| ==> xs[j] < n
  {
    SearchedInside(LadderCheck(c), proofs, 0, n, Trail([], map[], idx), n);
  }

  lemma {:induction false} SearchCounts(proof: CombinedTreeProof, c: LadderProofs.Claim, n: nat, m: Mark)
    requires n > 0 && Counted(m, n) && SearchRead(proof, c, n, m).Ok?
    ensures Counted(SearchRead(proof, c, n, m).value.2, n)
  {
    if !c.greatest {
      AskedInside(c, proof.prefixProofs, n, m.proofIdx);
      var xs := DatesAsked(n, FixedAnswer(c, proof.prefixProofs, n, m.proofIdx).value.1);
      StampedAllCounts(proof, m, xs, |xs|, n);
    }
  }

  /** So an accepted response to a search has nothing that the search does not take. */
  lemma {:induction false} SearchUsesAll(proof: CombinedTreeProof, c: LadderProofs.Claim, n: nat)
    requires n > 0 && ResponseRead(proof, c, n).Ok?
    ensures var (x, roots, last) := FreshRead(proof, c, n).value;
            && |proof.timestamps| == |ResponseRead(proof, c, n).value.1| && |proof.prefixProofs| == last.proofIdx
            && |proof.prefixRoots| == |last.stamps.Keys - roots.Keys|
            && (c.greatest ==> |proof.prefixProofs| == |FrontierOf(n)|)
  {
    var start, frontier := Mark(0, 0, map[], []), FrontierOf(n);
    var first := StampedAll(proof, start, frontier, |frontier|).value;
    StampedAllCounts(proof, start, frontier, |frontier|, n);
    StampedAllTakesNone(proof, start, frontier, |frontier|);
    SearchCounts(proof, c, n, first);
    ReadingUsesAll(proof, FreshRead(proof, c, n).value.2, FreshRead(proof, c, n).value.1, n);
  }

  lemma {:induction false} StampedAllTakesNone(proof: CombinedTreeProof, m: Mark, xs: seq<nat>, i: nat)
    requires i <= |xs| && StampedAll(proof, m, xs, i).Ok?
    ensures StampedAll(proof, m, xs, i).value.proofIdx == m.proofIdx
    decreases i
  {
    if i > 0 { StampedAllTakesNone(proof, m, xs, i - 1); }
  }
}
