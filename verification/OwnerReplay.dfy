/** The client's replay of the owner's walk (src/client/core.rs) against the server's actions. */
module OwnerReplay {
  import opened Digests
  import opened PrefixProofs
  import opened Ibst
  import opened DistinguishedEntries
  import opened CombinedProof
  import opened ProofReader
  import opened ClientOperation
  import opened OwnerWalk

  /** The ladder check of an entry: the prefix root that its proof folds to, if the ladder passes. */
  type Check = (nat, PrefixProof) -> Option<Digest>

  /** How far a walk is: the requests answered, the proofs taken and the roots they gave. */
  datatype Moment = Moment(trace: seq<Request>, idx: nat, roots: EntryRoots)

  function AfterOne(check: Check, proofs: seq<PrefixProof>, q: Request, m: Moment): (r: Result<Moment>) {
    if !q.wantsProof then Ok(Moment(m.trace + [q], m.idx, m.roots))
    else if m.idx >= |proofs| then Err
    else
      var more := Record(m.roots, q.pos, check(q.pos, proofs[m.idx]));
      if more.Err? then Err else Ok(Moment(m.trace + [q], m.idx + 1, more.value))
  }

  /** After these requests and no others: each proof is the next of the queue, checked for its own entry. */
  function After(check: Check, proofs: seq<PrefixProof>, rs: seq<Request>, m: Moment): (r: Result<Moment>)
    decreases |rs|
  {
    if rs == [] then Ok(m)
    else
      var one := AfterOne(check, proofs, rs[0], m);
      if one.Err? then Err else After(check, proofs, rs[1..], one.value)
  }

  lemma {:induction false} AfterSum(check: Check, proofs: seq<PrefixProof>, a: seq<Request>, b: seq<Request>, m: Moment)
    ensures After(check, proofs, a + b, m) ==
            var mid := After(check, proofs, a, m); if mid.Err? then Err else After(check, proofs, b, mid.value)
    decreases |a|
  {
    if a == [] {
      assert a + b == b;
    } else {
      assert (a + b)[1..] == a[1..] + b;
      var one := AfterOne(check, proofs, a[0], m);
      if one.Ok? { AfterSum(check, proofs, a[1..], b, one.value); }
    }
  }

  lemma AfterBoth(check: Check, proofs: seq<PrefixProof>, a: seq<Request>, b: seq<Request>, m0: Moment, m1: Moment,
                  m2: Moment)
    requires After(check, proofs, a, m0) == Ok(m1) && After(check, proofs, b, m1) == Ok(m2)
    ensures After(check, proofs, a + b, m0) == Ok(m2)
  {
    AfterSum(check, proofs, a, b, m0);
  }

  lemma AfterSingle(check: Check, proofs: seq<PrefixProof>, q: Request, m: Moment)
    ensures After(check, proofs, [q], m) == AfterOne(check, proofs, q, m)
    ensures After(check, proofs, [], m) == Ok(m)
  {
    assert [q][1..] == [];
  }

  /** What a successful reading has done: these requests in order, as many proofs taken as they ask for. */
  lemma {:induction false} AfterIs(check: Check, proofs: seq<PrefixProof>, rs: seq<Request>, m: Moment)
    requires After(check, proofs, rs, m).Ok?
    ensures After(check, proofs, rs, m).value.trace == m.trace + rs
    ensures After(check, proofs, rs, m).value.idx == m.idx + |Laddered(rs)|
    ensures forall x :: x in After(check, proofs, rs, m).value.roots <==> x in m.roots || x in Laddered(rs)
    decreases |rs|
  {
    if rs != [] {
      var one := AfterOne(check, proofs, rs[0], m);
      AfterIs(check, proofs, rs[1..], one.value);
      assert rs == [rs[0]] + rs[1..];
    }
  }

  // ---- the walk, on values ----

  /** A walk that has come this far without an error. */
  datatype Walked = Walked(mark: Mark, roots: EntryRoots) {
    function Now(): (m: Moment) {
      Moment(mark.trace, mark.proofIdx, roots)
    }
  }

  /** The next proof, checked for this entry. */
  function Taken(proof: CombinedTreeProof, w: Walked, x: nat, check: Check): (r: Result<Walked>) {
    var m := w.mark;
    if m.proofIdx >= |proof.prefixProofs| then Err
    else
      var more := Record(w.roots, x, check(x, proof.prefixProofs[m.proofIdx]));
      if more.Err? then Err
      else Ok(Walked(m.(proofIdx := m.proofIdx + 1, trace := m.trace + [Proof(x)]), more.value))
  }

  /** The walk over the entries from lo up to hi. */
  ghost function Walk(proof: CombinedTreeProof, check: Check, rmw: nat, start: nat, lo: nat, hi: nat, left: nat,
                      right: nat, w: Walked)
    : (r: Result<Walked>)
    decreases hi - lo, 1, w
  {
    if lo >= hi || Minus(right, left) < rmw then Ok(w)
    else
      var x := RootOf(lo, hi);
      var stamped := Stamped(proof, w.mark, x);
      if stamped.Err? then Err
      else
        var mid := WalkMiddle(proof, check, rmw, start, lo, x, left, Walked(stamped.value, w.roots));
        if mid.Err? then Err else Walk(proof, check, rmw, start, x + 1, hi, stamped.value.stamps[x], right, mid.value)
  }

  /** An entry right of the start: first the entries to its left, then its own proof. */
  ghost function WalkMiddle(proof: CombinedTreeProof, check: Check, rmw: nat, start: nat, lo: nat, x: nat, left: nat,
                            w: Walked)
    : (r: Result<Walked>)
    requires x in w.mark.stamps
    decreases x - lo, 2, w
  {
    if x <= start then Ok(w)
    else
      var before := Walk(proof, check, rmw, start, lo, x, left, w.mark.stamps[x], w);
      if before.Err? then Err else Taken(proof, before.value, x, check)
  }

  // ---- the client's code ----

  /** The proof of an entry, checked and its root recorded. */
  method TakeProof(reader: ProofReader, x: nat, n: nat, check: Check, roots: EntryRoots) returns (r: Result<EntryRoots>)
    requires ReadSome(reader, n)
    modifies reader`proofIdx, reader`trace
    ensures ReadSome(reader, n)
    ensures Taken(reader.proof, old(Walked(MarkOf(reader), roots)), x, check) ==
            if r.Ok? then Ok(Walked(MarkOf(reader), r.value)) else Err
  {
    var p := reader.NextProof(x);
    if p.Err? {
      return Err;
    }
    r := Record(roots, x, check(x, p.value));
  }

  lemma WalkOpens(proof: CombinedTreeProof, check: Check, rmw: nat, start: nat, lo: nat, hi: nat, left: nat, right: nat,
                  w: Walked, x: nat, stamped: Mark)
    requires lo < hi && x == RootOf(lo, hi) && Minus(right, left) >= rmw && Stamped(proof, w.mark, x) == Ok(stamped)
    ensures var mid := WalkMiddle(proof, check, rmw, start, lo, x, left, Walked(stamped, w.roots));
            Walk(proof, check, rmw, start, lo, hi, left, right, w) ==
            if mid.Err? then Err else Walk(proof, check, rmw, start, x + 1, hi, stamped.stamps[x], right, mid.value)
  {}

  /** `replay_owner_walk`. */
  method ReplayOwnerWalk(reader: ProofReader, node: nat, left: nat, right: nat, start: nat, n: nat, rmw: nat,
                         check: Check, roots: EntryRoots, ghost lo: nat, ghost hi: nat)
    returns (r: Result<EntryRoots>)
    requires ReadSome(reader, n) && lo < hi && IsSubtree(n, lo, hi) && node == RootOf(lo, hi)
    modifies reader
    ensures hi <= n && ReadSome(reader, n)
    ensures Walk(reader.proof, check, rmw, start, lo, hi, left, right, old(Walked(MarkOf(reader), roots))) ==
            if r.Ok? then Ok(Walked(MarkOf(reader), r.value)) else Err
    decreases hi - lo, 0
  {
    var leftChild, rightChild := Children(node, n, lo, hi);
    if Minus(right, left) < rmw {
      return Ok(roots);
    }
    ghost var w := Walked(MarkOf(reader), roots);
    var read := ReadStamp(reader, node, n);
    if read.Err? {
      return Err;
    }
    ghost var stamped := MarkOf(reader);
    WalkOpens(reader.proof, check, rmw, start, lo, hi, left, right, w, node, stamped);
    r := ReplayMiddle(reader, node, leftChild, left, read.value, start, n, rmw, check, roots, lo);
    if r.Err? {
      return Err;
    }
    ghost var mid := Walked(MarkOf(reader), r.value);
    assert Walk(reader.proof, check, rmw, start, lo, hi, left, right, w) ==
           Walk(reader.proof, check, rmw, start, node + 1, hi, read.value, right, mid);
    r := ReplayChild(reader, rightChild, read.value, right, start, n, rmw, check, r.value, node + 1, hi);
  }

  method ReplayMiddle(reader: ProofReader, node: nat, leftChild: Option<nat>, left: nat, nodeTs: nat, start: nat,
                      n: nat, rmw: nat, check: Check, roots: EntryRoots, ghost lo: nat)
    returns (r: Result<EntryRoots>)
    requires ReadSome(reader, n) && node in reader.stamps && reader.stamps[node] == nodeTs
    requires lo <= node < n && IsChild(leftChild, n, lo, node)
    modifies reader
    ensures ReadSome(reader, n)
    ensures WalkMiddle(reader.proof, check, rmw, start, lo, node, left, old(Walked(MarkOf(reader), roots))) ==
            if r.Ok? then Ok(Walked(MarkOf(reader), r.value)) else Err
    decreases node - lo, 2
  {
    if node <= start {
      return Ok(roots);
    }
    r := ReplayChild(reader, leftChild, left, nodeTs, start, n, rmw, check, roots, lo, node);
    if r.Err? {
      return Err;
    }
    r := TakeProof(reader, node, n, check, r.value);
  }

  method ReplayChild(reader: ProofReader, child: Option<nat>, left: nat, right: nat, start: nat, n: nat, rmw: nat,
                     check: Check, roots: EntryRoots, ghost lo: nat, ghost hi: nat)
    returns (r: Result<EntryRoots>)
    requires ReadSome(reader, n) && lo <= hi <= n && IsChild(child, n, lo, hi)
    modifies reader
    ensures ReadSome(reader, n)
    ensures Walk(reader.proof, check, rmw, start, lo, hi, left, right, old(Walked(MarkOf(reader), roots))) ==
            if r.Ok? then Ok(Walked(MarkOf(reader), r.value)) else Err
    decreases hi - lo, 1
  {
    if child.None? {
      return Ok(roots);
    }
    r := ReplayOwnerWalk(reader, child.value, left, right, start, n, rmw, check, roots, lo, hi);
  }
}
