/**
 * The state a client trusts (src/client/core.rs, section 11.4 of draft-ietf-keytrans-protocol-05):
 * tree heads, the reconstruction of the root, and what is kept of it.
 */
module ClientState {
  import opened Digests
  import opened LogMath
  import opened LogTree
  import opened LogProofs
  import opened LogLaws
  import opened Accumulator

  const SAME: nat := 1
  const UPDATED: nat := 2

  /** A signed head: each signature verifies for exactly the size and root that it signed. */
  datatype TreeHead = TreeHead(treeSize: nat, timestamp: nat, signatures: seq<(nat, Digest)>)

  /** An auditor's head: its signature verifies for exactly the size, timestamp and root that it signed. */
  datatype AuditorTreeHead = AuditorTreeHead(treeSize: nat, timestamp: nat, signature: (nat, nat, Digest))

  datatype FullTreeHead = FullTreeHead(headType: nat, treeHead: Option<TreeHead>,
                                       auditorTreeHead: Option<AuditorTreeHead>)

  datatype Config = Config(auditing: bool, auditorStartPos: nat, maxAuditorLag: nat, maxAhead: nat, maxBehind: nat)

  datatype TrustedState = TrustedState(treeSize: nat, rootHash: Digest, timestamp: nat)

  /** The retained values are those of the full subtrees of the trusted tree, and fold to its root. */
  ghost predicate Retains(retained: Values, n: nat, root: Digest) {
    n > 0 && retained.Keys == PeakIds(n) && PeaksOf(retained, n, 0) != [] && FoldPeaks(PeaksOf(retained, n, 0)) == root
  }

  lemma {:induction false} PeaksOfAt(values: Values, q: nat, h: nat)
    ensures var (peaks, nodes) := (PeaksOf(values, q, h), Peaks(q, h));
            |peaks| == |nodes| && forall i :: 0 <= i < |peaks| ==>
                peaks[i] == (nodes[i].level, At(values, Ids(nodes)[i]))
    decreases q
  {
    if q > 0 { PeaksOfAt(values, q / 2, h + 1); }
  }

  /** The root of n leaves whose full subtrees have these values. */
  function RootAt(n: nat, values: Values): (root: Digest) {
    if n == 0 then Zero
    else
      PeaksOfAt(values, n, 0);
      SomePeak(n, 0);
      FoldPeaks(PeaksOf(values, n, 0))
  }

  /** The values of an auditor's full subtrees, where all are captured. */
  method CollectPeaks(n: nat, captured: Values) returns (peaks: Option<seq<Digest>>)
    ensures peaks.Some? <==> PeakIds(n) <= captured.Keys
    ensures peaks.Some? ==>
            |peaks.value| == |Peaks(n, 0)| && Labelled(Peaks(n, 0), peaks.value) == PeaksOf(captured, n, 0)
  {
    PeaksOfAt(captured, n, 0);
    var roots := GetRoots(n);
    var values: seq<Digest> := [];
    for i := 0 to |roots|
      invariant |values| == i
      invariant forall k :: 0 <= k < i ==> roots[k] in captured && values[k] == captured[roots[k]]
    {
      if roots[i] !in captured {
        assert roots[i] in PeakIds(n);
        return None;
      }
      values := values + [captured[roots[i]]];
    }
    return Some(values);
  }

  /** The values at these nodes, where there are any. */
  method KeepValues(roots: seq<nat>, captured: Values) returns (kept: Values)
    ensures forall x :: x in kept <==> x in roots && x in captured
    ensures forall x :: x in kept ==> kept[x] == captured[x]
  {
    kept := map[];
    for i := 0 to |roots|
      invariant forall x :: x in kept <==> x in roots[..i] && x in captured
      invariant forall x :: x in kept ==> kept[x] == captured[x]
    {
      assert roots[..i + 1] == roots[..i] + [roots[i]];
      if roots[i] in captured {
        kept := kept[roots[i] := captured[roots[i]]];
      }
    }
    assert roots[..|roots|] == roots;
  }

  /** What the client provides at the end of an operation: distinct entries of the tree, the last among them. */
  ghost predicate Provides(positions: seq<nat>, n: nat) {
    && n > 0 && Height(n) <= 62
    && (forall a, b :: 0 <= a < b < |positions| ==> positions[a] != positions[b])
    && (forall a :: 0 <= a < |positions| ==> positions[a] < n)
    && n - 1 in positions
  }

  class KtClient {
    const config: Config
    var state: Option<TrustedState>
    var retainedSubtrees: Values
    var auditorHead: Option<(nat, nat)>

    ghost predicate Valid()
      reads this
    {
      if state.None? then retainedSubtrees == map[]
      else Retains(retainedSubtrees, state.value.treeSize, state.value.rootHash)
    }

    constructor (c: Config)
      ensures Valid() && config == c && state == None && auditorHead == None
    {
      config, state, retainedSubtrees, auditorHead := c, None, map[], None;
    }

    predicate InBounds(ts: nat, now: nat) {
      ts <= now + config.maxAhead && now <= ts + config.maxBehind
    }

    /** `tree_size_for_fth`. */
    method TreeSizeForHead(fth: FullTreeHead, now: nat) returns (r: Result<(nat, Option<nat>, bool)>)
      ensures r.Ok? ==> var (n, ts, updated) := r.value;
                        if updated then fth.headType == UPDATED && fth.treeHead.Some?
                                        && n == fth.treeHead.value.treeSize
                                        && ts == Some(fth.treeHead.value.timestamp)
                                        && (state.Some? ==> n > state.value.treeSize)
                        else fth.headType == SAME && state.Some? && n == state.value.treeSize
                             && ts == Some(state.value.timestamp) && InBounds(state.value.timestamp, now)
      ensures r.Err? <==> (fth.headType == SAME && (state.None? || !InBounds(state.value.timestamp, now)))
                          || (fth.headType == UPDATED && (fth.treeHead.None?
                              || (state.Some? && fth.treeHead.value.treeSize <= state.value.treeSize)))
                          || (fth.headType != SAME && fth.headType != UPDATED)
    {
      if fth.headType == SAME {
        if state.None? {
          return Err;
        }
        if !InBounds(state.value.timestamp, now) {
          return Err;
        }
        return Ok((state.value.treeSize, Some(state.value.timestamp), false));
      }
      if fth.headType == UPDATED {
        if fth.treeHead.None? {
          return Err;
        }
        if state.Some? && fth.treeHead.value.treeSize <= state.value.treeSize {
          return Err;
        }
        return Ok((fth.treeHead.value.treeSize, Some(fth.treeHead.value.timestamp), true));
      }
      return Err;
    }

    /** `verify_tree_head_signature`: any matching signature suffices. */
    method VerifyTreeHeadSignature(th: TreeHead, n: nat, root: Digest) returns (ok: bool)
      ensures ok <==> th.treeSize == n && (n, root) in th.signatures
    {
      if th.treeSize != n || |th.signatures| == 0 {
        return false;
      }
      for i := 0 to |th.signatures|
        invariant (n, root) !in th.signatures[..i]
      {
        assert th.signatures[..i + 1] == th.signatures[..i] + [th.signatures[i]];
        if th.signatures[i] == (n, root) {
          return true;
        }
      }
      assert th.signatures[..|th.signatures|] == th.signatures;
      return false;
    }

    /** The auditor's root: the candidate itself, or the fold of its full subtrees among the captured values. */
    method AuditorRoot(size: nat, n: nat, root: Digest, captured: Values) returns (r: Result<Digest>)
      ensures r == if size == n then Ok(root)
                   else if !(PeakIds(size) <= captured.Keys) then Err
                   else Ok(RootAt(size, captured))
    {
      if size == n {
        return Ok(root);
      }
      var peaks := CollectPeaks(size, captured);
      if peaks.None? {
        return Err;
      }
      var acc := LogAccumulator.FromPeaks(size, peaks.value);
      var folded := acc.value.CalculateRoot();
      return Ok(folded);
    }

    /** `verify_auditor_tree_head`. */
    method VerifyAuditorTreeHead(fth: FullTreeHead, th: TreeHead, n: nat, root: Digest, captured: Values)
      returns (ok: bool)
      modifies `auditorHead
      ensures ok <==> old(AuditorPasses(fth, th, n, root, captured))
      ensures !ok ==> auditorHead == old(auditorHead)
      ensures ok ==> auditorHead == Some((fth.auditorTreeHead.value.treeSize, fth.auditorTreeHead.value.timestamp))
    {
      if fth.auditorTreeHead.None? {
        return false;
      }
      var ath := fth.auditorTreeHead.value;
      if auditorHead.Some? && auditorHead.value.0 < config.auditorStartPos {
        return false;
      }
      if ath.timestamp > th.timestamp || th.timestamp - ath.timestamp > config.maxAuditorLag {
        return false;
      }
      if ath.treeSize > th.treeSize {
        return false;
      }
      var auditorRoot := AuditorRoot(ath.treeSize, n, root, captured);
      if auditorRoot.Err? {
        return false;
      }
      if ath.signature != (ath.treeSize, ath.timestamp, auditorRoot.value) {
        return false;
      }
      auditorHead := Some((ath.treeSize, ath.timestamp));
      return true;
    }

    /** An auditor's head that is recent enough and signs the root of its own size of the same log. */
    ghost predicate AuditorAccepted(ath: AuditorTreeHead, th: TreeHead, n: nat, root: Digest, captured: Values) {
      && ath.timestamp <= th.timestamp <= ath.timestamp + config.maxAuditorLag && ath.treeSize <= th.treeSize
      && ath.signature.0 == ath.treeSize && ath.signature.1 == ath.timestamp
      && (if ath.treeSize == n then ath.signature.2 == root
          else PeakIds(ath.treeSize) <= captured.Keys && ath.signature.2 == RootAt(ath.treeSize, captured))
    }

    /** The response has such a head, and no auditor verified before was behind the one configured. */
    ghost predicate AuditorPasses(fth: FullTreeHead, th: TreeHead, n: nat, root: Digest, captured: Values)
      reads `auditorHead
    {
      && fth.auditorTreeHead.Some? && (auditorHead.Some? ==> config.auditorStartPos <= auditorHead.value.0)
      && AuditorAccepted(fth.auditorTreeHead.value, th, n, root, captured)
    }

    /** The nodes to capture: the full subtrees of the tree, those asked for, and those of an older auditor's head. */
    ghost function WantedNodes(n: nat, extra: set<nat>, fth: FullTreeHead): (wanted: set<nat>) {
      PeakIds(n) + extra +
      if config.auditing && fth.auditorTreeHead.Some? && 0 < fth.auditorTreeHead.value.treeSize < n
      then PeakIds(fth.auditorTreeHead.value.treeSize) else {}
    }

    method Wanted(n: nat, extra: set<nat>, fth: FullTreeHead) returns (wanted: set<nat>)
      ensures wanted == WantedNodes(n, extra, fth)
    {
      var roots := GetRoots(n);
      wanted := (set i | 0 <= i < |roots| :: roots[i]) + extra;
      if config.auditing && fth.auditorTreeHead.Some? {
        var size := fth.auditorTreeHead.value.treeSize;
        if 0 < size < n {
          var more := GetRoots(size);
          wanted := wanted + set i | 0 <= i < |more| :: more[i];
        }
      }
    }

    /** The root reconstructed from what an operation provides, with the retained values. */
    ghost predicate Reconstructed(root: Digest, positions: seq<nat>, hashes: seq<Digest>, n: nat, proof: seq<Digest>,
                                  retained: Values) {
      |positions| == |hashes| && exists wanted ::
        var r := CalculatedRoot(Query(n, Pairs(positions, hashes, |positions|), retained, wanted), proof);
        r.Ok? && r.value.0 == root
    }

    /** The root that the proof of a head gives, with the values captured. */
    ghost function HeadOutcome(fth: FullTreeHead, n: nat, positions: seq<nat>, hashes: seq<Digest>, proof: seq<Digest>,
                               extra: set<nat>): (r: Result<(Digest, Values)>)
      reads `retainedSubtrees
    {
      if |positions| != |hashes| then Err
      else
        CalculatedRoot(Query(n, Pairs(positions, hashes, |positions|), retainedSubtrees, WantedNodes(n, extra, fth)),
                       proof)
    }

    /** The head is one that the client may trust with this root and these captured values. */
    ghost predicate HeadFits(fth: FullTreeHead, n: nat, updated: bool, root: Digest, captured: Values)
      reads `state, `auditorHead
    {
      if updated then
        && fth.treeHead.Some? && fth.treeHead.value.treeSize == n && (n, root) in fth.treeHead.value.signatures
        && (config.auditing ==> AuditorPasses(fth, fth.treeHead.value, n, root, captured))
      else state.Some? && root == state.value.rootHash
    }

    ghost predicate Trusts(n: nat, root: Digest)
      reads `state
    {
      state.Some? && state.value.treeSize == n && state.value.rootHash == root
    }

    /** The head's timestamp is kept, and of the captured values those that are retained. */
    ghost predicate Committed(ts: Option<nat>, captured: Values)
      reads `state, `retainedSubtrees
    {
      && state.Some? && state.value.timestamp == (if ts.Some? then ts.value else 0)
      && forall x :: x in retainedSubtrees ==> x in captured && retainedSubtrees[x] == captured[x]
    }

    /** The auditor's head remembered after an updated head. */
    ghost function NextAuditor(fth: FullTreeHead, before: Option<(nat, nat)>): (head: Option<(nat, nat)>) {
      if config.auditing && fth.auditorTreeHead.Some?
      then Some((fth.auditorTreeHead.value.treeSize, fth.auditorTreeHead.value.timestamp)) else before
    }

    /** The signatures of an updated head, or the trusted root of a same one. */
    method CheckHead(fth: FullTreeHead, n: nat, updated: bool, root: Digest, captured: Values) returns (ok: bool)
      modifies `auditorHead
      ensures ok <==> old(HeadFits(fth, n, updated, root, captured))
      ensures !ok || !updated ==> auditorHead == old(auditorHead)
      ensures ok && updated ==> auditorHead == NextAuditor(fth, old(auditorHead))
    {
      if !updated {
        return state.Some? && root == state.value.rootHash;
      }
      if fth.treeHead.None? {
        return false;
      }
      var signed := VerifyTreeHeadSignature(fth.treeHead.value, n, root);
      if !signed {
        return false;
      }
      ok := true;
      if config.auditing {
        ok := VerifyAuditorTreeHead(fth, fth.treeHead.value, n, root, captured);
      }
    }

    /** The new trusted state, with the full subtrees among the captured values. */
    method Commit(n: nat, root: Digest, ts: Option<nat>, captured: Values, ghost q: Query, ghost proof: seq<Digest>)
      requires q.n == n > 0 && n - 1 in q.provided && PeakIds(n) <= q.wanted
      requires CalculatedRoot(q, proof) == Ok((root, captured))
      modifies `state, `retainedSubtrees
      ensures Valid() && Trusts(n, root) && Committed(ts, captured)
    {
      var roots := GetRoots(n);
      var kept := KeepValues(roots, captured);
      KeptPeaks(q, proof, kept);
      state := Some(TrustedState(n, root, if ts.Some? then ts.value else 0));
      retainedSubtrees := kept;
    }

    /**
     * `verify_head_and_commit`: accepted exactly when the root that the proof gives is one that the head may be trusted
     * with. An updated head is then committed; a same head changes nothing.
     */
    method VerifyHeadAndCommit(fth: FullTreeHead, n: nat, ts: Option<nat>, updated: bool, positions: seq<nat>,
                               hashes: seq<Digest>, proof: seq<Digest>, extra: set<nat>)
      returns (r: Result<Values>)
      requires Valid() && Provides(positions, n)
      requires updated || (state.Some? && n == state.value.treeSize)
      modifies this
      ensures Valid()
      ensures var outcome := old(HeadOutcome(fth, n, positions, hashes, proof, extra));
              && (r.Ok? <==> outcome.Ok? && old(HeadFits(fth, n, updated, outcome.value.0, outcome.value.1)))
              && (r.Ok? ==> r.value == outcome.value.1 && Trusts(n, outcome.value.0))
              && (r.Ok? && updated ==> Committed(ts, outcome.value.1))
      ensures r.Err? || !updated ==>
              state == old(state) && retainedSubtrees == old(retainedSubtrees) && auditorHead == old(auditorHead)
      ensures r.Ok? && updated ==> auditorHead == NextAuditor(fth, old(auditorHead))
    {
      var wanted := Wanted(n, extra, fth);
      var calculated := CalculateRootCapturing(positions, hashes, n, proof, retainedSubtrees, wanted);
      if calculated.Err? {
        return Err;
      }
      var root, captured := calculated.value.0, calculated.value.1;
      var fits := CheckHead(fth, n, updated, root, captured);
      if !fits {
        return Err;
      }
      if updated {
        PairsAt(positions, hashes, |positions|);
        Commit(n, root, ts, captured, Query(n, Pairs(positions, hashes, |positions|), retainedSubtrees, wanted), proof);
      }
      return Ok(captured);
    }
  }
}
