/**
 * Assembling a batch proof whose every element is true, for any notion of a path's true value:
 * nothing conflicts, everything recorded is true, and every sibling is recorded or spans a batch key.
 */
module TransitionAssembly {
  import opened Digests
  import opened SparseTree
  import opened PrefixProofs
  import opened PartialTree
  import opened Transition

  type Truth = Path -> Digest

  ghost predicate Spanned(batch: set<Index>, p: Path) {
    exists key :: key in batch && Above(p, key)
  }

  /** Every recorded node is listed and has its true value. */
  ghost predicate Faithful(nodes: Nodes, truth: Truth, listed: set<Path>) {
    forall p :: p in nodes ==> p in listed && nodes[p] == truth(p)
  }

  /** A covering element is a true value on some batch key's path. */
  ghost predicate FaithfulCovering(covering: seq<(Path, Digest)>, truth: Truth, batch: set<Index>) {
    forall i :: 0 <= i < |covering| ==> FaithfulCover(covering[i], truth, batch)
  }

  ghost predicate FaithfulCover(c: (Path, Digest), truth: Truth, batch: set<Index>) {
    c.1 == truth(c.0) && Spanned(batch, c.0)
  }

  /** The siblings of the first `n` levels of a path are recorded, unless they span a batch key. */
  ghost predicate SiblingsRecorded(nodes: Nodes, key: Index, n: nat, batch: set<Index>) {
    n <= INDEX_BITS && forall k :: 0 <= k < n ==> SiblingPath(key, k) in nodes || Spanned(batch, SiblingPath(key, k))
  }

  /** `elements` are listed true siblings of the path of `key`. */
  ghost predicate TrueSiblings(key: Index, elements: seq<Digest>, truth: Truth, listed: set<Path>) {
    && |elements| <= INDEX_BITS
    && forall k :: 0 <= k < |elements| ==> SiblingPath(key, k) in listed && elements[k] == truth(SiblingPath(key, k))
  }

  /** The outcome ends at a true leaf of the old tree, or at none. */
  ghost predicate TrueTerminal(item: Leaf, result: SearchResult, isRemoved: bool, removedKeys: set<Index>, truth: Truth,
                               listed: set<Path>) {
    match result.resultType
    case 1 => if isRemoved then item.vrfOutput in listed && truth(item.vrfOutput) == LeafHash(item)
              else item.vrfOutput in removedKeys
    case 2 => !isRemoved && result.leaf.Some? && TrueOther(item, result.leaf.value, truth, listed)
    case _ => result.resultType == 3 && !isRemoved
  }

  ghost predicate TrueOther(item: Leaf, leaf: Leaf, truth: Truth, listed: set<Path>) {
    leaf.vrfOutput != item.vrfOutput && leaf.vrfOutput in listed && truth(leaf.vrfOutput) == LeafHash(leaf)
  }

  ghost predicate Grows(nodes: Nodes, nodes': Nodes) {
    forall p :: p in nodes ==> p in nodes'
  }

  lemma RecordedGrows(nodes: Nodes, nodes': Nodes, key: Index, n: nat, batch: set<Index>)
    requires SiblingsRecorded(nodes, key, n, batch) && Grows(nodes, nodes')
    ensures SiblingsRecorded(nodes', key, n, batch)
  {}

  lemma AddCover(covering: seq<(Path, Digest)>, truth: Truth, batch: set<Index>, p: Path, v: Digest)
    requires FaithfulCovering(covering, truth, batch) && FaithfulCover((p, v), truth, batch)
    ensures FaithfulCovering(covering + [(p, v)], truth, batch)
  {}

  /** Adding true siblings never conflicts and records only true nodes. */
  lemma {:induction false} AddTrueSiblings(
      a: Assembly, key: Index, elements: seq<Digest>, truth: Truth, listed: set<Path>, batch: set<Index>, n: nat)
    requires n <= |elements| && TrueSiblings(key, elements, truth, listed)
    requires Faithful(a.nodes, truth, listed) && FaithfulCovering(a.covering, truth, batch)
    ensures var r := AddSiblings(a, key, elements, batch, n);
            && r.Ok? && r.value.offset == a.offset
            && Faithful(r.value.nodes, truth, listed) && FaithfulCovering(r.value.covering, truth, batch)
            && Grows(a.nodes, r.value.nodes)
            && SiblingsRecorded(r.value.nodes, key, n, batch)
  {
    if n > 0 {
      AddTrueSiblings(a, key, elements, truth, listed, batch, n - 1);
      var b := AddSiblings(a, key, elements, batch, n - 1).value;
      if CoversBatchKey(batch, key, SiblingPath(key, n - 1)) {
        AddCover(b.covering, truth, batch, SiblingPath(key, n - 1), elements[n - 1]);
        CoverRecorded(b.nodes, key, n, batch);
      } else {
        AddSibling(b.nodes, key, n, elements[n - 1], truth, listed, batch);
      }
    }
  }

  lemma CoverRecorded(nodes: Nodes, key: Index, n: nat, batch: set<Index>)
    requires 0 < n <= INDEX_BITS && SiblingsRecorded(nodes, key, n - 1, batch)
    requires CoversBatchKey(batch, key, SiblingPath(key, n - 1))
    ensures SiblingsRecorded(nodes, key, n, batch)
  {}

  lemma AddSibling(nodes: Nodes, key: Index, n: nat, v: Digest, truth: Truth, listed: set<Path>, batch: set<Index>)
    requires 0 < n <= INDEX_BITS && Faithful(nodes, truth, listed) && SiblingsRecorded(nodes, key, n - 1, batch)
    requires SiblingPath(key, n - 1) in listed && v == truth(SiblingPath(key, n - 1))
    ensures var p := SiblingPath(key, n - 1);
            && (p in nodes ==> nodes[p] == v)
            && Faithful(nodes[p := v], truth, listed) && Grows(nodes, nodes[p := v])
            && SiblingsRecorded(nodes[p := v], key, n, batch)
  {}

  lemma AddTrueTerminal(nodes: Nodes, item: Leaf, result: SearchResult, isRemoved: bool, removedKeys: set<Index>,
                        truth: Truth, listed: set<Path>)
    requires Faithful(nodes, truth, listed) && TrueTerminal(item, result, isRemoved, removedKeys, truth, listed)
    ensures var r := AddTerminal(nodes, item, result, isRemoved, removedKeys);
            && r.Ok? && Faithful(r.value, truth, listed) && Grows(nodes, r.value)
            && (isRemoved ==> item.vrfOutput in r.value)
  {}

  /** What absorbing one true outcome adds. */
  ghost predicate Absorbed(a: Assembly, b: Assembly, item: Leaf, n: nat, truth: Truth, listed: set<Path>,
                           batch: set<Index>, isRemoved: bool) {
    && b.offset == a.offset + n
    && Faithful(b.nodes, truth, listed) && FaithfulCovering(b.covering, truth, batch)
    && Grows(a.nodes, b.nodes)
    && SiblingsRecorded(b.nodes, item.vrfOutput, n, batch)
    && (isRemoved ==> item.vrfOutput in b.nodes)
  }

  lemma AbsorbTrueOutcome(a: Assembly, item: Leaf, result: SearchResult, es: seq<Digest>, isRemoved: bool,
                          removedKeys: set<Index>, batch: set<Index>, elements: seq<Digest>, truth: Truth,
                          listed: set<Path>)
    requires Faithful(a.nodes, truth, listed) && FaithfulCovering(a.covering, truth, batch)
    requires TrueTerminal(item, result, isRemoved, removedKeys, truth, listed)
    requires TrueSiblings(item.vrfOutput, es, truth, listed)
    requires result.depth == |es| && a.offset + |es| <= |elements| && elements[a.offset..a.offset + |es|] == es
    ensures var r := Absorb(a, item, result, isRemoved, removedKeys, batch, elements);
            r.Ok? && Absorbed(a, r.value, item, |es|, truth, listed, batch, isRemoved)
  {
    AddTrueTerminal(a.nodes, item, result, isRemoved, removedKeys, truth, listed);
    var nodes := AddTerminal(a.nodes, item, result, isRemoved, removedKeys).value;
    AddTrueSiblings(Assembly(nodes, a.covering, a.offset + |es|), item.vrfOutput, es, truth, listed, batch, |es|);
  }

  ghost predicate AllRecorded(nodes: Nodes, items: seq<Leaf>, answers: seq<ProofResult>, batch: set<Index>, n: nat)
    requires n <= |items| == |answers|
  {
    forall j :: 0 <= j < n ==> SiblingsRecorded(nodes, items[j].vrfOutput, |answers[j].elements|, batch)
  }

  ghost predicate LeavesRecorded(nodes: Nodes, items: seq<Leaf>, from: nat, n: nat)
    requires n <= |items|
  {
    forall j :: from <= j < n ==> items[j].vrfOutput in nodes
  }

  /** The elements of the first `n` answers, one after the other. */
  function Elements(answers: seq<ProofResult>, n: nat): (es: seq<Digest>)
    requires n <= |answers|
    decreases n
  {
    if n == 0 then [] else Elements(answers, n - 1) + answers[n - 1].elements
  }

  lemma {:induction false} ElementsPrefix(answers: seq<ProofResult>, n: nat, n': nat)
    requires n <= n' <= |answers|
    ensures Elements(answers, n) <= Elements(answers, n')
    decreases n'
  {
    if n < n' { ElementsPrefix(answers, n, n' - 1); }
  }

  lemma ElementsSlice(answers: seq<ProofResult>, n: nat)
    requires n < |answers|
    ensures var all, from := Elements(answers, |answers|), |Elements(answers, n)|;
            && from + |answers[n].elements| == |Elements(answers, n + 1)| <= |all|
            && all[from..from + |answers[n].elements|] == answers[n].elements
  {
    ElementsPrefix(answers, n + 1, |answers|);
    assert Elements(answers, n + 1) == Elements(answers, n) + answers[n].elements;
  }

  /** A batch proof made of true outcomes for all items, the first `|added|` of them additions. */
  ghost predicate TrueBatch(added: seq<Leaf>, removed: seq<Leaf>, answers: seq<ProofResult>, proof: PrefixProof,
                            truth: Truth, listed: set<Path>) {
    && |proof.results| == |answers| == |added| + |removed|
    && proof.elements == Elements(answers, |answers|)
    && forall j :: 0 <= j < |answers| ==> TrueItem(added, removed, answers[j], proof.results[j], j, truth, listed)
  }

  ghost predicate TrueItem(added: seq<Leaf>, removed: seq<Leaf>, answer: ProofResult, result: SearchResult, j: nat,
                           truth: Truth, listed: set<Path>)
    requires j < |added| + |removed|
  {
    var item := (added + removed)[j];
    && result == answer.result && result.depth == |answer.elements|
    && TrueTerminal(item, result, j >= |added|, Keys(removed), truth, listed)
    && TrueSiblings(item.vrfOutput, answer.elements, truth, listed)
  }

  /** What has been assembled after the first `n` outcomes of a true batch. */
  ghost predicate SoFar(a: Assembly, items: seq<Leaf>, addedCount: nat, answers: seq<ProofResult>, batch: set<Index>,
                        truth: Truth, listed: set<Path>, n: nat) {
    && n <= |items| == |answers|
    && a.offset == |Elements(answers, n)|
    && Faithful(a.nodes, truth, listed)
    && FaithfulCovering(a.covering, truth, batch)
    && AllRecorded(a.nodes, items, answers, batch, n)
    && LeavesRecorded(a.nodes, items, addedCount, n)
  }

  lemma NextSoFar(a: Assembly, b: Assembly, items: seq<Leaf>, addedCount: nat, answers: seq<ProofResult>,
                  batch: set<Index>, truth: Truth, listed: set<Path>, n: nat)
    requires SoFar(a, items, addedCount, answers, batch, truth, listed, n) && n < |items|
    requires Absorbed(a, b, items[n], |answers[n].elements|, truth, listed, batch, n >= addedCount)
    ensures SoFar(b, items, addedCount, answers, batch, truth, listed, n + 1)
  {
    forall j | 0 <= j < n ensures SiblingsRecorded(b.nodes, items[j].vrfOutput, |answers[j].elements|, batch) {
      RecordedGrows(a.nodes, b.nodes, items[j].vrfOutput, |answers[j].elements|, batch);
    }
  }

  lemma NothingSoFar(items: seq<Leaf>, addedCount: nat, answers: seq<ProofResult>, batch: set<Index>, truth: Truth,
                     listed: set<Path>)
    requires |items| == |answers|
    ensures SoFar(Assembly(map[], [], 0), items, addedCount, answers, batch, truth, listed, 0)
  {}

  lemma {:induction false} AssembleTrueBatch(added: seq<Leaf>, removed: seq<Leaf>, answers: seq<ProofResult>,
                                             proof: PrefixProof, truth: Truth, listed: set<Path>, n: nat)
    requires TrueBatch(added, removed, answers, proof, truth, listed) && n <= |answers|
    ensures AssembledSoFar(added, removed, answers, proof, truth, listed, n)
    decreases n
  {
    if n == 0 {
      AssembleNothing(added, removed, answers, proof, truth, listed, n);
    } else {
      AssembleTrueBatch(added, removed, answers, proof, truth, listed, n - 1);
      AssembleNext(added, removed, answers, proof, truth, listed, n);
    }
  }

  /** The first n outcomes assemble, with what they are to record. */
  ghost predicate AssembledSoFar(added: seq<Leaf>, removed: seq<Leaf>, answers: seq<ProofResult>, proof: PrefixProof,
                                 truth: Truth, listed: set<Path>, n: nat)
    requires n <= |proof.results| == |added| + |removed|
  {
    var r := Assemble(added, removed, proof, n);
    r.Ok? && SoFar(r.value, added + removed, |added|, answers, Keys(added) + Keys(removed), truth, listed, n)
  }

  lemma AssembleNothing(added: seq<Leaf>, removed: seq<Leaf>, answers: seq<ProofResult>, proof: PrefixProof,
                        truth: Truth, listed: set<Path>, n: nat)
    requires TrueBatch(added, removed, answers, proof, truth, listed) && n == 0
    ensures AssembledSoFar(added, removed, answers, proof, truth, listed, n)
  {
    NothingSoFar(added + removed, |added|, answers, Keys(added) + Keys(removed), truth, listed);
  }

  lemma AssembleNext(added: seq<Leaf>, removed: seq<Leaf>, answers: seq<ProofResult>, proof: PrefixProof,
                     truth: Truth, listed: set<Path>, n: nat)
    requires TrueBatch(added, removed, answers, proof, truth, listed) && 0 < n <= |answers|
    requires AssembledSoFar(added, removed, answers, proof, truth, listed, n - 1)
    ensures AssembledSoFar(added, removed, answers, proof, truth, listed, n)
  {
    var a := Assemble(added, removed, proof, n - 1).value;
    AbsorbNext(a, added, removed, answers, proof, truth, listed, n - 1);
  }

  lemma AbsorbNext(a: Assembly, added: seq<Leaf>, removed: seq<Leaf>, answers: seq<ProofResult>, proof: PrefixProof,
                   truth: Truth, listed: set<Path>, n: nat)
    requires TrueBatch(added, removed, answers, proof, truth, listed) && n < |answers|
    requires SoFar(a, added + removed, |added|, answers, Keys(added) + Keys(removed), truth, listed, n)
    ensures var r := Absorb(a, (added + removed)[n], proof.results[n], n >= |added|, Keys(removed),
                            Keys(added) + Keys(removed), proof.elements);
            r.Ok? && SoFar(r.value, added + removed, |added|, answers, Keys(added) + Keys(removed), truth, listed,
                           n + 1)
  {
    assert TrueItem(added, removed, answers[n], proof.results[n], n, truth, listed);
    ElementsSlice(answers, n);
    var items, batch := added + removed, Keys(added) + Keys(removed);
    AbsorbTrueOutcome(a, items[n], proof.results[n], answers[n].elements, n >= |added|, Keys(removed), batch,
                      proof.elements, truth, listed);
    var b := Absorb(a, items[n], proof.results[n], n >= |added|, Keys(removed), batch, proof.elements).value;
    NextSoFar(a, b, items, |added|, answers, batch, truth, listed, n);
  }
}
