# A model of RuKT's proofs

RuKT is a Key Transparency log (draft-ietf-keytrans-protocol-05). A server keeps a persistent prefix tree and a log
tree and sends proofs about both; clients and auditors replay the server's walks and rebuild the same roots. These
modules model both halves and prove that they fit together: what an honest server sends is accepted, what is accepted
is true, and the state that clients, auditors and server keep stays right over every run.

The modules follow the program:

| part | modules |
|---|---|
| prefix tree: specification, entries, server, client | Digests, SparseTree, PrefixProofs, PrefixEntry, PrefixTree, PrefixSearch, PrefixVerifier |
| batch transition of the prefix tree | PartialTree, Transition, TransitionAssembly, TransitionExact, TransitionHonest, TransitionCondition, TransitionDeclared |
| bulk build from partitions | BulkPartitions, BulkMerge, BulkLaws, BulkBuild, BulkOrphans, Bulk |
| log tree: ids, values, accumulator, chunk store, proofs | LogMath, LogTree, Accumulator, LogStore, StoredLog, LogProofs, EarlierRoots, LogServer, LogLaws, LogBoundaries, LogExtension |
| trusted state and auditor | ClientState, ClientOperation, HonestHeads, AuditedHeads, Auditor, AuditorDeclared, AuditorHeads |
| verified searches, from the response to the history | FixedReplay, FixedLaws, GreatestReplay, ClientSearch, SearchedVersions, ProofLengths |
| searches from end to end | SearchSessions, HonestSearches, HonestOperations, GreatestRoundTrip, FixedRoundTrip |
| implicit binary search tree and distinguished entries | Ibst, DistinguishedEntries |
| combined proof | CombinedProof, ProofReader |
| binary ladders | BinaryLadder, LadderDecode, LadderProofs, LadderServer |
| walks | FixedSearch, GreatestSearch, OwnerWalk, OwnerReplay, OwnerLaws, OwnerMonitor |
| updates | Updates, UpdateRuns, LabelHistory, VersionMaps |

Conventions of the model:

- A digest is a free datatype with one constructor for each kind of hashed input, so two digests are equal only when
  their inputs are. A signature is what it signs. Indices are arbitrary; where it matters, a lemma requires that no
  version of the label at hand shares its index with an update of another label or version.
- Objects whose methods update fields are classes (the prefix tree with its node cache, the lazily hashed entry, the
  partial tree, the chunk store, the accumulator, the client, the auditor, the session, the reader, the update state).
  Their loops are proved against functions, and the laws are lemmas about those functions.
- A node of the log tree is a level and an index; `LogMath` proves that the bit arithmetic on 64-bit ids is arithmetic
  on these coordinates.
- "Whatever the proof" in a comment means that the lemma assumes nothing about where the proof comes from.

## Model

| member | source | states |
|---|---|---|
| `SparseTree.RootBinding` | src/tree/prefix/hasher.rs:11-26 | Two maps with the same sparse Merkle root are the same map: a prefix-tree root commits to the presence, absence and commitment of every key. |
| `SparseTree.NodeHashBinding` | src/tree/prefix/hasher.rs:11-26 | The same below any node: equal node values mean the two maps agree on every key below it. |
| `PrefixEntry.CachedLogEntry.RollupCached` | src/tree/prefix/entry.rs:41-86 | The lazy hash cache never changes a rollup: whatever is cached before the call, the result is the value computed from scratch, and the cache stays right. |
| `PrefixEntry.CombineCopaths` | src/tree/prefix/entry.rs:89-96 | The combined copath has the first one's siblings where it has them and the second one's below. |
| `PrefixEntry.RollupIsNodeHash` | src/tree/prefix/entry.rs:41-86 | An entry that stands for a subtree of a map rolls up to the sparse Merkle value of that subtree at every level of its path. |
| `PrefixTree.PrefixTree.GetEntry` | src/tree/prefix/read.rs:32-62 | Overlay, cache and store are one tree: an entry is found exactly when one of them has it, and it is that entry wherever it comes from. |
| `PrefixTree.Step` | src/tree/prefix/read.rs:64-128 | A walk along one entry ends at the target, at an empty subtree or at an entry that takes over further down, each with the true copath so far. |
| `PrefixTree.PrefixTree.SearchForProof` | src/tree/prefix/read.rs:167-219 | From the root position of any stored version the search ends without a missing entry, and its answer is an inclusion exactly when that version's map has the key, with the siblings that fold to that version's root. |
| `PrefixTree.PrefixTree.InsertInternal` | src/tree/prefix/write.rs:70-134 | The new entry stands for the map with the pair added, and the value returned is the sparse Merkle root of that map, over any overlay, cache and store. |
| `PrefixTree.PrefixTree.BatchInsert` | src/tree/prefix/write.rs:12-68 | Every returned root is the sparse Merkle root of the map so far; every new position is the root of its own version, every earlier position still is of its own, and no stored entry changes. |
| `PrefixTree.VersionsAt` | src/tree/prefix/write.rs:12-68 | The versions after a batch are the earlier ones, unchanged, and at the i-th new position the map after i + 1 insertions. |
| `PrefixTree.BatchSplit` | src/tree/prefix/write.rs:12-68 | Cutting a batch in two gives the same roots and the same versions at the same positions. |
| `PrefixTree.InsertedKeys` | src/tree/prefix/write.rs:12-68 | A key is in the map after n insertions exactly when it was there before or was one of the n. |
| `PrefixSearch.Search` | src/tree/prefix/read.rs:133-165 | In any store where the pointers on the way share the path of the index, the search is `Walk`: the next entry is that of the first difference, and an entry that is missing, a pointer that is not there and a leaf end it. |
| `PrefixSearch.WholeIsRight` | src/tree/prefix/read.rs:133-165 | From the root position of a map the walk meets only such pointers and answers right for every index: its commitment where the map has it, absent where not. |
| `PrefixVerifier.ComputeRootFromResult` | src/client/verifier.rs:327-394 | The client's fold over one result computes `DerivedRoot`, about which the next two rows are: errors on a missing commitment, a result type that does not fit, a depth past 256 or elements that run out. |
| `PrefixVerifier.HonestProofVerifies` | src/tree/prefix/read.rs:167-219 | Completeness: the honest answer about a key folds to the root of the map and uses exactly its own elements, at any offset in a larger proof. |
| `PrefixVerifier.AcceptedProofIsTrue` | src/client/verifier.rs:327-394 | Soundness for arbitrary results: an accepted inclusion that folds to a map's root shows the key with that very commitment, an accepted non-inclusion shows that the map lacks it. |
| `PartialTree.PartialPrefixTree.Insert` | src/client/verifier.rs:487-497 | A node is taken unless another value is recorded for it; a conflict changes nothing. |
| `Transition.VerifyAndTransition` | src/client/verifier.rs:536-663 | The auditor's loop over a batch proof computes `NextRoot`, the function that the following rows are about, with the same rejections. |
| `TransitionExact.AcceptedTransitionAdds` | src/client/verifier.rs:536-663 | For every map and whatever the proof: a transition accepted against the map's root, with every removed key also added, returns the root of the map overridden by the added leaves. |
| `TransitionExact.AcceptedTransitionIsExact` | src/client/verifier.rs:513-534 | Without that premise, an accepted transition is exact if and only if no recorded node of the changed partial tree hangs below an empty one. |
| `TransitionCondition.AcceptedIsExactWhenKept` | src/client/verifier.rs:563-663 | The same, said of the inputs: exact if and only if, for each declared key and each level above its outcome's depth whose sibling covers no declared key, the changed map still has a key below the parent. |
| `TransitionCondition.TwoRemovalsMissTheRoot` | src/client/verifier.rs:646-663 | The condition fails for a batch that honest searches produce: removing both keys of a two-key map that share their first bit is accepted and does not return the root of the empty map. |
| `TransitionDeclared.AcceptedGivesTruth` | src/client/verifier.rs:563-663 | Whatever the proof: in a transition accepted against the root of a map, the map has each declared key with the commitment that the last outcome about it gives, and lacks it if none does. |
| `TransitionHonest.HonestBatchAccepted` | src/client/verifier.rs:536-634 | Completeness: search results about one map for any added and removed keys agree where their paths meet, covering siblings included, and rebuild the old root. |
| `TransitionHonest.BuildAuditProof` | src/tree/write.rs:107-186 | The server's batch lists the results of the added keys in order, then those of the keys it finds present, which it declares removed with their old commitments. |
| `TransitionHonest.BuiltProofAccepted` | src/tree/write.rs:107-186 | What the server builds from its own searches is accepted by the auditor and gives the root of the map overridden by the batch, fresh and overwritten keys alike. |
| `BulkPartitions.PartitionId` | src/bulk.rs:320-326 | The partition of an index is the number whose k bits are the first k bits of the index. |
| `BulkPartitions.SiblingIsRightmost` | src/bulk.rs:330-333 | The partition recorded for a sibling is the last one of the sibling subtree. |
| `BulkPartitions.BuildHashTree` | src/bulk.rs:337-351 | Each row holds the parent hashes of the row below, from the partition hashes up. |
| `BulkMerge.MergeParts` | src/bulk.rs:477-543 | Every entry keeps its index, leaf and lower siblings, and gets the k upper siblings of its own partition. |
| `BulkBuild.BuildParts` | src/bulk.rs:418-476 | Each non-empty partition becomes a tree of its own entries at consecutive positions, and building the later ones changes none of the earlier. |
| `BulkLaws.MergesExactlyWhenEnough` | src/bulk.rs:477-603 | After the merge the root value and the global root pointer stand for the whole map if and only if every odd partition but the last is non-empty and so is one of the last two. |
| `Bulk.ParallelPopulate` | src/bulk.rs:385-603 | On a fresh tree the parallel build ends with the tree and root of sequential insertion if and only if enough partitions are filled; its root value alone is right if and only if every pair of neighbouring partitions is; and then lookups from the new root pointer are right for the whole map if and only if enough are filled. Entries of an even partition before an empty odd one, with a later one filled, are always answered absent. |
| `Bulk.LoneEntryLeavesPair` | src/bulk.rs:385-603 | One entry over four or more partitions meets neither condition, so the returned root is not the map's. |
| `Bulk.SomeOrphan` | src/bulk.rs:385-603 | Where every pair is filled but not enough partitions are, there is such an entry. |
| `BulkOrphans.OrphanIsLost` | src/bulk.rs:333-362 | After the merge, the search for a key of an even partition whose odd neighbour is empty ends with nothing from the root entry of any other partition. |
| `LogMath.IdCoordinates` | src/tree/log_math.rs:7-12 | Ids and (level, index) pairs are in bijection, and the level is the number of trailing one bits. |
| `LogMath.ChildrenAreBelow` | src/tree/log_math.rs:38-109 | The bit arithmetic of the children gives the two nodes below. |
| `LogMath.ParentIsAbove` | src/tree/log_math.rs:152-164 | The bit arithmetic of the parent gives the node above, and 0 from level 62 on. |
| `LogMath.GetRoots` | src/tree/log_math.rs:139-150 | The loop over the binary digits lists the ids of the full subtrees, left to right. |
| `LogTree.FoldIsLogRoot` | src/client/verifier.rs:250-261 | Folding the values of the full subtrees gives the root of the recursively defined tree. |
| `LogTree.AppendIsNext` | src/client/verifier.rs:234-248 | Merging a new leaf into the peaks of a log gives the peaks of the longer log. |
| `Accumulator.LogAccumulator.FromPeaks` | src/client/verifier.rs:216-232 | Peaks are adopted exactly when there are as many as full subtrees, each with its own level. |
| `Accumulator.LogAccumulator.AppendLeaf` | src/client/verifier.rs:234-248 | Pushing a leaf and popping equal levels is the merge of the row about appending. |
| `StoredLog.StoredLog.ResolveNode` | src/tree/log.rs:124-155 | For any node and any tree size, reading from the chunks is `Read`, about which the next rows are: what the chunk has, or else the hash of the children in the tree of that size. |
| `StoredLog.ReadNow` | src/tree/log.rs:124-155 | At the current size that is the value of the recursive definition, and an error exactly outside the log. |
| `StoredLog.StoredLog.GetRoot` | src/tree/log.rs:112-118 | At the current size the chunk store's root is the recursively defined root. |
| `EarlierRoots.EarlierRoot` | src/tree/log.rs:112-155 | For any earlier size the root read is that of the first entries if and only if no chunk subtree over the last of them, not full then, has been filled since. |
| `StoredLog.StoredLog.BatchAppend` | src/tree/log.rs:157-196 | Appending a batch keeps the chunks right for the longer log, whatever was in its chunk cache, and returns its root; so the root does not depend on how entries fall into batches. |
| `LogProofs.CalculateRootCapturing` | src/client/verifier.rs:55-189 | The client's recursion with its proof iterator computes `CalculatedRoot`, the function that the reconstruction rows are about, and rejects a proof not used up. |
| `LogServer.GetBatchProof` | src/tree/log.rs:265-352 | The server sends the true values of exactly the nodes its recursion needs, given visited leaves, the client's peaks and the boundary leaves. |
| `LogLaws.RoundTrip` | src/tree/log.rs:265-352 | For any size, visited leaves and retained size, when every boundary leaf or the other of its pair is visited, the server's list is used up exactly and gives the true root and true captured values. |
| `LogLaws.RoundTripRetains` | src/client/verifier.rs:33-51 | With the last leaf visited too, the client then captures exactly the true values of its full subtrees, ready for the next proof. |
| `LogLaws.NeededComplete` | src/tree/log.rs:321-352 | With the last leaf visited, only complete subtrees are sent. |
| `LogLaws.ReconstructionKeepsPeaks` | src/client/verifier.rs:100-189 | Whatever the proof: a reconstruction with the last leaf provided captures exactly the full subtrees, and they fold to the root it returns. |
| `LogLaws.KeptPeaks` | src/client/core.rs:2382-2385 | So the client that wanted more nodes as well can keep exactly the full subtrees, and they fold to the committed root. |
| `LogLaws.ReconstructionBinds` | src/client/verifier.rs:55-189 | Whatever the proof: if the fold equals the root of a log, every provided leaf, every captured value and every retained value it folded in is that log's own. |
| `LogBoundaries.BoundariesGiveRoot` | src/tree/log.rs:288-300 | With the last leaf visited, the proof that also descends to boundary leaves gives the client the true root if and only if each boundary leaf or the other leaf of its pair is visited. |
| `LogBoundaries.LaggingAuditorFails` | src/tree/walker.rs:177-193 | It fails for an honest server: with four entries, the last one visited and an auditor that has signed two, the client does not get the root. |
| `LogExtension.ExtensionIsProved` | src/client/verifier.rs:130-151 | For a client that holds the full subtrees of a log and any set of provided positions: every accepted reconstruction of a longer log's root has that log extend the client's if and only if no full subtree of the client's has a provided leaf below it while its parent has one. |
| `LogExtension.AnyThirdEntryAccepted` | src/client/verifier.rs:130-151 | It does not hold from two entries to three with the frontier provided: the client's reconstruction takes the root of any three entries, whatever the two it had. |
| `LogExtension.CommitExtends` | src/client/core.rs:2328-2398 | Whatever the proof: when the condition holds, the log whose root an updated head commits to begins with the entries of the one before. |
| `ClientState.KtClient.TreeSizeForHead` | src/client/core.rs:2475-2502 | A head is usable exactly when it is SAME on fresh trusted state or UPDATED to a strictly larger tree. |
| `ClientState.KtClient.VerifyHeadAndCommit` | src/client/core.rs:2328-2398 | Accepted if and only if the proof gives a root that the head may be trusted with: the trusted one for a SAME head, a signed one for an UPDATED head (and one with an accepted auditor's head in auditing mode). Then the client trusts that size and root, with the head's timestamp; its retained subtrees are exactly the full subtrees of its tree, with captured values, and fold to its root. An error or a SAME head changes nothing. |
| `ClientState.KtClient.VerifyAuditorTreeHead` | src/client/core.rs:2401-2470 | An auditor's head is accepted if and only if there is one, the one remembered is not of a size below the configured start, its timestamp is not ahead and not past the lag, its size is not past the log's, and it signs the root at its own size: the candidate itself at the log's size, else the fold of its full subtrees, all captured. It is then remembered; a rejected one changes nothing. |
| `HonestHeads.HonestAuditorAccepted` | src/client/core.rs:2420-2470 | Over a log's root and true captured values, the head of an auditor that follows the log within the lag is accepted if and only if it is level with the log or all its full subtrees are captured. |
| `HonestHeads.AuditorPeaksCaptured` | src/client/core.rs:2346-2363 | Whatever the proof: once the auditor's full subtrees are wanted and its boundary leaf, or the other leaf of its pair, is provided, a reconstruction captures them all. |
| `HonestHeads.HonestHeadFits` | src/client/core.rs:2328-2470 | Completeness: for a client that follows the first entries of a log, the server's proof of the visited entries gives the log's root and true values, and an honest head over the log may be trusted with them, in auditing mode too. |
| `HonestHeads.FollowHead` | src/client/core.rs:2328-2398 | So an honest head is committed, and the client follows the longer log: it trusts its size and root and retains the log's own full subtrees. |
| `AuditedHeads.AuditorSignsEarlierRoot` | src/client/core.rs:2420-2457 | When the reconstructed root is that of a log, an accepted auditor head signs the root of the first entries of the same log, as many as its tree size says. |
| `ClientOperation.VerifyResponse` | src/client/core.rs:1044-1143 | For any response and any walk of requests: accepted if and only if the head is usable, the requests are answered with no part of the proof left over, and the head may be trusted over the entries read. The trusted state stays well formed, grows strictly with an UPDATED head, and is unchanged by a SAME head or an error. |
| `ClientOperation.Conclude` | src/client/core.rs:1476-1498 | Accepted if and only if the queues are used up and the head may be trusted over the entries read. Whatever the proof: every log with the root then trusted has each entry read with the timestamp it was read with, and with the root that its own proof folds to. |
| `Auditor.KtAuditor.ProcessAndSign` | src/client/auditor.rs:68-159 | The auditor stops at the first update that fails, keeps what it accepted before, and signs the state after the last when none fails. |
| `Auditor.AcceptedRunFollows` | src/client/auditor.rs:68-159 | Whatever the operator sends over a whole run: as long as updates that add back the keys they remove are accepted, the auditor holds the root of the map overridden by them and the accumulator of the log of those roots. |
| `AuditorDeclared.AcceptedDeclaresTruly` | src/client/auditor.rs:84-126 | Whatever the operator sends: an update accepted from the root of a map lists no key twice, every removed leaf is in the map with that very commitment, and an added key that is not removed is in the map if and only if an outcome of the proof names its leaf. |
| `AuditorDeclared.AcceptedRunDeclares` | src/client/auditor.rs:68-159 | The same of every update of an accepted run, about the map that the updates before it have left. |
| `AuditorDeclared.AddedKeysAreNew` | src/client/auditor.rs:100-126 | So the added keys of an accepted update that are not declared removed are new if and only if no outcome names the leaf of one. |
| `AuditorDeclared.OverwrittenUndeclared` | src/client/auditor.rs:100-126 | They need not be: the auditor accepts an update that gives the only key of a map another commitment without declaring it removed. |
| `Auditor.HonestRunAccepted` | src/client/auditor.rs:68-159 | A run of honest updates is accepted to its end, and the auditor is where the operator is after each. |
| `Auditor.MakeUpdate` | src/tree/write.rs:107-186 | The operator's update of a batch: the timestamp, the batch and the proof that honest searches give, for every batch that is not empty and ascends by key. |
| `Auditor.FollowerSignsRoot` | src/client/auditor.rs:127-159 | An auditor that follows a log signs the root of that log at its size. |
| `Auditor.Bootstrap` | src/client/auditor.rs:46-66 | Bootstrapping adopts the operator's peaks exactly when their fold is what the operator's signature covers, and changes nothing otherwise. |
| `Auditor.BootstrapBinds` | src/client/auditor.rs:46-66 | Whatever the response: if the signature it carries is over the log's root at the log's size and it is adopted, the adopted peaks are the log's own, and the auditor follows the log if and only if the adopted prefix root is the root of the map. |
| `Auditor.BootstrapNextUpdate` | src/client/auditor.rs:46-159 | After that, the operator's next honest update is accepted if and only if the adopted prefix root is that of the map and the adopted timestamp is at most the update's; then the auditor follows the log. |
| `Auditor.BootstrapAdoptsAnyPrefixRoot` | src/client/auditor.rs:46-66 | Any other prefix root is adopted with the operator's own peaks and signature; the auditor then does not follow, and every honest update fails. |
| `Auditor.BootstrapFollows` | src/client/auditor.rs:46-66 | The operator's own response is adopted, and the auditor follows the operator's log from there. |
| `Auditor.GenesisFollows` | src/client/auditor.rs:28-41 | A new auditor follows the empty log. |
| `AuditorHeads.AuditorHeads.SetAuditorHead` | src/tree/audit.rs:41-112 | The server stores an auditor's head exactly when it is signed under a known key over what `get_root` gives at its size and does not go back behind the stored one in size or time; otherwise nothing changes. |
| `AuditorHeads.HonestHeadVerifies` | src/tree/audit.rs:48-76 | The head of an auditor that follows the log, at any size, verifies if and only if none of its subtrees has been overwritten. |
| `AuditorHeads.VerifiedSignsRoot` | src/tree/audit.rs:48-76 | And exactly then is a head that verifies one over the log's root at its size. |
| `AuditorHeads.LaggingHeadRejected` | src/tree/audit.rs:48-76 | An auditor that has followed three of four entries is turned away. |
| `Ibst.IbstRightChild` | src/tree/log_math.rs:121-137 | For any node of the tree of n entries, the descent from the full right child ends at the root of the entries after the node, or nowhere when there are none. |
| `Ibst.GetFrontier` | src/tree/log_math.rs:238-259 | Below 2^64 entries the loop lists the whole right spine; its guard of a hundred rounds never ends it. |
| `Ibst.FrontierRises` | src/tree/log_math.rs:238-259 | The frontier rises strictly to the last entry. |
| `Ibst.FrontierEndsPeaks` | src/tree/log_math.rs:139-150 | Each frontier entry is the last entry below one full subtree of the Merkle tree, in order: the two trees over the same entries meet there. |
| `Ibst.IbstDirectPath` | src/tree/log_math.rs:310-339 | The path computed by halving is the reverse of the ancestors met on the way down, for every target and size. |
| `Ibst.FollowTo` | src/tree/log_math.rs:22-44 | Following root, left and right children towards an entry passes exactly those ancestors. |
| `Ibst.PathIsSearch` | src/tree/log_math.rs:22-44 | It is a search tree: each ancestor splits the interval that still holds the target. |
| `Ibst.OwnerInitList` | src/tree/log_math.rs:300-308 | The owner's list is the start entry and its ancestors to the left of it. |
| `Ibst.OwnerInitFalls` | src/tree/log_math.rs:300-308 | That list falls strictly. |
| `DistinguishedEntries.FindDistinguished` | src/tree/credential.rs:145-195 | The recursion finds each distinguished entry once, so that after sorting the list has them all in order. |
| `DistinguishedEntries.AncestorsDistinguished` | src/tree/credential.rs:157-195 | Distinguished entries are closed under ancestors in the search tree. |
| `DistinguishedEntries.DistinguishedIsWide` | src/tree/credential.rs:157-195 | An entry is distinguished if and only if the timestamps around its span, which its id fixes, are at least the monitoring window apart. |
| `DistinguishedEntries.DistinguishedStays` | src/tree/credential.rs:145-195 | An entry once distinguished stays so at every later tree size, although the shape of the tree changes. |
| `DistinguishedEntries.DecideDistinguished` | src/tree/traversal.rs:254-280 | The walk from the root that carries two timestamps and stops early decides membership in the recursion's list, for the entry and for each ancestor, and leaves out no distinguished ancestor. |
| `CombinedProof.TraversalSession.VisitTimestampOnly` | src/tree/walker.rs:69-76 | Exactly the visits inside the log are recorded, each once in the order made. |
| `CombinedProof.TraversalSession.VisitWithProof` | src/tree/walker.rs:80-137 | Likewise with the entry's proof, whose root is then no longer sent. |
| `CombinedProof.TraversalSession.Finalize` | src/tree/walker.rs:150-204 | The queues sent are a function of the visits: first occurrences for timestamps, all proofs in order, and the roots of entries visited without a proof by position. |
| `ProofReader.ProofReader.Timestamp` | src/client/core.rs:2643-2673 | A known entry's timestamp is repeated; otherwise the next of the queue is taken, if it does not fall against the entries around it. |
| `ProofReader.ProofReader.NextProof` | src/client/core.rs:2675-2683 | Each request takes the next proof of the queue, and fails when there is none. |
| `ProofReader.FinishedIsMonotone` | src/client/core.rs:2688-2725 | Whatever the proof: an accepted reading has exactly the entries read, by position, and their timestamps do not fall. |
| `ProofReader.ReplayWalk` | src/client/core.rs:2626-2726 | For any visits, replaying them over the server's own proof gives each entry its own timestamp and each visit its own proof, empties the queues and ends with the log's own leaves. |
| `OwnerWalk.OwnerWalkActions` | src/tree/traversal.rs:423-481 | The server's recursion on node ids issues the requests of the walk over the interval, in order, with a ladder's version taken from the entry itself. |
| `OwnerWalk.OwnerLadders` | src/tree/traversal.rs:423-481 | A ladder is asked for at exactly the distinguished entries right of the start, each once, at strictly rising positions. |
| `OwnerReplay.ReplayOwnerWalk` | src/client/core.rs:1146-1253 | The client's recursion on a mutating reader is the function `Walk` of the reader's state, including every early failure. |
| `OwnerLaws.WalkTraces` | src/client/core.rs:1146-1253 | Whatever the proof: a walk that succeeds over the log's timestamps has made exactly the server's requests in the server's order, and each proof request took the next proof of the queue. |
| `OwnerLaws.HonestWalk` | src/client/core.rs:1146-1253 | In an honest session whose next visits are the walk's, the walk succeeds and ends with the entries' own roots. |
| `OwnerMonitor.MonitoredAsksTheSame` | src/client/core.rs:1044-1143 | Whatever the proof: a successful owner walk asked for the frontier, the last entry again, and the server's requests, took one proof for each, and has roots for exactly the distinguished entries right of the start. |
| `OwnerMonitor.OwnerRoundTrip` | src/tree/traversal.rs:483-530 | The server's session followed by the client's walk: it succeeds, uses the proof up and ends with the log's own entries. |
| `BinaryLadder.BaseBinaryLadder` | src/tree/binary_ladder.rs:4-66 | The two loops, with the cap at the greatest version, list the doubling rungs and then the halving up to n. |
| `BinaryLadder.SearchBinaryLadder` | src/tree/binary_ladder.rs:70-90 | Filtering the base ladder and stopping at the first settling version gives the ladder of the search, without the versions known already. |
| `LadderDecode.DecodeSearchLadder` | src/client/core.rs:2748-2825 | The client's state machine over inclusion bits computes `Decode`, and rejects bits missing or left over. |
| `LadderDecode.DecodeInverse` | src/client/core.rs:2748-2825 | For all targets and greatest versions, decoding the outcomes of the server's ladder gives back its versions. |
| `LadderDecode.RelationIsCompare` | src/client/core.rs:1537-1562 | The relation read off an honest ladder is exactly how the greatest version compares with the target. |
| `LadderDecode.EqualForcesBase` | src/client/core.rs:1537-1562 | For arbitrary outcomes, an Equal relation forces the full base ladder with the outcomes of the target. |
| `LadderDecode.EqualShowsGreatest` | src/client/core.rs:1537-1562 | So it shows the target present and the version after it absent. |
| `LadderDecode.LadderIsPrefix` | src/tree/binary_ladder.rs:70-90 | Every ladder for a target is a prefix of the target's base ladder. |
| `LadderDecode.BaseLength` | src/tree/binary_ladder.rs:4-66 | The base ladder of n has 2 * floor(log2(n + 1)) + 2 versions, and 33 at the greatest version. |
| `LadderProofs.VerifyLadderProof` | src/client/core.rs:1521-1658 | The client's check of one entry, for greatest-version and fixed-version searches, with offsets running over a shared element list and one root demanded of all lookups, computes `CheckedLadder`, about which the next rows are. |
| `LadderProofs.AcceptedLadderIsTrue` | src/client/core.rs:1564-1658 | Whatever the proof: if its common root is that of a map, every lookup is true of the map, and an included one was made with the map's commitment. |
| `LadderProofs.AcceptedStepsAreTrue` | src/client/core.rs:1564-1658 | Whatever the proof: at an accepted last entry whose root is a map's, the wire has a step for every version of the base ladder, with the map's own commitment below the claimed version, none above it, and at it the claimed one or none. |
| `LadderProofs.AcceptedRightmostIsGreatest` | src/client/core.rs:1521-1658 | Whatever the proof: an accepted last entry whose root is a map's shows that the map holds the claimed version with the claimed commitment and lacks the next. |
| `LadderProofs.AcceptedRelationIsTrue` | src/client/core.rs:1521-1658 | Whatever the proof: if its root is that of a map with the versions up to a greatest one, the relation read is how that one compares with the target, and Equal shows the target with the claimed commitment. |
| `LadderServer.GenerateLadderProof` | src/tree/read.rs:143-189 | The server's proof for a list of versions has the honest answers of its searches, one for each version in order, with their elements one after the other. |
| `LadderServer.HonestLadderAccepted` | src/client/core.rs:1521-1658 | Completeness: the server's ladder for an entry passes the client's check with the root of the entry's map and the relation of its greatest version to the target, when the steps sent do not contradict the claim. |
| `FixedSearch.TraverseFixedSearch` | src/tree/traversal.rs:54-194 | The server's loop answers and visits as the search path of the entries' relations says, with one more lookup when no entry settles it. |
| `FixedReplay.VerifySingleLookup` | src/client/core.rs:1662-1709 | The lookup of the target alone computes `SingleLookup`, about which `FixedLaws.LookupIsTrue` is. |
| `FixedReplay.ReplayFixedSearch` | src/client/core.rs:1713-1855 | The client's loop on a mutating reader, each proof the next of the queue, has the result of `FixedAnswer`, and fails besides if and only if a timestamp is refused: that of the last entry, or one of those of the entries inspected, in order. It has then read exactly those timestamps and taken exactly those proofs. |
| `FixedLaws.LookupIsTrue` | src/client/core.rs:1662-1709 | Whatever the proof: a lookup whose root is a map's shows the target held there with the claimed commitment, or not there. |
| `FixedLaws.AcceptedFixedSearch` | src/client/core.rs:1713-1855 | Whatever the proofs: a search accepted with roots that are those of the log's maps has ended at the terminal entry of the search path, and the map there holds the target with the claimed commitment. |
| `FixedLaws.HonestPasses` | src/client/core.rs:1713-1855 | The server's ladders for the entries of the path each pass with the entry's own root and relation. |
| `FixedLaws.PassedFixedSearch` | src/client/core.rs:1713-1855 | Completeness: with such proofs and the server's lookup at the end, the client ends at the terminal of the path with the roots of the entries' maps, one for each entry of the path, taking one proof for each and the lookup's where no entry is equal; it fails exactly when there is no terminal. |
| `FixedSearch.SearchFinds` | src/tree/traversal.rs:54-194 | For greatest versions that do not fall, the search ends at an entry whose greatest version is the target if there is one, else at the leftmost entry above it, else nowhere. |
| `FixedSearch.FixedSearchAgrees` | src/client/core.rs:1713-1855 | Client and server end at the same entry, and both succeed exactly when the version exists. |
| `GreatestSearch.TraverseGreatestSearch` | src/tree/traversal.rs:197-237 | For greatest versions that do not fall along the log, every frontier entry is visited with its own ladder, and the deduplicated steps are exactly the base ladder of the last one in order: with a commitment for every version below the target, none above, and one for the target itself if and only if an entry of the frontier before the last one has the target as its greatest version. |
| `GreatestSearch.HonestEntryPasses` | src/client/core.rs:1537-1562 | Every honest entry passes the client's check with its own relation. |
| `GreatestSearch.AcceptedIsGreatest` | src/client/core.rs:1537-1562 | For arbitrary outcomes, an accepted last entry has looked the claimed version up with success and the next one without. |
| `GreatestReplay.ReplayGreatestSearch` | src/client/core.rs:1426-1451 | The client's loop over the frontier, each proof the next of the queue, computes `GreatestAnswer`, about which the next rows are, and takes one proof for each frontier entry. |
| `GreatestReplay.AcceptedGreatestSearch` | src/client/core.rs:1426-1451 | Whatever the proofs: an accepted search with roots that are those of the log's maps ends at the first frontier entry whose greatest version is the target, and the last entry's greatest version is the target too. |
| `GreatestReplay.HonestFrontierPasses` | src/client/core.rs:1521-1658 | The server's ladders of the frontier, towards the greatest version of the last entry, each pass with the entry's own root and relation, lesser ones before the last entry too. |
| `GreatestReplay.PassedGreatestSearch` | src/client/core.rs:1426-1451 | Completeness: over such proofs the search is accepted, with the roots of the frontier entries' maps, and ends at the first frontier entry whose greatest version is the target. |
| `ClientSearch.VerifySearchResponse` | src/client/core.rs:1353-1515 | For any response: accepted if and only if the head is usable, the search has an answer with no part of the proof left over, and the head may be trusted over the entries read; the result is that answer. The trusted state is kept as by every operation; and if the root trusted afterwards is that of a log of maps with the label's versions, the answer is right for those maps, for a greatest-version and for a fixed-version search. |
| `ProofLengths.LadderUsesAll` | src/client/core.rs:1638-1643 | Whatever the proof: an accepted ladder has one outcome for each version looked up, and exactly their elements. |
| `ProofLengths.LookupUsesAll` | src/client/core.rs:1705-1707 | An accepted lookup of the target alone has one outcome, and exactly its elements. |
| `ProofLengths.TransitionUsesAll` | src/client/verifier.rs:632-634 | An accepted batch transition has one outcome for each leaf, and exactly their elements. |
| `ProofLengths.ReconstructionUsesAll` | src/client/verifier.rs:86-91 | An accepted reconstruction takes exactly as many nodes as are neither below provided leaves nor retained, and the proof has no others. |
| `ProofLengths.SearchUsesAll` | src/client/core.rs:2688-2725 | An accepted response to a search has one timestamp for each entry read, the proofs that the search takes and one prefix root for each entry without a proof, and nothing else. |
| `SearchSessions.ServeGreatestSearch` | src/tree/traversal.rs:197-237 | The server's session for the greatest version: the timestamps of the frontier, then each frontier entry's ladder, finalized, with the complete ladder; an error exactly when the label has no version at the last entry. |
| `SearchSessions.ServeFixedSearch` | src/tree/traversal.rs:54-194 | The server's session for one version: the timestamps of the frontier, the ladders of the search path, and the last lookup where no entry is equal. |
| `HonestSearches.GreatestSession` | src/client/core.rs:1413-1482 | The client reads the session of an honest server for the greatest version to its end: it ends at the first frontier entry whose greatest version is the target, uses the proof up, and has the entries visited as the log has them. |
| `HonestSearches.FixedSession` | src/client/core.rs:1713-1855 | Likewise for one version, with the terminal entry of the search path. |
| `HonestOperations.FollowSearch` | src/client/core.rs:1353-1515 | From the session to the trusted state: a client that follows the first entries of the server's log accepts the response, with an answer that is right for the maps of the log, and then follows the whole log. |
| `GreatestRoundTrip.WireFits` | src/client/core.rs:1385-1400 | The server's complete ladder, indexed by the base ladder as the client does, has a fitting step for every lookup of every frontier entry. |
| `GreatestRoundTrip.FindGreatest` | src/tree/traversal.rs:197-237 | Server and client together: asking for the greatest version succeeds exactly when the label has a version in the log, tells the greatest one with its own commitment and the first frontier entry that has it, and leaves the client following the server's log. |
| `FixedRoundTrip.FindVersion` | src/tree/traversal.rs:54-194 | Server and client together: asking for one version succeeds exactly when the version exists, ends for the client at the server's entry, whose map holds it with the claimed commitment, and leaves the client following the server's log. |
| `Updates.Classify` | src/batcher.rs:105-170 | Phase 1 accepts a request exactly when its greatest version is the label's current one, counting the requests accepted before it in the batch; the updates it makes are exactly the values of the accepted requests, the i-th value as the i-th version given out. |
| `Updates.BatchCarriesOut` | src/batcher.rs:187-205 | Each value of an accepted request is one update with its own version, there are no other updates, and no two of a label make the same version. |
| `Updates.VerdictsByCount` | src/batcher.rs:105-170 | A request is accepted, told to catch up or found in conflict exactly as it knows all, fewer or more versions than the label has when its turn comes. |
| `Updates.AcceptedOnce` | src/batcher.rs:105-170 | Of the requests of a batch for one label at one greatest version at most one is accepted, and later ones build on it. |
| `Updates.SecondCheckAgrees` | src/tree/write.rs:45-71 | The check inside `apply_batch` never rejects what phase 1 assigned. |
| `Updates.UpdatesKeepLinear` | src/tree/write.rs:45-71 | Each label's history stays the versions 0, 1, 2 and so on at strictly rising positions. |
| `UpdateRuns.Tree.ApplyBatch` | src/tree/write.rs:32-292 | The updates that still fit, and only they, enter the histories at consecutive positions and make one log entry; none makes none. |
| `UpdateRuns.Tree.ProcessBatch` | src/batcher.rs:97-319 | From any reachable state: each request is judged by how many versions its label has when its turn comes; every value of an accepted request is stored as the version it was told, everything stored before stays, no other version is made, and no label and greatest version is accepted that any earlier batch accepted. |
| `LabelHistory.GetMaxVersionAt` | src/tree/read.rs:51-63 | The greatest version at a log entry, by filter and maximum. |
| `LabelHistory.GreatestRises` | src/tree/read.rs:51-63 | Greatest versions do not fall from one log entry to the next. |
| `LabelHistory.HistoriesSearchable` | src/tree/read.rs:51-63 | In every reachable state each label's versions satisfy what the search rows require. |
| `LabelHistory.FindLogEntry` | src/tree/write.rs:294-305 | The binary search finds the first log entry that covers a prefix position. |
| `LabelHistory.CatchUpUpdate` | src/tree/write.rs:309-380 | Catch-up succeeds exactly for a client that is behind, and tells a non-empty run without gaps from its first missing version to the greatest one of that log entry, each with the value stored for it. |
| `VersionMaps.RunKeepsLinear` | src/batcher.rs:97-319 | Over any run of batches every history stays linear. |
| `VersionMaps.RunKeepsVersions` | src/batcher.rs:97-319 | No run changes a version once given out or the position it was inserted at. |
| `VersionMaps.RunIsUpdates` | src/batcher.rs:97-319 | How the updates fall into batches does not matter for the histories. |
| `VersionMaps.TreeHoldsUpToMax` | src/tree/write.rs:107-240 | The prefix tree at a position holds a version of a label exactly when it is at most the label's greatest version there. |
| `VersionMaps.SearchOverTrees` | src/tree/traversal.rs:54-194 | So a fixed-version search over the log's own trees ends at the same entry for client and server, and succeeds exactly when the version was created. |
| `SearchedVersions.RunHasEntries` | src/tree/write.rs:107-240 | The maps that any run of updates leaves under the log entries hold the label's versions as the client's search rows require. |
| `SearchedVersions.RightAnswerIsTrue` | src/client/core.rs:1353-1515 | So what an accepted search says of them is the truth: the target exists, the claimed commitment is that of the very update that made it, a claimed greatest version is the label's latest, and a fixed-version search ends where the server's does. |
| `SearchedVersions.RightAnswerWasAsked` | src/client/core.rs:1353-1515 | And it was asked for: some accepted request of the run, for this label, was given the claimed version for a value with the claimed commitment. |

## Findings

What the code does not meet, with the input and the exact condition:

- Removal in a batch (`TransitionCondition.TwoRemovalsMissTheRoot`). `verify_and_transition` accepts removals that are
  not added again, but empty nodes that they leave are still combined with recorded siblings, so the new root is not
  that of the smaller map. `TransitionCondition.AcceptedIsExactWhenKept` gives the exact condition. The server always
  adds removed keys again, and then every accepted transition is exact.
- Under-filled partitions (`Bulk.LoneEntryLeavesPair`). `parallel_bulk_populate` hashes two empty neighbours as a
  parent of two empty values, where the tree has an empty subtree, and a sibling pointer names the last partition of
  the sibling subtree even when that is empty. `Bulk.ParallelPopulate` gives the exact conditions for the root value
  and for the pointers; between the two (`Bulk.SomeOrphan`) the root is right and keys of the map are answered absent.
- Undeclared overwriting (`AuditorDeclared.OverwrittenUndeclared`). `process_and_sign` rejects an added key with an
  inclusion result unless the key is declared removed (src/client/auditor.rs:106-113), so that an existing key is not
  replaced without being declared. An outcome that claims an empty node for the key passes when the outcome of another
  key names its leaf, and the key is then overwritten undeclared. `AuditorDeclared.AddedKeysAreNew` gives the exact
  condition. The root is that of the overwritten map all the same.
- Target commitment on the wire (`GreatestSearch.TraverseGreatestSearch`). Comments (src/tree/walker.rs:99,
  src/client/core.rs:1402) say that the commitment of the target is left out, because the client computes it. It is left
  out at the last entry only, and sent exactly when an earlier frontier entry has the target as its greatest version;
  the client then compares the two.
- Lagging auditor (`LogBoundaries.LaggingAuditorFails`). The server passes the auditor's size as a boundary and sends
  the nodes that reach the boundary leaf; the client's recursion, which knows only the provided leaves, does not open
  that subtree and rejects the proof. The repository's README promises that a lagging auditor's sub-root is verified.
  `LogBoundaries.BoundariesGiveRoot` gives the exact condition.
- Roots of earlier sizes (`AuditorHeads.LaggingHeadRejected`). `set_auditor_head` accepts heads behind the log and
  checks them against `get_root` of their size, but a chunk keeps one value for a node, over all leaves that it has by
  now. So the server rejects an honest lagging auditor at some sizes. `EarlierRoots.EarlierRoot` gives the exact
  condition for the root, `AuditorHeads.HonestHeadVerifies` for the head.
- Bootstrap (`Auditor.BootstrapAdoptsAnyPrefixRoot`). The prefix root and the timestamp of a bootstrap response are
  adopted as they are; the operator's signature covers the log peaks only. `Auditor.BootstrapBinds` gives the exact
  condition for following the operator's log, `Auditor.BootstrapNextUpdate` that for accepting its next update.
- Retained subtrees (`LogExtension.AnyThirdEntryAccepted`). The repository's README promises (lines 29-32) that each
  response must prove that it extends the last one, so that a divergent log fails. The client's recursion folds a
  retained full subtree in only where no provided leaf is below it and the recursion reaches it; elsewhere the value
  is recomputed or skipped, and nothing compares it. `LogExtension.ExtensionIsProved` gives the exact condition.

## Left out

- SHA-256, HMAC, VRF and signature schemes: digests are free constructors, indices are given, a signature
  is the value signed.
- Storage, serialisation, fsync, caches' eviction and metrics, gRPC, command line, TLS encoding and configuration files.
- Concurrency: a batch is one atomic step; partitions are built in order of partition; `catch_up_update` sees one state.
- Hash values of a length other than 32 bytes, which the code rejects and the model cannot express.
- Node ids at level 62 and above and 64-bit overflow: members about ids assume a log of height at most 62.
- Version numbers past 2^32 - 1 in updates; the ladders do stop at that version as the code does.
- `leaf_counter` fields, `first_update_position`, the siblings that `search` returns, `multi_search` and
  `verify_with_commitment`: they add no walk of their own.
- `consistency_proof`, `copath`, `direct_path` and `full_monitoring_path`: no verifier in the repository reads them.
- AuditorHeads.AuditorHeads.SetAuditorHead: leaves out the consistency proof stored beside a head, for that reason.
- Maximum lifetime and expiry in a fixed-version search; with none configured the model is complete.
- Contact monitoring's map of obligations, `monitoring_binary_ladder`, `verify_distinguished`, credentials, gossip and
  pruning.
- The scan over candidate targets in `verify_owner_ladder`: an entry's ladder is an abstract check of entry and proof.
- The proof check of `verify_update_response`, which the code has not written yet.
- Bulk.ParallelPopulate: states the result for a fresh tree; on a tree that has entries the code ignores them.
- StoredLog.StoredLog.BatchAppend: appends at the current size; no caller passes another start.
- LogProofs.CalculateRootCapturing: assumes distinct provided positions inside the tree, as they come from the keys of
  a map, and a tree of at most 62 levels.
- LogServer.GetBatchProof: takes the stored tree's own size, as the one caller does.
- ClientOperation.VerifyResponse: takes the walk's requests as a parameter; the walks themselves are the other rows'.
- HonestHeads.FollowHead: assumes that boundary leaves are provided in pairs; see the lagging auditor under Findings.
- HonestOperations.FollowSearch: likewise.
- GreatestRoundTrip.FindGreatest: likewise; the head is the operator's, built and signed elsewhere.
- FixedRoundTrip.FindVersion: likewise, and assumes that the wire steps fit what the server's ladders look up.
- Auditor.KtAuditor.ProcessAndSign: accepts removed keys that are not added again, as the code does; see Findings.
- Auditor.BootstrapFollows: is about the operator's own response; `Auditor.BootstrapBinds` is about any other.
- CombinedProof.TraversalSession.VisitWithProof: takes the entry's proof as a parameter; `LadderServer` generates it.
- OwnerReplay.ReplayOwnerWalk: takes the check of an entry's ladder as a function of entry and proof, because
  `verify_owner_ladder` scans over candidate targets.
- OwnerLaws.WalkTraces: likewise keeps that check abstract.
- OwnerLaws.HonestWalk: likewise, and assumes that honest proofs pass it.
- OwnerMonitor.MonitoredAsksTheSame: leaves out the entries of the contact map and the count of wire steps.
- OwnerMonitor.OwnerRoundTrip: leaves out the entries of the contact map and the wire ladder.
- FixedSearch.TraverseFixedSearch: has no maximum lifetime, and so no expired entries.
- FixedReplay.ReplayFixedSearch: has no maximum lifetime, and takes wire steps and indices as functions of the version
  instead of filling the maps that cache them.
- ClientSearch.VerifySearchResponse: takes wire steps and indices as functions of the version, and leaves out their
  count and what is stored for monitoring afterwards. For a greatest version `GreatestRoundTrip.WireFits` derives them.
- GreatestSearch.TraverseGreatestSearch: takes each entry's ladder as a function of its greatest version; the prefix
  tree's answers are the rows' about `LadderServer`.
- LabelHistory.CatchUpUpdate: leaves out openings, errors of pruned versions and the combined proof.
