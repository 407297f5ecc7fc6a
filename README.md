# Domain Transparency: a verified model of the map server core

Domain Transparency publishes, for every domain name, the certificates that CT
(Certificate Transparency) logs have issued for it. A verifiable map does the publishing. Its parts:

- **Domain tree.** For each normalized domain there is a *domain tree*. It is an append-only dense
  (RFC 6962) Merkle tree of `(log index, certificate index)` entries. It also holds a per-log index
  from certificate index to position in the tree.
- **Source tree.** A dense Merkle tree of the IDs of the CT logs the map draws from.
- **Sparse Merkle tree.** It maps each domain name to the root of that domain's tree.
- **Node store.** The sparse tree's nodes live in a write-once node store. The store remembers which
  nodes were inserted since the last prune. When a root is published, it keeps the new nodes reachable
  from that root and drops the other new nodes.
- **Signed map heads (SMHs).** The map publishes a history of SMHs. Each new SMH must extend the
  previous one: no smaller map, no fewer logs, and no log revision that shrank. A republish of the
  same root changes only the timestamp.
- **Worker.** It feeds the map:
  - it applies each log revision's new certificates to the domain trees;
  - it keeps the per-log revisions and the total map size, wrapping at 2^64;
  - it queues transactions whose log cannot be added yet, and retries them later;
  - it publishes an SMH on its update and MMD ticks.

Smaller pieces are modelled too:
- a truncated hash, used in tests;
- the repeatable string flag of the server command.

Modules:

| file | module | models |
|---|---|---|
| types.dfy | `Types` | bytes, `uint64`, 32-byte hashes, `Option`/`Result`, and every error value; a Go panic is the error value `Panic` |
| merkle_tree.dfy | `DenseMerkle` | `merkleTree`, the wrapper around the in-memory RFC 6962 tree |
| source_tree.dfy | `SourceTrees` | `SourceTree` |
| domain_tree.dfy | `DomainTrees` | `DomainTree`, its TLS entry encoding and its per-log index |
| mem_store.dfy | `MemStore` | `memMapStore`, the write-once in-memory node store |
| map_store.dfy | `MapStore`, `MapStoreFixture` | the node-store `wrapper` (`TraverseNodes`, `markToSave`, `pruneUntil`, `SaveNodesForRoot`), and the package test's seven-node fixture |
| domain_map.dfy | `DomainMaps` | `DomainMap` |
| worker.dfy | `Workers` | `worker` |
| short_hash.dfy | `ShortHash` | `TruncatedHash` |
| flags.dfy | `Flags` | `stringSliceFlags` |

Some of the code each module calls is not modelled. That code is passed in as a parameter:
- the RFC 6962 hashing of the Merkle library: `DenseHasher`;
- `util.NormalizeDomainName`, the signer, the sparse tree's root and proof functions, and the node
  store's verdict on `SaveNodesForRoot`: `Environment`, inside `DomainMap`;
- the clock reading: `now` in `CheckAndPublishSMH` and `OnTick`;
- the SHA-256 digest: `sha256`, a parameter of `NewSHA256`.

The sparse Merkle tree itself is modelled by what it holds. `roots` maps every map root the sparse
tree has produced to the contents it holds under that root: from domain name to domain-tree root.
The node store prunes unpublished roots when a new root is published; `roots` keeps them (see
"## Left out").

## Model

| member | source | states |
|---|---|---|
| Types.Zeros | mapstore/wrapper.go:43 | the placeholder is exactly `n` zero bytes |
| DenseMerkle.MerkleTree.constructor | log-server/dt-structures/merkleTree.go:28-32 | a new tree has no leaves and uses the given RFC 6962 hasher |
| DenseMerkle.MerkleTree.GetRoot | log-server/dt-structures/merkleTree.go:35-45 | succeeds exactly when the size is at most the leaf count, and then returns the root of the first `treeSize` leaves; otherwise the error names both sizes |
| DenseMerkle.MerkleTree.GetRawProof | log-server/dt-structures/merkleTree.go:49-63 | succeeds exactly when `leafIndex < treeSize <= leaf count`, and then returns the audit path in the snapshot of that size; a leaf index out of range is reported before a missing tree size |
| DenseMerkle.MerkleTree.GetAuditProof | log-server/dt-structures/merkleTree.go:67-78 | the audit proof is the hash of each raw path entry, in path order; both errors propagate unchanged |
| DenseMerkle.MerkleTree.AddLeaf | log-server/dt-structures/merkleTree.go:81-85 | the leaf list grows by exactly the new leaf at the end |
| DenseMerkle.SnapshotStable | log-server/dt-structures/merkleTree.go:81-85 | adding leaves leaves every earlier snapshot, and so its root and paths, unchanged |
| DenseMerkle.MerkleTree.GetConsistencyProof | log-server/dt-structures/merkleTree.go:89-101 | the proof is the hash of each entry of the consistency path between the two sizes, in order |
| DenseMerkle.CopyHashes | log-server/dt-structures/merkleTree.go:73-77 | the copying loop fills every slot `i` with the hash of path entry `i` |
| SourceTrees.SourceTree.constructor | log-server/dt-structures/sourceTree.go:21-25 | a new source tree has no log IDs and an empty Merkle tree, and the invariant holds |
| SourceTrees.SourceTree.GetRoot | log-server/dt-structures/merkleTree.go:35-45 | the embedded GetRoot: the root over the first `treeSize` log IDs, or the size error |
| SourceTrees.SourceTree.GetEntries | log-server/dt-structures/sourceTree.go:28-43 | succeeds exactly when `start <= end < size`, and then returns log IDs `start..end` inclusive, in order; a reversed interval and an end past the tree are distinct errors |
| SourceTrees.SourceTree.GetEntryAndProof | log-server/dt-structures/sourceTree.go:46-59 | succeeds exactly when `leafIndex < treeSize <= size`, and then returns the log ID at `leafIndex` with its audit path; a leaf index at or past `treeSize` is the leaf-index error, reported before a `treeSize` past the tree |
| SourceTrees.SourceTree.AddEntry | log-server/dt-structures/sourceTree.go:62-69 | appends the ID to both lists, keeps the Merkle tree in step with the list, and returns the new count |
| MemStore.DroppedKeys | log-server/dt-structures/mapstore/mem.go:73-82 | a key is dropped iff some listed occurrence of it has ShouldSave false |
| MemStore.MemMapStore.constructor | log-server/dt-structures/mapstore/mem.go:17-21 | the in-memory store starts empty |
| MemStore.MemMapStore.Get | log-server/dt-structures/mapstore/mem.go:24-42 | a stored key yields a copy equal to its value; a missing key yields the no-such-key error |
| MemStore.MemMapStore.Set | log-server/dt-structures/mapstore/mem.go:45-58 | write-once: a new key is stored; the same value again succeeds and changes nothing; a different value is refused and changes nothing |
| MemStore.MemMapStore.Delete | log-server/dt-structures/mapstore/mem.go:61-63 | always the delete-not-supported error |
| MemStore.MemMapStore.Size | log-server/dt-structures/mapstore/mem.go:66-70 | the number of stored nodes |
| MemStore.MemMapStore.ProcessKeys | log-server/dt-structures/mapstore/mem.go:73-82 | deletes exactly the keys listed with ShouldSave false, keeps every other node, and never fails |
| MemStore.FreshKeyGrowsSize | dt-structures/mapstore/mem_test.go:51-55 | setting a new key raises the size by one, as the test expects after each set |
| MapStore.Lookup | mapstore/wrapper.go:48-54 | the placeholder reads as the empty node; any other key reads from the base store, and is present exactly when stored there |
| MapStore.LeafOutcome | mapstore/wrapper.go:152-155 | a leaf handler's skip-branch result is ignored; only its other errors stop the walk |
| MapStore.Traverse | mapstore/wrapper.go:107-161 | `TraverseNodes`: no contract of its own; `VisitsAreReachable`, `SuccessfulTraversalIsPreOrder` and `MarkedIffNewReachable` state its behaviour (pre-order visits, the prefix and length checks, skip-branch handling, visits only along child links) |
| MapStore.VisitsAreReachable | mapstore/wrapper.go:107-161 | every node that `TraverseNodes` hands to a handler is reachable from the root through inner-node child links |
| MapStore.SuccessfulTraversalIsPreOrder | mapstore/wrapper.go:100-144 | with handlers that always proceed, a successful traversal visits exactly the depth-first pre-order listing (node, left subtree, right subtree) |
| MapStore.LastIndexSpec | mapstore/wrapper.go:69-70 | the index holds exactly the logged keys, each at a position of the log holding it, with no later position holding it |
| MapStore.LastIndexAppend | mapstore/wrapper.go:69-70 | logging one more key indexes it at the new last position |
| MapStore.IndexOfUnique | mapstore/wrapper.go:168-172 | in a log without repeated keys, the index finds each entry's own position |
| MapStore.Record | mapstore/wrapper.go:65-71 | (corrected) after a successful Set, a key the log already lists is not listed again; a new key is appended unsaved |
| MapStore.RecordAsWritten | mapstore/wrapper.go:69-70 | (as written) a successful Set always appends the key unsaved after the existing log, which it keeps unchanged |
| MapStore.RecordAsWrittenRepeats | mapstore/wrapper.go:57-72 | (as written) re-setting a key the log already lists leaves the log with a repeated key |
| MapStore.RecordKeepsKeysUnique | mapstore/wrapper.go:57-72 | (corrected) Set keeps the log free of repeated keys |
| MapStore.Mark | mapstore/wrapper.go:164-174 | `mark` proceeds exactly for a non-empty, non-placeholder hash that the index lists; every other hash skips the branch |
| MapStore.MarkHandlers | mapstore/wrapper.go:176-183 | `markToSave`'s two handlers: no contract of their own; `MarkedKeysSpec` and `MarkedIffNewReachable` state what the walk with them flags |
| MapStore.MarkedKeys | mapstore/wrapper.go:176-183 | the marking handlers only ever flag indexed (new) keys |
| MapStore.MarkedKeysSpec | mapstore/wrapper.go:176-183 | a key is flagged exactly when one of the traversal's handler calls flags it |
| MapStore.MarkedIffNewReachable | mapstore/wrapper.go:163-183 | a successful marking walk from the root flags a key exactly when it is `NewReachable`: a new node reached from the root through new inner nodes, or the new value hash of a new leaf among them |
| MapStore.CutPoint | mapstore/wrapper.go:191-204 | pruning stops just after the first log entry for the root, or covers the whole log when the root is not listed |
| MapStore.CutAtLastEntry | dt-structures/mapstore/mem_test.go:129-132 | when the root is the last key set, as the test arranges, the whole log is pruned |
| MapStore.UnindexedKeysRemain | mapstore/wrapper.go:192-199 | after unindexing the pruned prefix, only keys that the kept suffix lists stay indexed |
| MapStore.ReindexOverrides | mapstore/wrapper.go:221-224 | reindexing over such a leftover index yields exactly the suffix's own index |
| MapStore.PrunedKeyDroppedIffUnmarked | mapstore/wrapper.go:89-98 | SaveNodesForRoot's promise for the pruned prefix: a key without repeats is deleted iff it was neither saved before nor reached by the marking traversal |
| MapStore.SaveKeepsNewReachable | mapstore/wrapper.go:89-98 | on a log without repeated keys, a successful save deletes, of the pruned entries, exactly those neither saved before nor new-reachable from the root, and nothing logged after the cut |
| MapStore.AsWrittenDuplicateIsDeleted | mapstore/wrapper.go:57-72 | (as written) setting a node twice and then marking it leaves its first, unflagged entry in the log, so pruning deletes the rooted node |
| MapStore.Wrapper.Wrap | mapstore/wrapper.go:35-45 | an empty log and index over the base store; the placeholder is `hashSize` zero bytes |
| MapStore.Wrapper.Get | mapstore/wrapper.go:48-54 | the placeholder reads as empty; other keys come from the base store with its errors |
| MapStore.Wrapper.Set | mapstore/wrapper.go:57-72 | (corrected) refuses the placeholder; a base-store refusal changes nothing; success stores the value and logs the key as new and unsaved unless the log already lists it; the invariant (no repeated key, every logged key stored, the index) is kept |
| MapStore.Wrapper.Delete | mapstore/wrapper.go:75-77 | forwards the base store's delete-not-supported error |
| MapStore.Wrapper.Size | mapstore/wrapper.go:80-82 | the base store's node count |
| MapStore.Wrapper.HashSize | mapstore/wrapper.go:85-87 | the configured hash size |
| MapStore.Wrapper.Placeholder | mapstore/wrapper.go:228-232 | a copy of the placeholder: `hashSize` zero bytes |
| MapStore.Wrapper.MarkEntry | mapstore/wrapper.go:164-174 | `mark` with its side effect: the result of `Mark`, and the log entry of a new node flagged ShouldSave |
| MapStore.Wrapper.ApplyVisit | mapstore/wrapper.go:176-183 | one handler call's flags: an inner node marks itself; a leaf marks itself, and its value hash only when the leaf itself was new |
| MapStore.Wrapper.ApplyMarks | mapstore/wrapper.go:176-183 | the handler calls applied in traversal order flag exactly the positions of the marked keys |
| MapStore.Wrapper.MarkToSave | mapstore/wrapper.go:163-184 | the traversal's error is returned, and the log is flagged at every new node the marking walk reached; the index is unchanged |
| MapStore.Wrapper.UnindexUntil | mapstore/wrapper.go:191-204 | unindexes the entries up to and including the first one for the root, and returns the cut position less one (the position before the end when the root is absent) |
| MapStore.Wrapper.Reindex | mapstore/wrapper.go:221-224 | after reindexing, the index is exactly the log's own index |
| MapStore.Wrapper.PruneUntil | mapstore/wrapper.go:186-226 | the log keeps only the entries after the cut; the base store loses exactly the unsaved keys of the pruned prefix; the invariant is restored |
| MapStore.Wrapper.SaveNodesForRoot | mapstore/wrapper.go:89-98 | a failed marking walk returns its error, keeps the flags and deletes nothing; after a successful walk, a pruned log entry's node is deleted exactly when it was not saved before and is not `NewReachable` from the root; no node logged after the cut and no node outside the log is deleted; the log keeps only the entries after the cut |
| MapStore.NewMem | log-server/dt-structures/mapstore/mem.go:17-21 | a wrapper over a fresh empty store, with an empty log |
| MapStoreFixture.FixtureTraversalOrder | dt-structures/mapstore/mem_test.go:76-115 | from "abcd", the traversal visits abcd, efgh, 1e04, r2er, eeri in that order, with their stored children or leaf data, and succeeds |
| MapStoreFixture.FixtureMarks | mapstore/wrapper.go:164-174 | over the fixture's index, the rooted nodes are new and the leaf values are not |
| MapStoreFixture.FixtureMarkTraversal | dt-structures/mapstore/mem_test.go:134-138 | the marking walk from "abcd" visits the five rooted nodes and succeeds |
| MapStoreFixture.FixtureMarkedKeys | dt-structures/mapstore/mem_test.go:134-138 | the marking walk flags exactly the five rooted nodes |
| MapStoreFixture.FixtureOrphans | dt-structures/mapstore/mem_test.go:140-143 | the orphans are exactly pift and adht |
| MapStoreFixture.FixtureSaveDropsOrphans | dt-structures/mapstore/mem_test.go:117-153 | SaveNodesForRoot("abcd") after the seven sets, root last: the walk succeeds, the whole log is pruned, and a node is deleted exactly when it is an orphan |
| DomainTrees.EncodeEntry | domainTree.go:111-114 | the TLS encoding of an entry is 16 bytes: two big-endian `uint64` values |
| DomainTrees.EntryRoundTrip | domainTree.go:111-114 | decoding the encoding of an entry gives the entry back, so the Merkle leaves determine the entries |
| DomainTrees.DecodeEncodeBE | domainTree.go:111-114 | big-endian decoding inverts encoding for every value that fits |
| DomainTrees.Padded | domainTree.go:103-107 | the per-log index grows to at least `minSize` lists; the old lists are kept and the new ones are empty |
| DomainTrees.DomainTree.GrowLeavesPerLog | domainTree.go:103-107 | the padding loop yields `Padded` and leaves the entries alone |
| DomainTrees.LowerBound | domainTree.go:138 | the first position whose certificate index is at least the target: every earlier one is smaller |
| DomainTrees.SearchCertificate | domainTree.go:138 | the binary search returns a position separating smaller certificate indices from larger ones; on a sorted list it is the lower bound |
| DomainTrees.Resolve | domainTree.go:129-143 | (corrected) a missing entry is an error; success only on a matching certificate, returning its stored tree index |
| DomainTrees.ResolveAsWritten | domainTree.go:136-143 | (as written) panics exactly when the search position is the list's length; at any other position it answers as the corrected `Resolve` |
| DomainTrees.ResolveFindsExactly | domainTree.go:129-131 | on a sorted list, the corrected lookup succeeds iff the certificate is listed for the log |
| DomainTrees.AsWrittenPanicsPastEnd | domainTree.go:136-143 | (as written) when every listed certificate index is smaller than the requested one, the code indexes past the end of the list |
| DomainTrees.AsWrittenPanicsOnEmptyLog | domainTree.go:136-143 | (as written) a concrete case of the same: a fresh tree asked for certificate 7 of log 0 |
| DomainTrees.DomainTree.constructor | domainTree.go:51-54 | a tree with the given name, no entries, and an empty Merkle tree |
| DomainTrees.NewDomainTree | domainTree.go:46-56 | fails exactly when normalization fails; otherwise a fresh empty tree carrying the normalized name |
| DomainTrees.DomainTree.GetRoot | domainTree.go:59-69 | succeeds exactly when the size is at most the number of entries, and then returns that size with the root over the encoded first entries |
| DomainTrees.DomainTree.GetEntries | domainTree.go:72-87 | succeeds exactly when `start <= end < size`, and then returns entries `start..end` inclusive; the two interval errors are distinct |
| DomainTrees.DomainTree.GetEntryAndProof | domainTree.go:90-101 | succeeds exactly when `leafIndex < treeSize <= size`, and then returns the entry with its audit path; a leaf index at or past `treeSize` is the leaf-index error, reported before a `treeSize` past the tree |
| DomainTrees.DomainTree.AddEntry | domainTree.go:110-127 | appends the entry and its encoding, pads the per-log index, records the entry under its log at its position, keeps the index consistent, and returns the new size |
| DomainTrees.DomainTree.EntryToDomainTreeIndex | domainTree.go:132-144 | pads the index like the code; success means the returned position holds exactly that entry; on a sorted list the answer is the corrected `Resolve` |
| DomainMaps.PrecedesTransitive | dt-structures/domainMap.go:139-159 | the extension relation the publish checks enforce is transitive |
| DomainMaps.RevisionErrorNoneIff | dt-structures/domainMap.go:152-159 | the per-log loop finds no error iff every size is kept (republish) or none shrank (new root) |
| DomainMaps.PublishCheckAccepts | dt-structures/domainMap.go:122-159 | all of CheckAndPublishSMH's checks pass iff the update is acceptable, as stated independently of the order of the checks |
| DomainMaps.NextHead | dt-structures/domainMap.go:161-183 | the head to sign carries the new timestamp; a republish is the current head re-timestamped; a new root carries the given root, size and revisions, and reuses the source-tree root when the log count is unchanged; it fails exactly for a new root naming more logs than the source tree holds |
| DomainMaps.PublishOutcome | dt-structures/domainMap.go:122-210 | what `CheckAndPublishSMH` returns: no contract of its own; `PublishCheckAccepts` and `PublishAdvances` state its properties, and `CheckAndPublishSMH` and `OnTick` are specified by it |
| DomainMaps.PublishAdvances | dt-structures/domainMap.go:122-210 | a published SMH is signed, has the requested size and root, and extends the current head; a republish changes only the timestamp; a new root carries the given revisions and its nodes were saved |
| DomainMaps.HistoryExtends | dt-structures/domainMap.go:207-208 | recording an SMH that extends the latest keeps every stored SMH filed under its size and extended by the latest |
| DomainMaps.DomainRootIn | dt-structures/domainMap.go:298-318 | a lookup succeeds iff the name normalizes and the map root is known; an unknown root is the panic; an absent domain reads as the empty tree |
| DomainMaps.HasDomainIn | dt-structures/domainMap.go:213-219 | true exactly when the map under the root holds a value for the normalized domain; false when it reads as the empty tree; the lookup's errors are passed on |
| DomainMaps.ReadAfterUpdate | dt-structures/domainMap.go:253 | after an update, the new root reads the new value for the updated domain and the old root's value for every other domain |
| DomainMaps.Reversed | dt-structures/domainMap.go:356-359 | the side nodes in the opposite order |
| DomainMaps.ReversedTwice | dt-structures/domainMap.go:356-359 | reversing twice gives the side nodes back |
| DomainMaps.DomainMap.constructor | dt-structures/domainMap.go:85-96 | the empty unsigned SMH, an empty sparse tree under the all-zero root, no domain trees, and an empty source tree |
| DomainMaps.DomainMap.GetLatestSMH | dt-structures/domainMap.go:283-287 | the latest SMH is the empty one or is recorded under its own size |
| DomainMaps.DomainMap.GetSMH | dt-structures/domainMap.go:290-294 | found iff an SMH of that size was published; it carries that size and is extended by the latest |
| DomainMaps.DomainMap.CheckRevisions | dt-structures/domainMap.go:152-159 | the loop returns the first offending log's error, or none |
| DomainMaps.DomainMap.CheckUpdate | dt-structures/domainMap.go:123-159 | the checks against the latest SMH, in the code's order, with each check's error |
| DomainMaps.DomainMap.BuildHead | dt-structures/domainMap.go:161-183 | a republish re-timestamps the latest head; a new root gets a fresh head whose source-tree root is recomputed only when the number of logs changed, and that can fail |
| DomainMaps.DomainMap.CheckAndPublishSMH | dt-structures/domainMap.go:122-210 | on any error nothing changes; on success the new SMH becomes the latest and is recorded under its size; the history invariant is kept |
| DomainMaps.DomainMap.UpdateDomainTreeRoot | dt-structures/domainMap.go:223-258 | each error in the code's order; refuses a size that does not exceed the recorded one; success records the tree's root at that size under a new sparse root, which it returns |
| DomainMaps.DomainMap.AddDomainTree | dt-structures/domainMap.go:264-280 | succeeds iff the name is normalized and not yet taken, and then files the tree under its name; otherwise it returns the matching error and changes nothing |
| DomainMaps.DomainMap.GetDomainTree | dt-structures/domainMap.go:322-335 | the tree filed under the normalized name, which carries that name; otherwise the normalization or no-such-domain error |
| DomainMaps.DomainMap.AppendToDomainTree | worker.go:168-171 | appending to one domain tree grows only that tree and keeps the map's invariant |
| DomainMaps.DomainMap.AddSourceLog | worker.go:147 | adding a log to the source tree appends its ID and keeps the map's invariant |
| DomainMaps.DomainMap.EntryToDomainTreeIndex | dt-structures/domainMap.go:373-379 | the domain-lookup errors, or the domain tree's answer: on a sorted per-log list, the corrected `Resolve` at the lower bound; success names a position holding exactly the entry; only the found tree changes, its per-log index padded as `growLeavesPerLog` does; no entries and no source-tree leaves change |
| DomainMaps.DomainMap.GetProofForDomain | dt-structures/domainMap.go:338-365 | succeeds exactly when the name normalizes and the root is known; the sparse proof's side nodes in reverse order, with its non-membership leaf or else the placeholder |
| Workers.SortedAscOrdersAll | worker.go:165 | a list sorted step by step has no element exceeding a later one |
| Workers.Insert | worker.go:165 | inserting into a sorted list gives a sorted list with one more copy of the value |
| Workers.SortAsc | worker.go:165 | sort.Slice with `<`: a sorted permutation of the certificate indices |
| Workers.EntriesFor | worker.go:167-172 | one entry per certificate index of the log, in order |
| Workers.Propagated | worker.go:157-172 | the trees holding entries after propagation are the earlier ones plus exactly the trees the domains with certificates normalize to |
| Workers.PropagatedAppends | worker.go:166-172 | propagation only appends: every tree starts with its earlier entries, and a tree no listed domain reaches keeps them unchanged |
| Workers.RecordedContentsSpec | worker.go:157-178 | after propagation the map holds, for every tree reached, the root over that tree's final entries, and leaves every other domain's value as it was |
| Workers.SumSizesUpdate | worker.go:151-155 | replacing one revision moves the total by the difference of their sizes |
| Workers.SumSizesAppend | worker.go:146 | listing a new log with an empty revision adds its size to the total |
| Workers.ModAdd | worker.go:154 | `uint64` addition: wrapping before or after adding gives the same value |
| Workers.Tried | worker.go:116-123 | trying a transaction never loses a known log: the revision list only grows |
| Workers.PassMaskMeaning | worker.go:131-139 | in one pass over the queue, a transaction stays queued exactly when its log index exceeds the number of logs known when its turn came; that number never falls during the pass |
| Workers.Worker.constructor | worker.go:37-47 | the worker starts from the latest SMH's size, revisions and root, with an empty queue |
| Workers.Worker.GetDomainTree | worker.go:181-199 | the existing tree for the normalized name, or a fresh empty one filed under it; each failure is returned and files nothing; no tree's entries change |
| Workers.Worker.FileNewTree | worker.go:191-198 | a fresh empty tree filed under the normalized name; the other trees and their entries are unchanged; each failure files nothing |
| Workers.Worker.AppendEntries | worker.go:166-172 | one entry per certificate, in order, appended to that tree only; the result is the tree's new size |
| Workers.Worker.AddCertificates | worker.go:161-172 | the domain's tree, found or created, receives its certificates in ascending order; no other tree's entries change; the result is its new size |
| Workers.Worker.RecordRoot | worker.go:173-176 | the tree's full root is recorded under a new map root, which becomes the worker's; the trees are unchanged; on failure the worker's root is cleared and the error wrapped |
| Workers.Worker.PropagateDomain | worker.go:161-176 | one domain: its entries sorted and appended to its tree, no other tree changed, and its tree's new root recorded under a new map root |
| Workers.Worker.PropagateEntry | worker.go:158-176 | a domain with no certificates changes nothing; otherwise its tree gains its sorted entries, every other tree is unchanged, and the map gets a new root whose contents are the old ones with that tree's new root |
| Workers.Worker.PropagateNext | worker.go:157-178 | one iteration of the loop over the domains keeps the trees and the map contents equal to `Propagated` and `RecordedContents` of the domains done so far |
| Workers.Worker.PropagateAll | worker.go:157-178 | unless an error stopped the loop: every domain with certificates has its tree; the trees' entries are `Propagated` over the domains in order; the map root changes exactly when some tree is reached, and then its contents are `RecordedContents` |
| Workers.Worker.Revise | worker.go:144-155 | a new log is listed and added to the source tree; its revision is replaced, and the map size moves by the difference modulo 2^64, so it stays the wrapped total of the revisions |
| Workers.Worker.ProcessTransaction | worker.go:143-179 | a log that cannot be added yet is an error that changes nothing; otherwise the revision bookkeeping above, then propagation with PropagateAll's outcome for the trees and the map contents |
| Workers.Worker.TryProcess | worker.go:116-123 | processes the transaction iff every earlier log has been added; an unprocessed one changes nothing and is no error; a processed one has ProcessTransaction's effect |
| Workers.Worker.ScanOne | worker.go:132-138 | the transaction at `i` is tried: a processed one leaves the queue and the index stays put; one still early is stepped over; the pass state moves one transaction along |
| Workers.Worker.ScanQueue | worker.go:131-139 | after a pass without error, the queue keeps, in arrival order, exactly the transactions `PassMask` marks, and the revisions are those of trying every queued transaction in turn |
| Workers.Worker.AddToQueueAndProcess | worker.go:115-141 | the transaction is tried and, when early, queued at the end; then the pass over the queue: the queue keeps, in order, exactly the transactions whose log was unknown when their turn came, and the revisions are those of trying them in turn |
| Workers.Worker.OnTick | worker.go:80-104 | the update tick publishes only when the map size changed since the latest SMH; the MMD tick always does; neither publishes at map size 0; publishing is CheckAndPublishSMH |
| ShortHash.NewSHA256 | util/shortHash.go:63 | a fresh SHA-256 state: 32-byte digests over 64-byte blocks |
| ShortHash.TruncatedHash.Sum | util/shortHash.go:24-27 | `b` followed by `size` digest bytes, and no change to the state; a negative size panics |
| ShortHash.TruncatedSumIsPrefix | util/shortHash.go:24-27 | the truncated sum is the base hash's full sum cut after `size` digest bytes |
| ShortHash.TruncatedHash.Write | util/shortHash.go:18-20 | the data is added to the base hash's input, and the call never fails |
| ShortHash.TruncatedHash.Reset | util/shortHash.go:30-32 | the base hash is back at its initial state |
| ShortHash.TruncateHash | util/shortHash.go:50-58 | panics iff the size exceeds the base hash's size; otherwise it wraps that base with that size |
| ShortHash.NewTruncatedSHA256 | util/shortHash.go:62-64 | panics iff the size exceeds 32; otherwise the size is as asked, the block size is 64, and the state is fresh |
| Flags.JoinSnoc | log-server/dt-structures/cmd/run-server/flags.go:9-11 | joining one more value puts the separator and then the value at the end |
| Flags.JoinLength | log-server/dt-structures/cmd/run-server/flags.go:9-11 | the joined string is as long as the values plus one separator between each pair |
| Flags.StringSliceFlags.String | log-server/dt-structures/cmd/run-server/flags.go:9-11 | no values print as the empty string; one value prints as itself |
| Flags.StringSliceFlags.Set | log-server/dt-structures/cmd/run-server/flags.go:13-16 | the value is appended after the earlier ones; the printed flag gains `", "` and the value; the call never fails |

## Left out

- DomainMaps.DomainMap.CheckAndPublishSMH: publishing a new root prunes the node store
  (`SaveNodesForRoot`, dt-structures/domainMap.go:198-201), which deletes the nodes of every
  unpublished root produced since the last publish. This pruning is not reflected in `roots`: such
  intermediate roots stay readable in the model, while the code panics on them after the next
  publish (dt-structures/domainMap.go:111-114). The latest root and the published roots stay
  readable in both.
- Concurrency: the mutexes, the worker goroutine and its channel, and the context's cancellation are
  not modelled. Each operation is modelled as one atomic step.
- The run loop's timers and its printed messages are not modelled; only one tick's decision is
  (`OnTick`). This also leaves out the MMD timer's reset on an update tick.
- Hashing, signing and encoding belong to libraries and are parameters:
  - the RFC 6962 roots, audit paths and consistency paths;
  - SHA-256;
  - TLS marshalling and signing of a head;
  - `util.NormalizeDomainName`.
  The model assumes nothing of normalization: it need not be idempotent.
- The sparse Merkle tree library is abstract:
  - its root is a parameter function of the contents;
  - its proofs are a parameter;
  - its node writes to the node store are not modelled;
  - `SaveNodesForRoot`'s verdict inside `CheckAndPublishSMH` is a parameter.
- `DomainTreeRoot` values are stored in the sparse tree as values, not as TLS bytes. So the panics on
  malformed stored data in `GetDomainTreeRoot` cannot arise and are not modelled.
- The check that each source log root hash has 32 bytes (dt-structures/domainMap.go:126-130) cannot
  fail: `RootHash` is a fixed 32-byte array. `LogRevision.rootHash` is therefore a `Hash32`.
- `PublicKey` and `GetSourceTree` are plain accessors. `DomainMap.AddSourceLog` stands for the worker's
  use of the source tree.
- MapStore.Wrapper: Set, MarkToSave, PruneUntil and SaveNodesForRoot run on the corrected log that
  `Record` builds, with no key listed twice (see Findings). The log as the code writes it appears only
  in `RecordAsWritten` and the counterexample `AsWrittenDuplicateIsDeleted`.
- MapStore.NewReachable follows at most `fuel - 1` child links, as the walk it describes does.
- Workers.Worker.AddToQueueAndProcess: the trees and map contents after a pass over the queue are
  stated per processed transaction (TryProcess), not folded over the whole pass.
- MapStore.Traverse: the Go recursion is unbounded. The model bounds its depth with `fuel` and reports
  running out as an error. A real store's tree depth is bounded by the key length.
- MapStore.Wrapper.PruneUntil: the branch that rebuilds the index after `ProcessKeys` fails is not
  modelled. The in-memory store's `ProcessKeys` never fails.
- The "root not found" warning printed by `pruneUntil` is not modelled.
- Aliasing of Go slices is not modelled. Affected:
  - `sort.Slice` sorting the transaction's own slice in place;
  - the worker's `sourceRevisions` sharing the SMH's backing array;
  - `append` in `TruncatedHash.Sum` writing into `b`'s spare capacity.
  All are modelled as values.
- The order in which Go iterates over `NewCertificatesIndices` is unspecified. The transaction
  therefore carries the domains as a sequence, in the order visited.
- Tree sizes and positions are `nat`, not `uint64`. Neither tree can hold 2^64 entries.
- `LogIndex + 1` overflowing `uint64` in `growLeavesPerLog` is not modelled.
- The worker's map size is wrapped at 2^64 explicitly, as Go's `uint64` arithmetic does.
- DomainMaps.DomainMap.AddDomainTree requires the tree to be distinct from every object the map
  already holds. The Go code has no such requirement; the model needs it to reason about the
  separate trees.
- Error messages are modelled as error values carrying the numbers they report. The worker's
  `%w` wrapping is reduced to the value `PropagationFailed` for the root update; the other wrapped
  errors are returned unwrapped.
- ShortHash.TruncateHash: the panic value carries the message without the formatted size.
- ShortHash.TruncatedHash.Size, ShortHash.TruncatedHash.BlockSize: plain accessors with no contract
  of their own. `TruncateHash` and `NewTruncatedSHA256` state their values.
- The base `hash.Hash` is modelled by the data written since the last reset and a digest function.
  SHA-256 itself is not modelled.

## Findings

| source | as written | input that shows it | evidently intended | confidence | as-written member | corrected member |
|---|---|---|---|---|---|---|
| domainTree.go:136-143 | `leaves[i]` is read right after `sort.Search`, which returns `len(leaves)` when no certificate index is at least the requested one | a fresh tree asked for entry `{LogIndex: 0, CertificateIndex: 7}`; more generally, any entry whose certificate index exceeds every one listed for its log | the documented error "no entry with log index … found" (domainTree.go:129-131) | high; not executed | DomainTrees.AsWrittenPanicsOnEmptyLog | DomainTrees.ResolveFindsExactly |
| mapstore/wrapper.go:57-72 | a successful `Set` always appends the key to `newEntries`, also when the base store accepted it as a no-op re-set of the same value (mem.go:49-51) | `Set(k, v)` twice, then `SaveNodesForRoot` with `k` reachable: `markToSave` flags only the later entry (the index holds the last position), so `pruneUntil` deletes `k` through the earlier, unflagged entry | a rooted node survives pruning: a key is listed at most once in the insertion log | medium; not executed | MapStore.AsWrittenDuplicateIsDeleted | MapStore.PrunedKeyDroppedIffUnmarked |
