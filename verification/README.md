# Hashmarks identity engine: a Dafny model

Hashmarks computes content identities of files, directories and declared inputs, and keeps them hot: in-memory
caches, a change journal fed by a filesystem watcher, one synthetic Merkle tree per declared input manifest,
persistent digest rows, a lazy dependency graph. All of it is an accelerator. The promise is that every answer is the
one a from-scratch computation would give. This project models those parts of the engine and proves that promise,
together with the soundness of the digests themselves and the protocols around them.

`dafny verify dfyconfig.toml` checks everything.

## How the model is laid out

| file | what it holds |
|---|---|
| `Base`, `PathText`, `Normalization` | bytes, paths, file trees, name order; joining and splitting text; which texts name which paths |
| `Encoding`, `MerkleSpec` | node encoding, domains, the from-scratch digest of a visible tree, soundness up to a SHA-256 collision |
| `ManifestTrie`, `ManifestShape`, `Manifest` | the trie of one input manifest: insertion, invalidation, what its caches may hold; its canonical shape; its fingerprint |
| `Observation` | the change journal (`ChangeTracker`) and the environment: a plan of events at every tick of a clock, each an edit with its exact report or a loss of continuity |
| `HotCaches`, `DirectoryStore`, `ManifestTree`, `MerkleTree` | the caches, the write-behind store, and the reconciling reader |
| `IdentityGraph` | the lazy graph with equality cutoff |
| `HostFiles`, `StableRead` | a file other processes may change between two system calls, and the loops that read it |
| `MetadataCodec`, `FileRows`, `FileDigestStore` | the overflow codec, the two-level row cache, the digest store |
| `InputScope`, `ScopedTree`, `InputCapture`, `ScopedObservation`, `ObserveInputs`, `InputValidation` | scoped observation with exclusions and a member bound, and the checks a peer makes on its report |
| `ManifestRegistry`, `JsonText`, `ManifestClient` | the daemon's registry; sizes of JSON text; the client's chunked registration |
| `QualificationPlan`, `QualificationValidation` | owner units, plans and handoffs, and their validators |
| `SourceTrees` | the bounded cache of parsed sources |

## Assumptions

- Names and paths are byte strings and sequences of byte strings: an entry name is its UTF-8 encoding with surrogate
  escapes. `str` order, where the source uses it, is taken to be the order of these bytes.
- SHA-256 (section 6.2 of FIPS 180-4) is an arbitrary function with 32-byte results. Nothing assumes it injective:
  where equal digests are shown to mean equal contents, the alternative is an explicit collision between two messages
  the computations hashed.
- The watcher reports every path whose own entry changed (and perhaps others), or loses continuity and says so.
  `HotCaches.ReportingOnlyTheDirectoryIsNotEnough` shows that naming only the directory above a change is not enough.
- `Observation.ReportablePlan`: every path of a watched tree survives its own text, that is, no name holds a backslash
  and none in front looks like a drive. Without it even exact reports miss changes, see
  `Observation.BackslashEscapesTheJournal`, `HotCaches.BackslashKeepsAWrongDigest` and
  `Observation.DriveSilencesTheReport`.
- A drive is an ASCII letter and a colon, as Python 3.11 has it; later versions take any first character.
- `HostFiles.Honest` (`HostFiles.StillIsHonest`: a disk at rest is): a path that shows the same metadata at two moments named the same file with the same bytes all
  the way between them.
- Rows found in a database when it is opened were true when they were written.
- Trees have bounded depth and files bounded size on any one host; the bounds are arbitrary and only serve termination.
- JSON is an injective rendering: identities of plans, units and handoffs are functions of their payloads.

## Where code and documentation part

- A directory digest cached before the directory disappeared is still served by a read without `verify`, even when the
  disappearance was reported exactly, because the cache hit comes before the `is_dir` check and the replay of a path
  that is no directory starts at its parent. It is always the digest of an empty directory, as every entry that was in
  it is reported too. `MerkleTree.DirectoryDigest` states the exact condition while nothing happens: the path is among the
  remembered digests. `MerkleTree.ReadRemovedDirectory` is the run in which it happens.
- Change reports and member checks normalize backslashes to slashes, but the walk keys its caches and members by the
  names it finds. A name with a backslash is therefore neither invalidated by an exact report nor accepted by a peer:
  `HotCaches.BackslashKeepsAWrongDigest`, `InputValidation.BackslashIsRejected`.
- The client budgets its chunks by the length of unescaped JSON strings, and sends them escaped.
  `ManifestClients.DefaultBudgetsAreNotEnough` is a manifest within the default budgets whose request is too large for
  the daemon; `ManifestClients.SmallChunksAreReadable` says when that cannot happen.
- A registration that fails on the client after it has begun leaves its token with the daemon for good.
  `ManifestClients.RegisterManifest` states exactly when, `ManifestClients.BlockRegistry` that eight of them block every
  registration.
- The metadata codec bounds each integer when decoding but only the total when encoding.
  `MetadataCodecs.DecodeOfEncode` states when the round trip closes, `MetadataCodecs.EncodeAcceptsWhatDecodeRejects`
  that it sometimes does not.
- Retaining a source that is already cached counts its size twice. `SourceTrees.Retain` states by how much the recorded
  size drifts, and that it does not for an absent key.

## Model

| member | source | states |
|---|---|---|
| `Base.LexLessIsByteOrder` | hashmarks/merkle.py:463-465 | the order of encoded names at the first difference: a proper prefix comes first, else the smaller byte |
| `Base.SortedNamesAscend` | hashmarks/merkle.py:117-122 | sorting lists exactly the names of a set, ascending in that order |
| `Base.AscendingIsSorted` | hashmarks/merkle.py:208-214 | and there is no other such list |
| `Encoding.BigEndianRoundTrip` | hashmarks/digest.py:76-78 | an 8-byte length prefix determines the length |
| `Encoding.FirstByteWeighsMost` | hashmarks/digest.py:76-78 | the first byte of a length weighs most |
| `Encoding.EightBytes` | hashmarks/digest.py:76-78 | a length fits up to the largest eight-byte integer |
| `Encoding.FieldIsSelfDelimiting` | hashmarks/digest.py:76-78 | a length-prefixed field ends where its own prefix says: equal concatenations have equal first fields and equal rests |
| `Encoding.NodeIsSelfDelimiting` | hashmarks/merkle.py:467-488 | a node record is recovered from the front of any byte string that starts with it |
| `Encoding.FileRecord` | hashmarks/merkle.py:467-479 | a file record, byte by byte |
| `Encoding.DirectoryRecord` | hashmarks/merkle.py:480-483 | a directory record, byte by byte |
| `Encoding.LinkRecord` | hashmarks/merkle.py:484-486 | a link record, byte by byte |
| `Encoding.NodesAreTheirRecords` | hashmarks/merkle.py:490-499 | a list is encoded record by record in its own order, exactly if every length in it fits |
| `Encoding.NodesAreUniquelyDecodable` | hashmarks/merkle.py:490-499 | two node lists with the same encoding are the same list |
| `Encoding.DomainsSeparate` | hashmarks/digest.py:12-17 | messages under domain tags are equal only for the same domain and body |
| `Encoding.HashNodesIsBinding` | hashmarks/merkle.py:490-499 | equal list digests mean equal domain and equal nodes, or a collision |
| `MerkleSpec.VisibleIsLocal` | hashmarks/merkle.py:313-332 | what identity sees at a path depends only on the non-excluded entries at and below it |
| `MerkleSpec.VisibleChildren` | hashmarks/merkle.py:313-332 | a directory, whatever its own name, shows exactly its entries that are no special files, whose own name is not ignored, with no mandatory name on the path and no exclusion at or above |
| `MerkleSpec.IgnoredIsInvisible` | hashmarks/merkle.py:324-332 | trees that differ only at or below entries with ignored names have the same digests above them |
| `MerkleSpec.HiddenIsIrrelevant` | hashmarks/merkle.py:313-332 | both together: identity depends neither on what is excluded nor on what is ignored on the way down |
| `MerkleSpec.IgnoredRootShowsItsChildren` | hashmarks/merkle.py:327-329 | a selected root that carries an ignored name still shows its other children |
| `MerkleSpec.NodesOfPointwise` | hashmarks/merkle.py:598-636 | a level has nodes exactly when each of its entries has one, and they are these, in order |
| `MerkleSpec.LevelIsItsRecords` | hashmarks/merkle.py:490-499 | the bytes of a level are the records of its entries by ascending name, its digest their hash under the domain and their number |
| `MerkleSpec.DigestsByExample` | hashmarks/digest.py:12-17 | what is hashed for a small file and for an empty level of each kind, tag by tag |
| `MerkleSpec.EqualNodesEqualTrees` | hashmarks/merkle.py:467-499 | equal nodes mean equal names and equal visible trees at every depth, or a collision |
| `MerkleSpec.EqualLevelsEqualTrees` | hashmarks/merkle.py:467-499 | equal level digests mean the same domain and equal children at every depth, or a collision |
| `MerkleSpec.EqualDirectoryDigestsEqualTrees` | hashmarks/merkle.py:715-745 | two directories have equal digests if their visible trees are equal, and only then unless a collision is exhibited |
| `ManifestTrie.MarkedIsSound` | hashmarks/merkle.py:64-67 | marking a subtree dirty leaves nothing in it to be trusted |
| `ManifestTrie.MissMeansIrrelevant` | hashmarks/merkle.py:155-186 | when invalidation reports a miss, no selected path can depend on the changed one |
| `ManifestTrie.InvalidateRepairs` | hashmarks/merkle.py:155-186 | after invalidating a changed path, every clean cached node and digest equals its recomputation again, and dirtiness is upward closed |
| `ManifestTrie.TrieLater` | hashmarks/merkle.py:69-130 | a trie that was sound stays sound, up to the paths that changed meanwhile |
| `ManifestTrie.StoredChild` | hashmarks/merkle.py:69-130 | writing back one re-read child keeps the trie sound, even if a later child raises |
| `ManifestTrie.InsertKeepsTrie` | hashmarks/merkle.py:144-153 | insertion keeps every node at its own path and terminals without children |
| `ManifestTrie.LevelAssembled` | hashmarks/merkle.py:116-130 | the nodes of the children, in name order, are the nodes of the level |
| `ManifestTrie.LevelFails` | hashmarks/merkle.py:116-130 | a child that cannot be read leaves its level without an answer |
| `ManifestTrie.MissingTerminalFails` | hashmarks/merkle.py:505-576 | a selected path that is excluded or absent leaves the manifest without a digest |
| `ManifestTrie.TerminalsReadExactly` | hashmarks/merkle.py:188-201 | to verify, every selected path is looked at, otherwise exactly those with nothing clean above them |
| `ManifestShapes.MissIsExact` | hashmarks/merkle.py:155-186 | invalidation misses exactly the paths that lie neither at, above nor below a selected one |
| `ManifestShapes.InsertedTerminals` | hashmarks/merkle.py:144-153 | one insertion adds the path and removes what it covers, unless an ancestor is already selected |
| `ManifestShapes.TerminalsAreTopmost` | hashmarks/merkle.py:136-153 | in any insertion order the terminals are exactly the selected paths with no proper selected ancestor |
| `ManifestShapes.ManifestTerminals` | hashmarks/merkle.py:188-201 | the terminals of a manifest are its topmost paths |
| `ManifestShapes.ShapeIsCanonical` | hashmarks/merkle.py:133-153 | the terminals determine the whole synthetic tree |
| `ManifestShapes.ManifestOrderIrrelevant` | hashmarks/merkle.py:136-153 | manifests with the same topmost paths have the same tree, whatever the order |
| `ManifestShapes.EqualRootsEqualInputs` | hashmarks/merkle.py:203-218 | equal input roots mean the same topmost paths with the same visible content, or a collision |
| `Observation.ChangeTracker.MarkDirty` | hashmarks/observation.py:55-61 | reports join the journal under their normalized paths, move the generation and never undo UNKNOWN; one text without a normal form and nothing is journalled |
| `Observation.ChangeTracker.MarkUnknown` | hashmarks/observation.py:63-68 | continuity is lost: state UNKNOWN, no paths, a new generation |
| `Observation.ChangeTracker.MarkReconciled` | hashmarks/observation.py:70-96 | CLEAN is reached exactly when no generation was expected or it has not moved; otherwise nothing changes |
| `Observation.ChangeTracker.TakeSnapshot` | hashmarks/observation.py:98-105 | a snapshot lists the journalled paths once each in text order |
| `Observation.ReportIsExact` | hashmarks/observation.py:55-61 | between trees of portable paths the report of an edit journals every changed path |
| `Observation.RunReports` | hashmarks/observation.py:55-96 | over any sequence of such edits and of losses, every path whose entry changed is in the journal unless the state is UNKNOWN, and an unmoved generation means that nothing happened |
| `Observation.Reports` | hashmarks/observation.py:55-96 | the same between any two moments of a reader; the generation has moved exactly if there were events |
| `Observation.PassedOnTime` | hashmarks/observation.py:55-96 | at every moment the tree is the one the plan of events leads to, and what is recent is what was touched since the snapshot |
| `Observation.CoveringReports` | hashmarks/observation.py:55-61 | the reports an edit may have are exactly those that name every path whose entry changed |
| `Observation.BusyTicksCount` | hashmarks/merkle.py:436-455 | the measure of busy ticks is their number |
| `Observation.BackslashEscapesTheJournal` | hashmarks/observation.py:55-58 | a path with a backslash in a name is never journalled, whatever texts report it |
| `Observation.DriveSilencesTheReport` | hashmarks/observation.py:55-61 | one changed path that looks like a drive makes its whole report raise, and the journal misses all of it |
| `HotCaches.DirsLater` | hashmarks/merkle.py:360-405 | clean directory digests stay right up to what changed strictly below them |
| `HotCaches.PathsLater` | hashmarks/merkle.py:505-545 | path nodes stay right up to what changed since |
| `HotCaches.BelowLater` | hashmarks/merkle.py:715-745 | the digest of what lies below a path changes only with a path strictly below it |
| `HotCaches.ReplayRepairsDirs` | hashmarks/merkle.py:392-405 | replaying one exactly reported path makes every clean directory digest that of what lies below its path again |
| `HotCaches.ReplayRepairsPaths` | hashmarks/merkle.py:360-372 | replaying one reported path makes every cached path node right again |
| `HotCaches.NodesDropped` | hashmarks/merkle.py:360-372 | a report about a directory drops every cached node at or below it, any other just its own |
| `HotCaches.ExcludedReportIsMoot` | hashmarks/merkle.py:374-391 | a report about an excluded path needs no replay |
| `HotCaches.DirectoryAssembled` | hashmarks/merkle.py:715-745 | nodes read one by one from a listing hash to the digest of what lies below the directory, unless that changed meanwhile |
| `HotCaches.ChildFailureIsFatal` | hashmarks/merkle.py:598-636 | a listed entry that cannot be read means the directory has no cold digest, or changed meanwhile |
| `HotCaches.VanishedDirectoryStaysCached` | hashmarks/merkle.py:392-405 | a concrete removal changes exactly one path, and replaying its report keeps the digest of the directory that is gone |
| `HotCaches.ReportingOnlyTheDirectoryIsNotEnough` | hashmarks/merkle.py:392-405 | naming only the directory above a change leaves a clean wrong digest below it |
| `HotCaches.BackslashKeepsAWrongDigest` | hashmarks/merkle.py:374-405 | an exact report below a name with a backslash leaves a clean wrong digest of that directory |
| `DirectoryStores.DirectoryStore.Get` | hashmarks/directory_store.py:57-74 | a read sees the pending overlay over the persistent rows |
| `DirectoryStores.DirectoryStore.Put` | hashmarks/directory_store.py:76-85 | a write is pending only |
| `DirectoryStores.DirectoryStore.Flush` | hashmarks/directory_store.py:87-109 | flushing makes exactly the pending rows persistent and changes no answer |
| `DirectoryStores.DirectoryStore.DiscardPending` | hashmarks/directory_store.py:111-113 | discarding leaves the persistent rows as they were |
| `ManifestTrees.ManifestTree.Refresh` | hashmarks/merkle.py:203-218 | after a read the tree is sound; its root digest is the new one if the read succeeded, and else as it was |
| `ManifestTrees.ManifestTree.Invalidate` | hashmarks/merkle.py:155-186 | a tree is sound again for everything but the paths still to be replayed; it is hit exactly by the root and by paths at, above or below a selected one |
| `MerkleTrees.MerkleTree.constructor` | hashmarks/merkle.py:237-275 | a new tree trusts nothing, whatever the state of the journal and the store |
| `MerkleTrees.MerkleTree.DigestDirectory` | hashmarks/merkle.py:715-745 | a trusted digest is the answer, without looking, exactly unless `verify`; else the walk answers the cold digest up to what changed since the snapshot; an answer is trusted afterwards |
| `MerkleTrees.MerkleTree.ListedNodes` | hashmarks/merkle.py:598-636 | one node per shown entry of a listing, each read at its own moment |
| `MerkleTrees.MerkleTree.NodeForPath` | hashmarks/merkle.py:505-545 | a path answers its cold node up to what changed since the snapshot; from the cache, without looking, exactly if it is remembered and not to be verified; a leaf is remembered afterwards |
| `MerkleTrees.MerkleTree.ReadPathNode` | hashmarks/merkle.py:547-576 | links, files and directories are told apart at the moment they are read |
| `MerkleTrees.MerkleTree.PrimeTerminals` | hashmarks/merkle.py:769-817 | after priming every terminal has a right cached leaf or is a directory; an error names a terminal without a cold node; each terminal not remembered is looked at, with `verify` each of them |
| `MerkleTrees.MerkleTree.WalkTrie` | hashmarks/merkle.py:69-130 | reading a trie answers its cold node and leaves it sound, also when it fails half way; a warm node is answered without looking exactly unless `verify` |
| `MerkleTrees.MerkleTree.DigestTree` | hashmarks/merkle.py:203-218 | reading a manifest tree answers its cold root and keeps it; a clean root is answered without looking unless `verify` |
| `MerkleTrees.MerkleTree.ComputeManifest` | hashmarks/merkle.py:819-846 | a manifest read answers the cold root, reusing or building its tree; with `verify` it takes at least one observation for every selected path |
| `MerkleTrees.MerkleTree.DropHotCache` | hashmarks/merkle.py:334-340 | an emptied cache is sound whatever has changed |
| `MerkleTrees.MerkleTree.InvalidateManifestCache` | hashmarks/merkle.py:342-358 | replaying at most 512 paths over the manifest trees, or dropping the trees for more, leaves them sound |
| `MerkleTrees.MerkleTree.Invalidate` | hashmarks/merkle.py:374-405 | one replayed text is no longer a reason for distrust in any cache; exactly the digests at and above the walk start are dropped; a text without a normal form raises |
| `MerkleTrees.MerkleTree.InvalidateMany` | hashmarks/merkle.py:407-409 | after replaying the journal all caches are sound for the present tree; while nothing happens exactly the digests named by the reports are dropped |
| `MerkleTrees.MerkleTree.PrepareObservation` | hashmarks/merkle.py:411-423 | at the snapshot all caches are sound up to what happens afterwards, and hold what was remembered; from UNKNOWN they are empty |
| `MerkleTrees.MerkleTree.FinishObservation` | hashmarks/merkle.py:425-428 | an answer is committed exactly if the generation at its commit is that of the snapshot, and then everything is sound outright |
| `MerkleTrees.MerkleTree.Attempt` | hashmarks/merkle.py:436-455 | one round commits, raises, or finds that the generation moved, and then there were events in it |
| `MerkleTrees.MerkleTree.Conclude` | hashmarks/merkle.py:430-455 | a commit makes what was pending persistent; any failure discards it and leaves the journal UNKNOWN |
| `MerkleTrees.MerkleTree.PersistentRowsAreCold` | hashmarks/merkle.py:704-713 | after a commit the persistent rows hold every trusted digest, and these are right for the present tree |
| `MerkleTrees.MerkleTree.RunReconciled` | hashmarks/merkle.py:436-455 | in every interleaving the reply is faithful to the tree the plan of events leads to: a value is right at the commit, an error means there is none or that the call itself saw changes, giving up takes events in three ticks; while nothing happens a remembered digest is the reply, else a digest needs a directory; failures leave UNKNOWN and the rows untouched |
| `MerkleTrees.QuietReply` | hashmarks/merkle.py:436-455 | a faithful reply of a window without events is that of a fresh tree, value for value and failure for failure, but for a directory read without `verify` that is none any more |
| `MerkleTrees.MerkleTree.DirectoryDigest` | hashmarks/merkle.py:578-584 | a returned digest is that of what lies below the path at the commit, of a directory if `verify`; while nothing happens the reply is exactly the remembered digest, else the cold one, else a failure |
| `MerkleTrees.MerkleTree.PathNode` | hashmarks/merkle.py:747-755 | a returned path node is the cold node at the commit; while nothing happens the reply is exactly the cold node, or a failure where there is none |
| `MerkleTrees.MerkleTree.DigestManifest` | hashmarks/merkle.py:819-846 | a returned input root is the cold root at the commit; while nothing happens the reply is exactly the cold root, or a failure where there is none |
| `MerkleTrees.MerkleTree.Idle` | hashmarks/merkle.py:411-455 | between requests, edits and losses never break what the caches promise |
| `MerkleTrees.MerkleTree.Serve` | hashmarks/merkle.py:436-455 | over any run of requests and events every reply, error or value, is faithful to the tree the plan leads to at the end of its own window, the windows following one another |
| `MerkleTrees.MerkleTree.ReadRemovedDirectory` | hashmarks/merkle.py:715-723 | read an empty directory, let it be removed and exactly reported, read it again: the second reply is the first digest, where a fresh tree has none |
| `IdentityGraphs.ValueFollowsWalk` | hashmarks/graph.py:67-87 | if a node evaluates, so does every node on every walk along its dependencies |
| `IdentityGraphs.FailureHasCause` | hashmarks/graph.py:67-87 | a failing evaluation means a reachable cycle or an undefined reachable node |
| `IdentityGraphs.CycleErrorIsExact` | hashmarks/graph.py:67-72 | with every reachable key defined and no compute raising, a cycle error is raised exactly when a cycle is reachable |
| `IdentityGraphs.CycleIsClosed` | hashmarks/graph.py:67-72 | a cycle error names a closed walk in which no node repeats, without the nodes leading to it; with these it is a walk from the node asked for |
| `IdentityGraphs.ReadOn` | hashmarks/graph.py:83-87 | reads compose: what is settled stays put, each outdated node is computed once |
| `IdentityGraphs.CacheIsCurrent` | hashmarks/graph.py:89-90 | a clean node whose dependency versions are current holds what its compute function gives |
| `IdentityGraphs.StoredIsConsistent` | hashmarks/graph.py:92-105 | storing a computed value keeps every version meaning one value |
| `IdentityGraphs.IdentityGraph.Add` | hashmarks/graph.py:37-47 | a new node is dirty and without a value; a known key is refused |
| `IdentityGraphs.IdentityGraph.Invalidate` | hashmarks/graph.py:49-51 | exactly that node becomes dirty |
| `IdentityGraphs.IdentityGraph.Get` | hashmarks/graph.py:63-65 | if every node whose compute function changed was invalidated, the answer is that of plain evaluation; exactly the outdated nodes are computed, once each; a version moves by one exactly when the value does |
| `IdentityGraphs.IdentityGraph.Version` | hashmarks/graph.py:58-61 | the version returned stands for the value plain evaluation gives; the effect on the nodes is that of a read |
| `IdentityGraphs.IdentityGraph.Replay` | hashmarks/graph.py:37-65 | over any run of additions, invalidated changes and reads, every read is answered as evaluating the world of that moment from scratch |
| `IdentityGraphs.IdentityGraph.GetLocked` | hashmarks/graph.py:67-105 | the same at any depth of the stack, whose nodes are never computed |
| `IdentityGraphs.IdentityGraph.Finish` | hashmarks/graph.py:89-105 | a value is reused or computed; its version moves only if the value changes |
| `StableReads.HashStream` | hashmarks/digest.py:51-60 | for every chunk size, negative ones reading all at once, and any short reads, a file that holds still hashes as a whole; size zero reads nothing |
| `StableReads.ReadUpTo` | hashmarks/file_store.py:208-216 | a bounded read of a file that holds still stops at its end or at the bound |
| `StableReads.HonestWindow` | hashmarks/file_store.py:170-186 | between two equal samples the path names one file with one content |
| `StableReads.HashStable` | hashmarks/file_store.py:170-186 | a returned digest is that of the content the last sample saw; giving up means the metadata changed in every attempt |
| `StableReads.ReadBytesStable` | hashmarks/file_store.py:188-221 | returned bytes are exactly the content the last sample saw, within the bound; a bound error means a larger file was there |
| `MetadataCodecs.DecimalRoundTrip` | hashmarks/file_metadata_codec.py:82-95 | parsing a printed integer gives it back |
| `MetadataCodecs.DigitCount` | hashmarks/file_metadata_codec.py:82-85 | how many digits an integer prints in |
| `MetadataCodecs.DecodeIntegerIsExact` | hashmarks/file_metadata_codec.py:82-95 | a text decodes to an integer exactly when it is its canonical print of at most 128 characters |
| `MetadataCodecs.LenientTextsAreRefused` | hashmarks/file_metadata_codec.py:82-95 | texts with spaces or a plus sign are integers for `int`, and refused all the same |
| `MetadataCodecs.SqliteIsEightBytes` | hashmarks/file_metadata_codec.py:19-28 | a column holds the integers of eight bytes in two's complement |
| `MetadataCodecs.PayloadRefusals` | hashmarks/file_metadata_codec.py:60-74 | a payload is refused for its length, or as not ASCII, exactly then |
| `MetadataCodecs.DecodeOfEncode` | hashmarks/file_metadata_codec.py:43-105 | decoding an encoded payload gives the tuple back exactly when every integer prints in at most 128 characters, and never another tuple |
| `MetadataCodecs.EncodeFailure` | hashmarks/file_metadata_codec.py:43-57 | encoding fails exactly when a payload is needed and longer than its bound; a column holds its integer wherever it can |
| `MetadataCodecs.EncodeOfDecode` | hashmarks/file_metadata_codec.py:98-105 | every payload decoding accepts is the canonical payload of its tuple |
| `MetadataCodecs.EncodeAcceptsWhatDecodeRejects` | hashmarks/file_metadata_codec.py:50-57 | some tuple encodes to a payload that does not decode |
| `PathText.SplitOfJoin` | hashmarks/file_metadata_codec.py:60-79 | splitting joined separator-free parts gives the parts |
| `PathText.JoinOfSplit` | hashmarks/file_metadata_codec.py:60-79 | joining what was split gives the text |
| `PathText.TextPrefixIsAncestor` | hashmarks/inputs.py:242-247 | on the texts of plain paths, starting with another text and a slash means lying strictly below that path |
| `Normalization.NormalizeKeepsPortable` | hashmarks/paths.py:86-96 | a path survives its own text exactly if its names are portable (no backslash among others) and nothing in front looks like a drive |
| `Normalization.NormalizedNames` | hashmarks/paths.py:86-96 | whatever a text names consists of portable names |
| `Normalization.BackslashHasNoText` | hashmarks/paths.py:9-13 | no text names a path with a backslash in a name |
| `Normalization.NormalizeIsNamed` | hashmarks/paths.py:86-96 | a text is read part by part between slashes; it is refused if absolute, with a drive, or with a `..` among the parts |
| `Normalization.NamedOfConcat` | hashmarks/paths.py:92 | empty parts and dots name nothing, every other part itself, in order |
| `Normalization.BackslashIsSlash` | hashmarks/paths.py:9-13 | a backslash anywhere is as good as a slash |
| `Normalization.RefusedTexts` | hashmarks/paths.py:72-83 | the exact condition for a text to be refused, on its bytes |
| `FileRows.RowRoundTrip` | hashmarks/file_store.py:109-140 | a stored row reads back as stored exactly when its integers are short |
| `FileRows.RowRefusals` | hashmarks/file_store.py:109-121 | a row is refused exactly for a negative device, inode or size, or for a payload beyond its bound |
| `FileRows.DecodedIsStorable` | hashmarks/file_store.py:109-140 | every decodable row could be stored again and reads back the same |
| `FileRows.MetadataRowCodecIsLawful` | hashmarks/file_store.py:109-140 | the row codec obeys the laws the store relies on |
| `FileRows.HitIsCurrent` | hashmarks/file_store.py:334-339 | a row whose metadata matches the file now has the digest of the file now |
| `FileRows.LoadingIsInvisible` | hashmarks/file_store.py:223-281 | loading rows and discarding corrupt ones change no answer |
| `FileRows.LoadedIsSound` | hashmarks/file_store.py:223-281 | and keep memory and database in agreement |
| `FileRows.WritingDecodes` | hashmarks/file_store.py:306-315 | what decodes after a batch write: the written rows that read back, and the others unchanged |
| `FileRows.StoredIsSound` | hashmarks/file_store.py:283-315 | storing true rows keeps the store true and in agreement |
| `FileDigestStores.FileDigestStore.LookUp` | hashmarks/file_store.py:223-245 | one lookup gives the answer of the two levels and discards a corrupt row |
| `FileDigestStores.FileDigestStore.LookUpMany` | hashmarks/file_store.py:247-281 | a batched lookup gives exactly the answers for the requested paths, at most five hundred to a statement |
| `FileDigestStores.FileDigestStore.StoreMany` | hashmarks/file_store.py:283-315 | a batch is written to both levels in full, the last record of a path winning, or not at all |
| `FileDigestStores.FileDigestStore.DigestOne` | hashmarks/file_store.py:322-343 | with or without `force` the digest is that of the content the last sample saw; on a still file it is the cold answer, error for error; the file is not read exactly when a row may be used and matches the sample; afterwards memory holds such a row |
| `FileDigestStores.FileDigestStore.DigestMany` | hashmarks/file_store.py:345-374 | every answer is that of a moment during the call; on still files the answer with the cache is the answer without it, error for error; no file is read exactly when every sample matches its row |
| `FileDigestStores.FileDigestStore.Forget` | hashmarks/file_store.py:401-408 | the file is forgotten by both levels and no other |
| `FileDigestStores.FileDigestStore.ClearWorkspace` | hashmarks/file_store.py:410-418 | exactly the workspace is forgotten |
| `InputScopes.CollapseKeepsExclusion` | hashmarks/inputs.py:177-181 | collapsing exclusions never changes what is excluded |
| `InputScopes.ExcludesOnTexts` | hashmarks/inputs.py:177-181 | the text test of `excludes` finds exactly the paths at or below an excluded one |
| `InputScopes.CollapseExclusions` | hashmarks/inputs.py:242-247 | comparing texts, exactly the topmost exclusions are kept, the terminals a trie over them would have |
| `InputScopes.RemoveDescendantsOfSelectedDirs` | hashmarks/inputs.py:70-80 | comparing texts, exactly the paths not below a selected directory are kept |
| `InputScopes.PrunedLookup` | hashmarks/inputs.py:177-181 | deleting excluded subtrees removes exactly the excluded paths |
| `ScopedTrees.UnderIsExact` | hashmarks/merkle.py:638-670 | the entries under a root are exactly the existing paths with nothing excluded or skipped on the way down |
| `ScopedTrees.UnderSplits` | hashmarks/merkle.py:672-702 | a directory shows itself and what its listed children show |
| `InputCaptures.RevisionsBind` | hashmarks/merkle.py:758-766 | members with equal revisions are of one kind with the same link target, the same bytes or the same visible tree, or two different hashed messages collide |
| `InputCaptures.LinkMessageIsItsOwn` | hashmarks/merkle.py:758-766 | what is hashed for a link is hashed for no file and no directory level, at any depth |
| `InputCaptures.TallyMore` | hashmarks/input_observation.py:124-130 | counting one more entry |
| `InputCaptures.InputCapture.CheckPending` | hashmarks/input_observation.py:103-109 | one more entry may be listed exactly if all entries sampled or listed so far stay within the bound with it |
| `InputCaptures.InputCapture.Begin` | hashmarks/input_observation.py:111-135 | an entry is sampled and counted once, within the bound; a refusal means the selection is too large or unsupported |
| `InputCaptures.InputCapture.BindAncestors` | hashmarks/input_observation.py:137-147 | every proper ancestor is a real directory and bound, or the first that is not is named |
| `InputCaptures.InputCapture.Record` | hashmarks/input_observation.py:152-174 | a node of the sampled kind becomes the member, any other is refused; a correct node keeps the inventory correct |
| `ScopedObservations.ScopedEntries` | hashmarks/merkle.py:638-670 | the listed names in order, or more selected entries than allowed |
| `ScopedObservations.WalkDirectory` | hashmarks/merkle.py:715-745 | the digest of the pruned directory, with exactly its entries sampled and recorded |
| `ScopedObservations.CaptureEntry` | hashmarks/merkle.py:598-636 | the cold node of an entry, recorded |
| `InputObservations.RootedIsAntichain` | hashmarks/input_observation.py:137-147 | bound roots of a resolved manifest form an antichain, so all of them are terminals |
| `InputObservations.WalkShape` | hashmarks/merkle.py:69-130 | a synthetic level over the pruned tree |
| `InputObservations.WalkRoots` | hashmarks/merkle.py:863-893 | sampled roots are walked to the last selected entry |
| `InputObservations.ObserveInputs` | hashmarks/merkle.py:848-895 | an observation succeeds exactly on observable requests; the digest is that of the tree with exclusions deleted; the members are exactly the selected entries |
| `InputObservations.NothingExcluded` | hashmarks/merkle.py:848-895 | with nothing excluded it is the digest of the plain manifest |
| `InputValidation.Results` | hashmarks/input_observation.py:210-223 | the members in encoded-path order, with their counts |
| `InputValidation.CountsAgree` | hashmarks/input_observation_transport.py:247-269 | counts kept entry by entry are the sums over the members |
| `InputValidation.CanonicalIsPortable` | hashmarks/input_observation_transport.py:198-203 | a peer accepts the text of a path exactly if the path is portable and not the root |
| `InputValidation.BackslashIsRejected` | hashmarks/input_observation_transport.py:198-203 | one backslash in a member name and the whole report is refused |
| `InputValidation.AcceptedIsCoherent` | hashmarks/input_observation_transport.py:145-346 | a report is accepted if and only if its paths are portable and ascend, every root is a member, every member lies under exactly one root in a listed directory with nothing barring it, exclusions lie apart, details fit the kind and counts are the numbers of members and bytes |
| `InputValidation.RejectionIsTrue` | hashmarks/input_observation_transport.py:145-346 | a rejection names a check that the report really fails |
| `InputValidation.SelectedHasOneRoot` | hashmarks/input_observation_transport.py:288-293 | exactly one root lies at or above a member |
| `InputValidation.SelectedIsAllowed` | hashmarks/input_observation_transport.py:303-315 | no member is excluded by the request or by policy |
| `InputValidation.SelectedParent` | hashmarks/input_observation_transport.py:294-300 | a member that is no root lies in a recorded directory |
| `InputValidation.CapturedIsAccepted` | hashmarks/input_observation_transport.py:235-350 | whatever an observation captures passes every check exactly if every path of scope and members survives its text; its running counts are the reported ones |
| `InputValidation.CaptureAndReport` | hashmarks/merkle.py:848-895 | request to report: with a canonical scope it is accepted exactly if every selected path survives its text |
| `ManifestRegistries.SortedPathsUnique` | hashmarks/daemon.py:225 | a set of paths has one sorted listing |
| `Manifests.FingerprintIsBinding` | hashmarks/inputs.py:34-45 | equal fingerprints mean the same paths in the same order, or a collision |
| `ManifestRegistries.EngineNormalizer` | hashmarks/paths.py:86-96 | the normalization of this engine meets what the registry asks of one, and keeps exactly the portable paths |
| `ManifestRegistries.TotalWithout` | hashmarks/daemon.py:237-246 | the stored path total is the sum over the registered manifests |
| `ManifestRegistries.GrantedIsAccounted` | hashmarks/daemon.py:226-245 | one more reference is one more commit in the account |
| `ManifestRegistries.ReleasedIsAccounted` | hashmarks/daemon.py:337-351 | one reference less is one drop in the account, and frees the limits |
| `ManifestRegistries.ManifestRegistry.Begin` | hashmarks/daemon.py:192-197 | a registration starts exactly when fewer than eight are pending |
| `ManifestRegistries.ManifestRegistry.Append` | hashmarks/daemon.py:199-215 | a chunk past the limit discards the registration; a bad path keeps those before it |
| `ManifestRegistries.NormalizedUpToBad` | hashmarks/daemon.py:211-215 | kept of a chunk is every path up to the first text that names none |
| `ManifestRegistries.RefusedAtTheLimits` | hashmarks/daemon.py:226-245 | a canonical manifest is refused exactly if holding it would break the handle or the path limit |
| `ManifestRegistries.ReplyIsStored` | hashmarks/daemon.py:246-252 | a reply gives the references and the size of the entry it leaves, or there is a collision |
| `ManifestRegistries.ManifestRegistry.CommitManifest` | hashmarks/daemon.py:217-252 | the token is spent in any case; the verdict follows the limits; the reply describes the stored entry; all limits and accounts hold afterwards |
| `ManifestRegistries.ManifestRegistry.DropManifest` | hashmarks/daemon.py:337-351 | an effective drop takes one reference, the last one the handle; the reply gives the references left |
| `ManifestClients.GatherMore` | hashmarks/client.py:385-400 | the chunk being gathered stays within both budgets, or is complete |
| `ManifestClients.ChunksMeetBudgets` | hashmarks/client.py:383-402 | the planned chunks concatenate to the manifest, each not empty and within both budgets |
| `ManifestClients.SendChunks` | hashmarks/client.py:383-402 | exactly the planned chunks are sent; a failure has the cause it names and leaves the token behind exactly if it arose on the client |
| `ManifestClients.RegisterManifest` | hashmarks/client.py:371-407 | a registration succeeds exactly when every path can be encoded and every limit of both sides, the request size included, is met; then the registry holds this manifest under the handle, or there is a collision; every error is explained and says whether the token is left behind |
| `JsonText.ValidIsUtf8` | hashmarks/client.py:386 | encoding raises exactly for what is not the UTF-8 form of a sequence of characters |
| `JsonText.TextRoundTrip` | hashmarks/client.py:386 | a JSON reader gets a text back from its form as it is and from its ASCII form |
| `JsonText.StringRoundTrip` | hashmarks/client.py:386 | so does it from the quoted strings |
| `JsonText.SizesAreLengths` | hashmarks/client.py:386 | the sizes counted are the lengths of these forms |
| `ManifestClients.SizesAreReal` | hashmarks/client.py:194-198 | the estimate of a path is the length of its string and a comma, the request size that of the line that is sent |
| `JsonText.EscapedGrowth` | hashmarks/client.py:386 | escaping makes valid text at most six times as long as the estimate counts |
| `ManifestClients.SmallChunksAreReadable` | hashmarks/daemon.py:80-85 | with a byte budget of at most 699000 no request is ever too large for the daemon |
| `ManifestClients.DefaultBudgetsAreNotEnough` | hashmarks/client.py:371-377 | with the default budgets a path can be within all of them and yet make a request the daemon does not read |
| `ManifestClients.UndecodableIsNotRegistrable` | hashmarks/client.py:386 | a path that is not UTF-8 on disk fails to encode, and its token stays with the daemon |
| `ManifestClients.BlockRegistry` | hashmarks/daemon.py:192-197 | eight such failures block every later registration |
| `QualificationPlans.FileIsBeforeFirstColons` | hashmarks/qualification_units.py:127-128 | the file of a node is what stands before its first `::`, or all of it |
| `QualificationPlans.FileOfTest` | hashmarks/qualification_units.py:127-128 | a file and a test joined by `::` give that file |
| `QualificationPlans.SameOwner` | hashmarks/qualification_units.py:157-202 | nodes under one owner name share a file, or are the same node |
| `QualificationPlans.BuildUnits` | hashmarks/qualification_units.py:157-202 | exactly one unit per owner, in name order |
| `QualificationPlans.TestsOfOneFile` | hashmarks/qualification_units.py:176-200 | two tests of one file classified by file are in one unit named after it |
| `QualificationPlans.SingletonsAreAlone` | hashmarks/qualification_units.py:182-191 | a node classified alone is in a unit of its own, named after its kind and itself |
| `QualificationPlans.UnitsPartitionNodes` | hashmarks/qualification_units.py:157-202 | every node is in exactly one unit, and units hold nothing else |
| `QualificationPlans.AllNodesAreNodes` | hashmarks/qualification_units.py:212-222 | the nodes of all units are the classified nodes, each once |
| `QualificationValidation.QualificationOwnerPlan` | hashmarks/qualification_units.py:212-244 | a plan is produced exactly for a non-empty selection without blank nodes, and its membership is that of the nodes |
| `QualificationValidation.OwnerUnitAccepted` | hashmarks/qualification_units.py:417-438 | the unit validator finds nothing wrong with an owner unit |
| `QualificationValidation.AcceptedPlanIsSound` | hashmarks/qualification_units.py:417-569 | a plan is accepted if and only if its units are sound, ascend by name and share no node and no identity, and its counts, membership and identity are those of its nodes and payload |
| `QualificationValidation.AcceptedHandoffIsSound` | hashmarks/qualification_units.py:860-914 | the same of a handoff, whose units may come in any order |
| `QualificationValidation.UnitReasonsNamed` | hashmarks/qualification_units.py:417-438 | a reason is given about a unit exactly if it is true of it |
| `QualificationValidation.PlanReasonsNamed` | hashmarks/qualification_units.py:481-569 | a reason is given about a plan exactly if it is true of it or of one of its units |
| `QualificationValidation.HandoffReasonsNamed` | hashmarks/qualification_units.py:866-914 | the same of a handoff |
| `QualificationValidation.ProducedIsAccepted` | hashmarks/qualification_units.py:481-569 | a produced plan is accepted exactly when no two units collide, the handoff in any case |
| `SourceTreeCaches.KeptIsLongestFit` | hashmarks/python_ast_cache.py:44-46 | eviction keeps the longest run of newest entries with at most 32 trees and 8 MiB |
| `SourceTreeCaches.NewestStays` | hashmarks/python_ast_cache.py:38-46 | an arriving entry that fits is never evicted by its own arrival |
| `SourceTreeCaches.SourceTrees.Get` | hashmarks/python_ast_cache.py:32-36 | a hit becomes the newest entry |
| `SourceTreeCaches.SourceTrees.Retain` | hashmarks/python_ast_cache.py:38-46 | both limits hold; the recorded size is exact unless the key was already present, and then off by that source |

## Left out

- Requests enter as normalized paths: a text with backslashes names the path with slashes before anything else happens.
- Symlinked ancestors and path resolution (`hashmarks/paths.py`): links are leaves and are never followed, so a path that turns into a link between two calls of one read fails instead of being followed.
- MerkleTrees.MerkleTree.PrimeTerminals: observes a set of terminals in arbitrary order where the source has a tuple; no result depends on the order, only which of several failing terminals is named.
- ManifestTrees.ManifestTree.Refresh: trie nodes are values inside the tree object, so updates of single node objects in place are rebuilds of the path to them.
- MerkleTrees.MerkleTree.FileInfos: a file is read in one step in the Merkle model; the reading loops themselves are in `StableRead`.
- Several reader threads on one tree, locks, and the variants without a change tracker or without a directory store.
- MerkleTrees.MerkleTree.PersistentRowsAreCold: rows of paths that are not trusted at a commit may be old; the read path modelled here never uses rows.
- IdentityGraphs.IdentityGraph.Invalidate: `invalidate_many` is its repetition; the reentrant lock is not modelled.
- MetadataCodecs.DecodeIntegerIsExact: integers beyond the host language's limit on printed digits raise another error when encoding.
- FileDigestStores.FileDigestStore.DigestMany: errors of the database itself, statistics, and `prune_missing_files` are not modelled.
- Scoped observation on a moving filesystem: `InputCapture.validate` and the second resolution of the scope only compare two samples of one entry; the surrounding reconciliation is the one proved for the other reads. Physical counting of skipped directories and cancellation checkpoints are not modelled.
- Glob matching in `resolve_inputs`; its results enter as sorted paths.
- InputValidation.AcceptedIsCoherent: exclusions and names of a scope are sets, so that their lists are sorted is not checked; the manifest fingerprint is `Manifests.Fingerprint`, its comparison left out.
- InputValidation.CapturedIsAccepted: field sets, types and constant tags of the JSON envelope are not modelled, nor the text form of revisions and of the snapshot.
- ManifestClients.RegisterManifest: sockets, the compatibility request before a registration and daemon restarts are not modelled; tokens are taken to be fresh.
- QualificationValidation.ProducedIsAccepted: constant authority tags, the producer record, identity text formats and execution-policy keys are not modelled; coverage validation is left out.
- Lossless tables for source records, qualifiers and declarations (`hashmarks/evidence_presentation_task.py`, `hashmarks/evidence_declaration_text.py`): direct rewrites of dictionaries.
- MCP and CLI layers, evidence presentation, release tooling, native process support, `hashmarks/cas.py`: plumbing around the engine.
