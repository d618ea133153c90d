# Verified models of libdictenstein

libdictenstein is a library of dictionaries: suffix automata, DAWGs, and a persistent trie with a
lock-free write path. This project models its most involved parts in Dafny and proves what they
promise. `dafny verify dfyconfig.toml` verifies everything.

**Suffix automaton** (`SuffixGraph` to `SuffixAutomaton`, `SuffixEndpos`, `SuffixClasses`, `SourceOrder`).
The online construction over any number of texts, as a class whose methods change the state vector in
place. After every insertion exactly the substrings of the texts are read, and two words lead to the
same state exactly when they end at the same positions. `SuffixTransitions` counts transitions;
`SuffixMinimal` says when the states of one text are as few as can be. Inserting a text that occurs
already leaves states behind that no path enters. That is why compaction, which keeps only entered
states, drops a source that was never removed; the model shows an instance and the exact condition: a
source is lost if and only if its text is nonempty and occurs in a text inserted before it. A lost
source stays in the sorted list of sources and in the string count.

**Order-A durable writes** (`WriteLog`, `CommittedWatermark`, `OrderA`, `Recovery`, `CrashSafety`,
`CheckpointInversion`, `FileDurability`, `CounterRecovery`, `Reopening`, `RepeatedCrashes`, `WriteModes`,
`LegacyRecovery`, `RecoveredOperations`). A state machine over any number of writers, a checkpointer and
a syncing disk. Each atomic step of the code is a step of the machine: append, sync, load the root, draw
a ticket, compare-and-swap, append the rank, mark, acknowledge. A write takes effect exactly where it
finds what its mode asks for, and none is ever stuck. Recovery is the reconciliation of surviving
records over the image. Without a checkpoint no crash loses an acknowledged write. With one this is
not always so: the image can hold a write that overwrote an older one that is published but not yet
ranked, and replaying the older one over the image undoes the newer. Whether this can happen is
decided when the image is published, and `SafeExactly` proves the condition exact. `FileDurability` does
the same for a log that is synced and left in order, where less is needed. `CounterRecovery` reads the
protocol for increments, whose records add: each acknowledged one is counted once at every crash if
and only if the image holds only publications that it covers. `Reopening` and `RepeatedCrashes` put
runs and crashes behind each other: the log on disk grows, LSNs and generations go on from what is
found, and every acknowledgement ever given is kept through any number of crashes, as long as no
image is inverted; for the current opening this is again exact.

**DAWG** (`DawgGraph` to `DynamicDawg`, `DawgRuns`). Insertion and removal in a graph with shared nodes,
guarded by reference counts; merging by signature with a structural comparison; rebuilding. Merging
keeps everything that can be observed for every signature function. Every state of the dictionary is
tidy: a node that a path enters leads to a final node, and one that no path enters is empty. From any
such state minimizing merges all nodes with the same right language, except those with a value below
them, if and only if the numbering is aligned: where a node and the last of its equals have different
children under a label, both children come after the node. Copying a shared node can break this, so
minimizing is not always complete; `DawgRuns` shows a run of insertions. Rebuilding always is.

**Suffix index over an ordered map** (`LegacySuffix`, `LegacyIndex`, `Utf8`, `SuffixAlphabets`). One
writer and any readers; an answer is exact for the sources published when the reader read them,
wherever the writer is. The byte index and the character index give the same answers.

**Entry cursor** (`EntryCursor`, `EntriesView`, `Traversal`), **measuring allocator**
(`MeasuringAllocator`, `CounterLedger`), **term count** (`TermCount`), **shuffle** (`Shuffle`, `XorShift`) and **backoff**
(`CasBackoff`) are the smaller models.

Conventions. Edges are kept as maps from label to target where the code keeps sorted vectors. A hash
map is visited in any order. Byte and character strings are sequences of units. Where the code
disagrees with its documentation, the model follows the code: `compact` of the suffix automaton is
documented as reclaiming memory only; the README bounds the states of the automaton by 2|T| - 1, which
holds exactly for texts of at least two units, and the transitions by 3|T| - 4, which holds exactly for
texts of at least three units or twice the same; the README calls DAWG nodes with the same right
language mergeable, which the merging pass does not always achieve; `compact` of the DAWG is documented
as returning the number of removed nodes, but adds the nodes merged in the rebuilt trie; the README
calls the suffix automaton the minimal DFA of the substrings, which its states by end positions are not
for "abb"; the checkpoint is documented to overlap nowhere with the log that is replayed, so that every
acknowledged write survives exactly once, which is not so for a write that is published but not yet
marked; the allocation profile reports as peak live bytes a counter that lags behind a shrinking
reallocation.

## Model

| member | source | states |
|---|---|---|
| `SuffixExtend.ExtendContinuous` | src/suffix_automaton/core/inner.rs:147-166 | adding a state without a split keeps the automaton invariant: links, names, every suffix of a name read into the chain of its state |
| `SuffixExtend.ExtendSplit` | src/suffix_automaton/core/inner.rs:167-192 | cloning a state, redirecting edges to the clone and adding the new state keeps the automaton invariant, and old states stay proper or improper |
| `SuffixGraph.LanguageOfNames` | src/suffix_automaton/core/inner.rs:141-199 | the words an automaton reads are exactly the suffixes of the names of its states |
| `SuffixIndex.ReadsFactors` | README.md:224-243 | the automaton of some texts reads exactly the substrings of the texts |
| `SuffixIndex.ReadBefore` | src/suffix_automaton/core/inner.rs:148-164 | the extended word was read before exactly when the link walk stops at a state as long as the last one |
| `SuffixIndex.LongWordRead` | src/suffix_automaton/ascii.rs:289-297 | while a text is inserted, a word longer than the part added so far is read exactly when an earlier text contains it |
| `SuffixEndpos.ContinuousSeparates` | src/suffix_automaton/core/inner.rs:164-166 | extension without a split keeps every state apart from its link by some end position |
| `SuffixEndpos.SplitSeparates` | src/suffix_automaton/core/inner.rs:167-192 | so does extension with a split: the new position parts the split state from its clone |
| `SuffixClasses.StatesAreEndClasses` | README.md:224 | two words lead to the same state exactly when they end at the same positions of the texts |
| `SuffixAutomaton.SuffixAutomaton.constructor` | src/suffix_automaton/core/inner.rs:77-90 | the empty automaton meets the invariant |
| `SuffixAutomaton.SuffixAutomaton.AddTransitions` | src/suffix_automaton/core/inner.rs:147-155 | the link walk adds the edge to exactly the states it passes and stops at the first that has one |
| `SuffixAutomaton.SuffixAutomaton.Extend` | src/suffix_automaton/core/inner.rs:141-199 | one unit: the invariant is kept, one or two states are added, the new state is named by the longer text and is entered from the root exactly when that text was not read before, states stay apart |
| `SuffixAutomaton.SuffixAutomaton.CloneState` | src/suffix_automaton/core/inner.rs:168-176 | the clone's node, and the links of the new state and the split state |
| `SuffixAutomaton.SuffixAutomaton.Redirect` | src/suffix_automaton/core/inner.rs:178-191 | exactly the states on the link path whose edge led to the split state are redirected |
| `SuffixTransitions.EdgeBound` | README.md:243 | the automaton of one text has at most one transition for each state but the root and one for each position but the first, and one less if its last unit names a state |
| `SuffixTransitions.TransitionBound` | README.md:243 | the transitions are at most 3n - 4 exactly when n is at least 3, or the text is twice the same unit |
| `SuffixMinimal.SmallestExactly` | README.md:224 | no two states of the automaton of one text are followed by the same words, if and only if the tail, the longest suffix of the text that also ends elsewhere, is not preceded by one and the same unit wherever it ends elsewhere |
| `SuffixMinimal.AbbNotSmallest` | README.md:224 | an instance: the automaton of "abb" has two states that could be one |
| `SuffixAutomaton.SuffixAutomaton.InsertText` | src/suffix_automaton/ascii.rs:289-311 | the text is added as an active source, listed in order and counted; the automaton reads the substrings of all texts; on an empty automaton the number of states is at most 2n - 1 exactly when n is at least 2, the transitions are bounded as above, and it is as small as can be exactly when the tail is not always preceded by one unit |
| `SuffixAutomaton.SuffixAutomaton.Contains` | src/suffix_automaton/ascii.rs:1294-1305 | true exactly for the substrings of the inserted texts |
| `SuffixAutomaton.SuffixAutomaton.FinalExactly` | src/suffix_automaton/ascii.rs:1144-1150 | what a substring leads to is final exactly if it is not empty |
| `SuffixAutomaton.SuffixAutomaton.FindSource` | src/suffix_automaton/ascii.rs:524-544 | the matching active source with the smallest id, whatever order the map is visited in |
| `SourceOrder.FirstDifferenceDecides` | src/suffix_automaton/core/inner.rs:108-123 | a text comes before another exactly if at the first place where they differ it has ended or has the smaller unit |
| `SourceOrder.InsertionPoint` | src/suffix_automaton/core/inner.rs:116-123 | the binary search ends where inserting the source keeps the list in the order of texts, then ids |
| `SuffixAutomaton.SuffixAutomaton.IndexSource` | src/suffix_automaton/core/inner.rs:116-123 | the list stays in order and has exactly this source more |
| `SuffixAutomaton.SuffixAutomaton.UnindexSource` | src/suffix_automaton/core/inner.rs:126-134 | the list stays in order and has exactly this source less, if it had it |
| `SuffixAutomaton.SuffixAutomaton.ContainsSource` | src/suffix_automaton/source_snapshot.rs:164-169 | the binary search finds the text exactly if a listed source has it |
| `SuffixAutomaton.SuffixAutomaton.ListedExactly` | src/suffix_automaton/core/inner.rs:61-68 | in every state of the class the list holds exactly the active sources if and only if no compaction lost one |
| `SuffixAutomaton.SuffixAutomaton.RebuildSources` | src/suffix_automaton/core/inner.rs:93-113 | the list rebuilt after reading the automaton back holds the active sources in order, and is the same list if and only if no compaction lost one |
| `SuffixAutomaton.ListedInOrder` | src/suffix_automaton/source_snapshot.rs:145-152 | an instance: of "ab", "a" and "a" the list holds the second, the third and the first |
| `SuffixAutomaton.SuffixAutomaton.Remove` | src/suffix_automaton/ascii.rs:523-580 | exactly the first active source with the text becomes inactive, and is no longer listed or counted |
| `SuffixAutomaton.SuffixAutomaton.MatchPositions` | src/suffix_automaton/ascii.rs:748-793 | strictly ascending, and exactly the occurrences in active sources |
| `SuffixAutomaton.SuffixAutomaton.Mark` | src/suffix_automaton/ascii.rs:637-650 | the marked states are exactly the proper ones |
| `SuffixCompact.CompactAutomaton` | src/suffix_automaton/ascii.rs:652-675 | the kept and renumbered states form an automaton, all of whose states are proper |
| `SuffixSources.SweptActive` | src/suffix_automaton/ascii.rs:677-683 | after the sweep a source is active exactly when it was and its text is empty or occurs in no earlier text |
| `SuffixAutomaton.SuffixAutomaton.Compact` | src/suffix_automaton/ascii.rs:631-691 | the language and the texts are kept; exactly the sources whose text occurs in an earlier text are lost, and the sorted list and the string count go on with them |
| `SuffixAutomaton.CompactLosesSource` | src/suffix_automaton/ascii.rs:631-691 | an instance: "ab" and "a" inserted, "ab" removed, compacted; the match of "a" in the remaining source is gone, the source is still listed, cannot be removed, and the string count is still one |
| `WriteLog.LastWriterWins` | src/persistent_artrie/core/recovery.rs:338-345 | replaying publications leaves at every key what the last one wrote |
| `CommittedWatermark.Watermark.MarkCommitted` | src/persistent_artrie/core/committed_watermark.rs:106-123 | after marking, the watermark is the largest LSN up to which all are marked; it never goes back |
| `OrderA.ReachableInv` | README.md:323-335 | what every reachable state of the protocol keeps: phases, durability, ranks, generations, watermark, image |
| `OrderA.PublishKeeps` | src/persistent_artrie/overlay_write_mode.rs:342-416 | publishing on the loaded revision keeps generations in publish order, because the ticket is drawn after the load |
| `OrderA.RankKeeps` | src/persistent_artrie/core/overlay/durable_write.rs:471-478 | appending the rank record binds it to one data record and its generation |
| `OrderA.MarkKeeps` | src/persistent_artrie/core/overlay/durable_write.rs:471-488 | marking after the rank is durable, or burning a refused write, keeps the invariant |
| `OrderA.CaptureKeeps` | src/persistent_artrie/overlay_checkpoint.rs:154-169 | reading the watermark before the root makes the captured root hold every publication it covers |
| `OrderA.CheckpointLogKeeps` | src/persistent_artrie/overlay_checkpoint.rs:284-321 | the checkpoint record never claims more than the image |
| `CrashSafety.PublishedOnce` | README.md:323-334 | each write is published at most once, durable before, in generation order, and on the root it was checked against |
| `WriteModes.PublishedAsAsked` | src/persistent_artrie/overlay_write_mode.rs:369-399 | in every reachable state a published insert found its key absent, a published removal found it present, and a published compare-and-swap found the expected value, on the root before it |
| `WriteModes.RefusedAsAsked` | src/persistent_artrie/overlay_write_mode.rs:369-399 | a refused or burned write found the opposite on the root it loaded; an upsert is never refused |
| `WriteModes.InsertedTwice` | src/persistent_artrie/overlay_write_mode.rs:372-376 | between two published inserts of one key lies a publication that removed it |
| `WriteModes.SwappedTwice` | src/persistent_artrie/overlay_write_mode.rs:378-396 | between a write of another value and a published compare-and-swap lies a publication of the expected value |
| `WriteModes.EveryWriteEnds` | src/persistent_artrie/overlay_write_mode.rs:356-416 | from every reachable state every write can come to its end without another one: acknowledged exactly if what it finds at its key now is what it asks for, and burned otherwise |
| `WriteModes.EveryCheckpointEnds` | src/persistent_artrie/overlay_checkpoint.rs:260-339 | from every reachable state a checkpoint of the root and the watermark as they are can come to its end, its record durable and marked |
| `CrashSafety.WatermarkCommitted` | src/persistent_artrie/core/committed_watermark.rs:1-24 | every LSN up to the watermark is durable; a write there is published and durably ranked, or was refused |
| `CrashSafety.StepGrows` | src/persistent_artrie/core/committed_watermark.rs:91-97 | watermark, durable set, history and ranks only grow |
| `CrashSafety.AcknowledgementOrder` | README.md:323-335 | a write acknowledged before another is appended is published before it |
| `CrashSafety.EffectiveIsCovered` | src/persistent_artrie/mmap_ctor.rs:610-631 | a torn or missing checkpoint record does not matter: the effective checkpoint is the image's own coverage |
| `Recovery.Reconcile` | src/persistent_artrie/core/recovery.rs:290-346 | the replayed records are exactly the ranked ones, or the unranked ones of legacy segments, newer than the checkpoint, sorted by generation and LSN |
| `LegacyRecovery.ReplayedExactly` | src/persistent_artrie/core/recovery.rs:305-338 | a data record is replayed exactly if the checkpoint does not cover it and it is ranked or its segment is of the legacy kind, and then once |
| `LegacyRecovery.OrderedBy` | src/persistent_artrie/core/recovery.rs:305-338 | its place in the order is the generation of its last rank record, or its own LSN where there is none |
| `LegacyRecovery.LegacyInOrder` | src/persistent_artrie/core/recovery.rs:248-253 | a legacy log without ranks recovers to what reading it from the start and doing what each uncovered record says gives |
| `RecoveredOperations.ReconcileOperations` | src/persistent_artrie/core/recovery.rs:290-346 | expanding every record into its operations and sorting these stably gives the operations of the sorted records, one record after the other |
| `RecoveredOperations.StableUnique` | src/persistent_artrie/core/recovery.rs:341-345 | there is only one stable order |
| `CrashSafety.ReconcileReplays` | src/persistent_artrie/core/recovery.rs:296-346 | on any surviving records of a reachable state, reconciling replays exactly the durably ranked writes the image does not cover, in publish order |
| `CrashSafety.UninvertedKeeps` | README.md:316-335 | without an inversion, at a crash with any survivors every acknowledged write's key is recovered from it or from a later publication |
| `CrashSafety.RecoveredValue` | src/persistent_artrie/core/recovery.rs:338-345 | the recovered value of such a key is what that publication wrote |
| `CheckpointInversion.UninvertedAlwaysKept` | src/persistent_artrie/overlay_checkpoint.rs:123-251 | a state without an inversion stays without one as long as its image stays, and no crash loses an acknowledged write |
| `CheckpointInversion.InvertedLoses` | src/persistent_artrie/overlay_checkpoint.rs:123-251 | from a state with an inversion the protocol can go on and crash so that an acknowledged write is lost |
| `CheckpointInversion.SafeExactly` | src/persistent_artrie/overlay_checkpoint.rs:123-339 | for every reachable state: no continuation with this image loses an acknowledged write if and only if the image is not inverted |
| `FileDurability.InversionReachable` | src/persistent_artrie/overlay_checkpoint.rs:154-169 | any two upserts of one key can reach an inversion, also with a log synced in order |
| `CheckpointInversion.NoCheckpointSafe` | README.md:316-335 | without an image acknowledged writes survive every crash |
| `CheckpointInversion.QuiescentCheckpointSafe` | src/persistent_artrie/overlay_checkpoint.rs:260-339 | a checkpoint whose root holds only covered writes is safe |
| `CheckpointInversion.ReopenKeepsAcknowledged` | src/persistent_artrie/mmap_ctor.rs:610-631 | from the surviving records to the recovered map, no acknowledged write is lost, if the image is not inverted |
| `FileDurability.FileIsReachable` | src/persistent_artrie/core/overlay/durable_write.rs:471-488 | a run with a log synced in order is a run of the protocol |
| `FileDurability.UninvertedIsFileUninverted` | src/persistent_artrie/overlay_checkpoint.rs:123-251 | the condition for a log synced in order is the weaker one |
| `FileDurability.FileUninvertedKeeps` | README.md:316-335 | under it a crash that leaves any prefix of the log from the synced one on loses no acknowledged write |
| `FileDurability.FileInvertedLoses` | src/persistent_artrie/overlay_checkpoint.rs:123-251 | without it the protocol can go on and crash so that an acknowledged write is lost |
| `FileDurability.FileSafeExactly` | src/persistent_artrie/overlay_checkpoint.rs:123-339 | for every state reachable with a log synced in order: no continuation with this image loses an acknowledged write if and only if every overtaken write has a later one of its key that is ranked before the overtaker or durably |
| `CounterRecovery.RecoveredCounter` | src/persistent_artrie/core/recovery.rs:235-247 | a recovered counter is the sum of the published increments, each as often as the image holds it and the log replays it |
| `CounterRecovery.TwiceExactly` | src/persistent_artrie/overlay_checkpoint.rs:252-259 | an increment is counted at most twice, and twice exactly if the image holds it without covering it and it is replayed |
| `CounterRecovery.CounterBetween` | src/persistent_artrie/lockfree_cas.rs:1388-1396 | a recovered counter holds at least all acknowledged increments, and at most the published ones if the image covers what it holds |
| `CounterRecovery.OnceExactly` | src/persistent_artrie/overlay_checkpoint.rs:252-259 | for every reachable state: in all continuations with this image and at all crashes acknowledged increments are counted once if and only if the image holds only publications that it covers |
| `CounterRecovery.CountedTwice` | src/persistent_artrie/overlay_checkpoint.rs:163-175 | an instance for every increment: an image taken between its publication and its ranking, and the recovered counter is double |
| `Reopening.NewReplayed` | src/persistent_artrie/mmap_ctor.rs:488-520 | records of the latest opening are replayed from the whole log exactly as from their own, with LSNs and generations shifted |
| `Reopening.OldReplayed` | src/persistent_artrie/mmap_ctor.rs:610-631 | older records are replayed as at the last opening, or none of them once a new image exists |
| `Reopening.RecoversOne` | src/persistent_artrie/core/recovery.rs:296-346 | a disk left by a crash recovers to exactly one map |
| `Reopening.OpenedContents` | src/persistent_artrie/mmap_ctor.rs:597-607 | what the whole log gives is what the latest opening's own records give on the map it began with |
| `RepeatedCrashes.CanReopen` | src/persistent_artrie/mmap_ctor.rs:597-607 | after every crash the trie can be opened again |
| `RepeatedCrashes.ReopenOk` | src/persistent_artrie/mmap_ctor.rs:488-520 | after a crash every key holds what its last recovered writer, of this or an earlier opening, wrote |
| `RepeatedCrashes.ReopenedSafeExactly` | src/persistent_artrie/overlay_checkpoint.rs:123-339 | after any crashes before: no continuation of an opening with its image and no crash of it loses a write acknowledged in this or an earlier opening if and only if the image is not inverted |
| `RepeatedCrashes.CrashesKeepPromises` | README.md:316-335 | after any number of crashes the key of every write ever acknowledged holds what it or a later publication wrote, if no opening's image was inverted when it crashed |
| `DawgGraph.RedirectObserve` | src/dynamic_dawg/core.rs:586-591 | redirecting edges along a congruence changes nothing observable at any node |
| `DawgMerge.MergedCongruence` | src/dynamic_dawg/core.rs:552-584 | the merge map is a congruence for every signature, colliding or not |
| `DawgMerge.FindCanonical` | src/dynamic_dawg/core.rs:563-572 | the first structurally equal canonical candidate, or none exists |
| `DawgMerge.MergeNodes` | src/dynamic_dawg/core.rs:552-584 | every node is mapped to a canonical node like it, and kept nodes differ from the canonical nodes of their signature |
| `DawgMinimal.SameSignature` | src/node_signature.rs:60-88 | live nodes with the same right language, from which the same words lead to each valued node (twins), have the same signature, for every hash and numbering |
| `DawgMinimal.MergedTwins` | src/dynamic_dawg/core.rs:698-738 | nodes merged into one are twins, so a valued node is merged with no other |
| `DawgMinimal.MergesExactly` | src/dynamic_dawg/core.rs:552-584 | in every tidy acyclic graph, merging joins all live twins if and only if the numbering is aligned |
| `DawgReduced.ReducedExactly` | README.md:204-220 | after redirecting and compaction no twins are left if and only if the numbering was aligned |
| `DawgReduced.TwinFreeMeans` | src/dynamic_dawg/core.rs:712-714 | having no twins means: two nodes have the same right language only if a value lies below one of them |
| `DawgSignatures.ComputeSignatures` | src/dynamic_dawg/core.rs:743-783 | in every acyclic graph the depth-first walk computes each live node's signature from those of its children; the others get zero |
| `DawgReduced.FindReachable` | src/dynamic_dawg/core.rs:792-827 | exactly the nodes that paths from the root enter |
| `DawgReduced.Compacted` | src/dynamic_dawg/core.rs:830-849 | exactly those nodes, renumbered in their order |
| `DawgReduced.Minimized` | src/dynamic_dawg/core.rs:546-605 | everything observable is kept, only live nodes are left, and right languages differ but for values if and only if the graph was aligned |
| `DawgStored.HoldsAcyclic` | src/dynamic_dawg/core.rs:211-405 | a tidy graph that stores finitely many words has no circle |
| `DawgStored.PathsArePrefixes` | src/dynamic_dawg/core.rs:390-399 | it has a path for exactly the prefixes of its words |
| `DynamicDawg.Dawg.Minimize` | src/dynamic_dawg/core.rs:539-605 | from every state of the dictionary: the stored words and values stay, and the graph is minimal up to nodes with values below them if and only if the numbering was aligned |
| `DawgRuns.MinimizeMissesPair` | src/dynamic_dawg/core.rs:539-660 | a run: "ap", "bp", minimize, "b", "dp", "d", minimize; two nodes with the right language of "b" and "d" remain |
| `DawgEdit.OnlyWord` | src/dynamic_dawg/core.rs:621-635 | only the path's own word leads to a node of a unique path |
| `DawgEdit.CopyObserve` | src/dynamic_dawg/core.rs:637-660 | copying a shared node changes nothing observable |
| `DawgTidy.CopyTidy` | src/dynamic_dawg/core.rs:637-660 | the copied node is still entered, the copy is, and both lead to a final node |
| `DawgTidy.CutTidy` | src/dynamic_dawg/core.rs:390-399 | a node that pruning cuts off is empty and entered by no path; the others are as they were |
| `DawgRefCounts.CountIsSole` | src/dynamic_dawg/core.rs:637-640 | a reference count of at most one means that no other edge enters the node |
| `DawgRefCounts.CopyCounted` | src/dynamic_dawg/core.rs:642-657 | the counts stay correct when a node is copied |
| `DawgRefCounts.Recompute` | src/dynamic_dawg/core.rs:662-685 | the count of a node is the number of edges into it, plus one for the root |
| `DynamicDawg.Dawg.EnsureUniqueChild` | src/dynamic_dawg/core.rs:637-660 | the child is entered by the path only, and nothing observable changed |
| `DynamicDawg.Dawg.MakePathUnique` | src/dynamic_dawg/core.rs:621-635 | every node of the path is entered by the path only, and nothing observable changed |
| `DynamicDawg.Dawg.AppendNodes` | src/dynamic_dawg/core.rs:238-249 | the new nodes store exactly one more word, and the graph is tidy again |
| `DynamicDawg.Dawg.Insert` | src/dynamic_dawg/core.rs:211-259 | exactly this word is added; true exactly if it was not stored; the three passes give the graph of a single pass from the root that copies shared nodes on the way |
| `DynamicDawg.Dawg.InsertWithValue` | src/dynamic_dawg/core.rs:265-326 | exactly this word is added or gets the value |
| `DynamicDawg.Dawg.Remove` | src/dynamic_dawg/core.rs:363-405 | exactly this word is removed; after pruning every node that a path enters leads to a final node |
| `DynamicDawg.Dawg.Contains` | src/dynamic_dawg/core.rs:329-340 | true exactly for the stored words |
| `DawgExtract.Extract` | src/dynamic_dawg/core.rs:857-896 | the walk over all paths ends and lists every stored word with its value, once |
| `DawgRebuild.InsertDirect` | src/dynamic_dawg/core.rs:899-918 | one more entry in the trie, which stays numbered from the root down, tidy, and with one node for each prefix |
| `DawgRebuild.Rebuild` | src/dynamic_dawg/core.rs:519-534 | for entries in any order the graph stores exactly these, is minimal up to nodes with values below them, and as many nodes were merged as there are more prefixes than nodes |
| `DynamicDawg.Dawg.Compact` | src/dynamic_dawg/core.rs:496-534 | the stored words and values stay and the graph is minimal up to nodes with values below them; what is returned is the nodes removed plus the prefixes that share a node |
| `DawgRuns.CompactOverReports` | src/dynamic_dawg/core.rs:496-534 | a run: "a" and "b", minimized to two nodes; compacting leaves two and reports one removed |
| `LegacySuffix.StepKeeps` | benches/persistent_suffix_native_benchmarks.rs:217-259 | every atomic step of an insert keeps the invariant of the store |
| `LegacySuffix.ReadersExact` | benches/persistent_suffix_native_benchmarks.rs:286-312 | with the writer anywhere between a reader's scans, the matches are exact for the sources published at the first scan |
| `LegacySuffix.LocationsExact` | benches/persistent_suffix_native_benchmarks.rs:314-323 | with the texts read first, the located matches are exact for the sources published then |
| `LegacySuffix.RecordedOnce` | benches/persistent_suffix_native_benchmarks.rs:242-259 | a position of a source is recorded once, under one key |
| `LegacySuffix.EveryInsertEnds` | benches/persistent_suffix_native_benchmarks.rs:217-240 | from every state the text that is being inserted, or any text if none is, can be published |
| `LegacyIndex.SuffixIndex.Insert` | benches/persistent_suffix_native_benchmarks.rs:217-240 | the text is published, whatever the order in which its suffixes are merged |
| `LegacyIndex.SuffixIndex.ActiveSourceIds` | benches/persistent_suffix_native_benchmarks.rs:261-270 | exactly the published ids |
| `LegacyIndex.SuffixIndex.SourceTexts` | benches/persistent_suffix_native_benchmarks.rs:272-284 | the published texts by id |
| `LegacyIndex.SuffixIndex.MatchPositions` | benches/persistent_suffix_native_benchmarks.rs:286-312 | strictly ascending, exactly the occurrences; deduplication has nothing to remove |
| `LegacyIndex.SuffixIndex.Locations` | benches/persistent_suffix_native_benchmarks.rs:443-456 | every match with its text and unit index; the boundary check drops none |
| `LegacyIndex.UnitIndex` | benches/persistent_suffix_native_benchmarks.rs:450-454 | the unit that starts at a byte offset, if the offset is a boundary |
| `Utf8.EncodeShape` | benches/persistent_suffix_native_benchmarks.rs:164-169 | the first byte tells the length and is no continuation byte, all others are |
| `Utf8.DecodeEncode` | benches/persistent_suffix_native_benchmarks.rs:164-169 | decoding undoes encoding |
| `Utf8.ShortestForm` | benches/persistent_suffix_native_benchmarks.rs:434 | every well-shaped sequence that decodes to a character is at least as long as its encoding, and one as long is the encoding; so a match is as wide as it must be |
| `Utf8.OrderAgrees` | benches/persistent_suffix_native_benchmarks.rs:164-169 | texts are in the same order by characters as by the bytes of their encodings |
| `Utf8.RfcExamples` | benches/persistent_suffix_native_benchmarks.rs:164-169 | the encodings that section 7 of RFC 3629 gives |
| `Utf8.LeadIsBoundary` | benches/persistent_suffix_native_benchmarks.rs:451-453 | a byte that is no continuation byte starts a character |
| `Utf8.PrefixAgrees` | benches/persistent_suffix_native_benchmarks.rs:415-441 | a text is a prefix of another exactly when its encoding is |
| `SuffixAlphabets.AlphabetsLawful` | benches/persistent_suffix_native_benchmarks.rs:171-198 | the key spaces are disjoint and source ids have different keys, whatever the texts contain |
| `SuffixAlphabets.KeysInIdOrder` | benches/persistent_suffix_native_benchmarks.rs:178-198 | the keys of source records are in the order of their ids, in both alphabets |
| `SuffixAlphabets.BigEndianNumber` | benches/persistent_suffix_native_benchmarks.rs:181 | a byte key holds its id to base 256, the most significant digit first |
| `SuffixAlphabets.HexDigits` | benches/persistent_suffix_native_benchmarks.rs:196 | hexadecimal digits are 0 to 9 and a to f |
| `SuffixAlphabets.SameMatches` | benches/persistent_suffix_native_benchmarks.rs:286-441 | a match in bytes is a match in characters and the other way round |
| `SuffixAlphabets.SameAnswers` | benches/persistent_suffix_native_benchmarks.rs:286-441 | both indices answer with the same list |
| `EntryCursor.Cursor.Fill` | src/bindings/entries.rs:319-369 | the longest stretch that fits, and an error only if the first entry does not |
| `EntryCursor.CountsAreSizes` | src/bindings/entries.rs:319-369 | what the limits count is the length of the units one after the other, and of the values there are |
| `EntryCursor.Cursor.Next` | src/bindings/entries.rs:508-547 | at most one lease; a batch is the longest next stretch that fits and that the provider is willing to give, under a new generation; exactly when each failure is returned; failures change nothing |
| `EntryCursor.Cursor.Release` | src/bindings/entries.rs:558-572 | succeeds exactly for the live generation |
| `EntryCursor.Cursor.Free` | src/bindings/entries.rs:643-666 | succeeds exactly without a live lease |
| `EntryCursor.Drain` | src/bindings/entries.rs:508-572 | with limits chosen anew for every call: what was taken is the snapshot up to the last cut, in order and once, and why it stopped |
| `EntryCursor.EverySplit` | src/bindings/entries.rs:319-369 | every split of the snapshot into nonempty batches is the one that some limits give |
| `EntryCursor.OnlySplit` | src/bindings/entries.rs:319-369 | limits give only one split |
| `EntryCursor.SplitsExactly` | src/bindings/entries.rs:319-369 | a list of cuts splits the snapshot into nonempty batches exactly if some limits read the whole snapshot so |
| `EntryCursor.DrainSplit` | src/bindings/entries.rs:508-572 | with the limits for a split, draining ends exactly at its cuts and takes everything |
| `EntriesView.View.Begin` | include/libdictenstein.hpp:316-323 | starts the range at its first entry, or ends it, or fails as the first entry decides; an iterator without a batch is handed out exactly when an earlier call failed to lease one |
| `EntriesView.SecondBegin` | include/libdictenstein.hpp:316-323 | an entry too large for the limits: the first call fails, the second hands out an iterator without a batch |
| `EntriesView.View.Advance` | include/libdictenstein.hpp:381-387 | moves by exactly one entry, across batches; after a failed batch it asks again |
| `EntriesView.View.CancelView` | include/libdictenstein.hpp:338-343 | a range that goes on is cancelled in the cursor too, ends, and gives the lease back; otherwise nothing changes; the status is Ok |
| `EntriesView.View.Close` | include/libdictenstein.hpp:345-352 | the cursor is freed without a lease |
| `EntriesView.View.Cleanup` | include/libdictenstein.hpp:397-407 | from every state with a cursor all calls succeed and the cursor is freed without a lease; without one nothing changes |
| `EntriesView.View.MoveFrom` | include/libdictenstein.hpp:409-423 | the cursor has one owner; the position is kept |
| `EntriesView.Traverse` | include/libdictenstein.hpp:316-395 | however the provider splits, a full loop yields the snapshot once and in order; it comes to the end exactly if every entry fits alone, and stops before the first that does not |
| `Traversal.AbiTraversal` | examples/collection_traversal_profile.rs:171-249 | however the provider splits, the checksum of the direct traversal, the sum modulo two to the power of 64; four calls and two per batch; with a provider that ends no batch early as few batches as possible |
| `Traversal.FewestIsCeiling` | examples/collection_traversal_profile.rs:171-249 | as few batches as possible means the entries divided by the batch size, rounded up |
| `Traversal.DirectOwned` | examples/collection_traversal_profile.rs:128-134 | the sum of what the first entries add, modulo two to the power of 64 |
| `Traversal.SumPasses` | examples/collection_traversal_profile.rs:273-293 | summing passes is wrapping multiplication |
| `MeasuringAllocator.StepKeeps` | examples/collection_allocation_profile.rs:29-84 | every step of every thread keeps what is counted of every block, and the largest value in the peak or in a thread that carries it there; the peak never decreases |
| `MeasuringAllocator.CurrentBounded` | examples/collection_allocation_profile.rs:44-84 | the counter exceeds the live bytes by at most the shrinkages not yet counted; without one it does not; with no thread inside the allocator it equals them, if no block is from before the window |
| `CounterLedger.CurrentExact` | examples/collection_allocation_profile.rs:44-84 | through every run the counter is the largest sum of the latest additions and subtractions, over all places where they can begin, blocks from before the window included |
| `CounterLedger.OldBlockFreed` | examples/collection_allocation_profile.rs:58-66 | freeing a block from before the window takes its size off the counter, or all there is |
| `CounterLedger.ForeignExactly` | examples/collection_allocation_profile.rs:58-84 | the counter is known to be exact until the first step that takes off the size of a block from before the window |
| `CounterLedger.PeakChanges` | examples/collection_allocation_profile.rs:29-42 | a step changes the peak exactly if it is a successful exchange, which raises it to the value that the thread counted |
| `CounterLedger.CallsBegin` | examples/collection_allocation_profile.rs:44-84 | a thread outside the allocator can allocate, and reallocate or free what no other thread is busy with |
| `CounterLedger.EveryCallEnds` | examples/collection_allocation_profile.rs:29-84 | from every state a call that has begun can come to its end, its block counted or gone |
| `MeasuringAllocator.PeakExact` | examples/collection_allocation_profile.rs:29-84 | with no thread inside its update the peak equals the largest value the counter ever held |
| `MeasuringAllocator.PeakWasLive` | examples/collection_allocation_profile.rs:29-84 | if no thread was ever between the steps of a shrinking reallocation, the peak is at most the largest number of live bytes |
| `MeasuringAllocator.PeakNeverLive` | examples/collection_allocation_profile.rs:68-84 | a family of runs in which another thread allocates between these steps; the peak exceeds all live bytes exactly if the reallocation shrinks |
| `TermCount.TermsCountLanguage` | benches/volatile_dictionary_benchmarks.rs:125-138 | the recursive count is the number of accepted words |
| `TermCount.LanguageAccepts` | benches/volatile_dictionary_benchmarks.rs:125-138 | the counted set holds exactly the accepted words |
| `TermCount.CountNodeTerms` | benches/volatile_dictionary_benchmarks.rs:125-138 | the walk ends and returns the number of different accepted words, however nodes are shared |
| `TermCount.SharedCounted` | benches/volatile_dictionary_benchmarks.rs:125-138 | an instance: a node that two labels share is visited twice, and both words are counted |
| `Shuffle.ShuffledBlockIds` | benches/eviction_benchmarks.rs:51-63 | the ids shuffled by the picks that the generator makes: from the last position down, what comes to a position stood at its pick, and the pick is the next value modulo the position plus one; a permutation, for every generator |
| `Shuffle.PicksDetermined` | benches/eviction_benchmarks.rs:51-63 | different picks give different permutations |
| `Shuffle.PicksExist` | benches/eviction_benchmarks.rs:51-63 | every permutation comes from some picks |
| `Shuffle.IdsDetermine` | benches/eviction_benchmarks.rs:51-63 | so two shuffles of the ids give the same list exactly if their picks are the same |
| `Shuffle.ShuffledByXorShift` | benches/eviction_benchmarks.rs:51-63 | so with the generator that is used |
| `XorShift.StepBijective` | benches/eviction_benchmarks.rs:56-58 | the generator's step is a bijection of the 64-bit words |
| `XorShift.ShiftLeftValue` | benches/eviction_benchmarks.rs:56-58 | shifting left multiplies the number by a power of two and wraps around |
| `XorShift.ShiftRightValue` | benches/eviction_benchmarks.rs:57 | shifting right divides it |
| `XorShift.StepXor` | benches/eviction_benchmarks.rs:56-58 | the step is linear, so the images of single bits determine it |
| `XorShift.StepOfOne` | benches/eviction_benchmarks.rs:56-58 | from 1 it goes to 1082269761 |
| `XorShift.SeedsStayApart` | benches/eviction_benchmarks.rs:56-58 | different seeds never meet, a nonzero seed never reaches zero |
| `CasBackoff.Backoff.Snooze` | src/nonblocking.rs:23-34 | after n calls the hints are 2^n - 1 up to 7 and 64n - 321 beyond, the yields floor((n - 1) / 8); a saturated step never yields |

## Left out

- SuffixAutomaton.SuffixAutomaton.InsertText: values.
- The Scdawg, the double-array trie, the character and u64 front ends: the same structures over other units.
- WriteLog.LastWriterWins: records that add to a value; these are in CounterRecovery, for counters that are only incremented and do not overflow.
- CheckpointInversion.SafeExactly: a sync makes any one record durable; FileDurability.FileSafeExactly is the version for one file.
- Counters across several openings; rotation and archiving of the log, of which the model keeps all records; records that are corrupt, which end the log.
- Storage failures, and the generation counter of the cursor reaching 64 bits.
- Publications of the root that do not change contents, as by eviction, are spurious failures of the exchange.
- Auto-minimization of the DAWG is a parameter of the insertion, since its threshold is a floating-point ratio; the Bloom filter and the suffix cache.
- DawgRebuild.Rebuild: the entries come in any order, where the code sorts them; which node gets which number is not stated.
- The order in which the cursor produces its entries: the snapshot is a given sequence.
- What an entry adds to a checksum, the exclusive-or of key length and value, is a parameter.
- MeasuringAllocator: threads that are inside the allocator when the window begins or ends; the counter is unbounded.
- Timing, threads, files, memory ordering: every atomic operation is one step.
