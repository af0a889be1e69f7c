# PicoVolt: a verified model

PicoVolt is an embedded SQL engine with multi-version storage, a page undo journal with a change
stream, secondary and full-text indexes, and a single-writer coordinator. This project models those
cores in Dafny and proves what they promise, over every input, every run and every crash point.

`dafny verify dfyconfig.toml` checks everything. The files build on each other in this order.

| Part | Files |
|---|---|
| Shared values and bytes | `Core`, `Bags`, `MapSums`, `Utf8` |
| Page undo journal and change stream | `ChangeCodec`, `JournalProtocol`, `JournalSafety`, `JournalTheorems`, `JournalMixed`, `JournalBudget`, `JournalOps`, `JournalWriter` |
| Marker and backup protocol | `MarkerProtocol` |
| Values, predicates, index ranges, LIKE | `LikeMatch`, `Values`, `IndexRanges`, `Predicates`, `SqlMeaning`, `SecondaryIndexes` |
| Query plans and joins | `IndexedQuery`, `Pushdown`, `Joins`, `JoinMeaning`, `JoinExecution` |
| Versioned page chains | `PageChain`, `PageUpdates`, `Pager` |
| Time travel, constraints | `Versions`, `Uniqueness`, `TableChanges`, `VersionedTable`, `ReadersView`, `RowBytes` |
| Full text and its catalog | `TextIndex`, `TextSearch`, `TextCatalog`, `TextCodec`, `TextListing`, `TextPersistence`, `TextLoader`, `TextSaver`, `SourceDigest`, `IndexEnvelope` |
| Vectors | `VectorIndexes` |
| Byte layouts | `Layouts` |
| Coordinator | `Coordinator` |

## How each part is modelled

**Journal.** The disk is a record of pages, manifest, `active`, committed directories, checkpoint,
`preparing` and `discarded`. Every rename, write and sync is one step of a state machine. A crash may
strike between any two steps, also inside recovery and pruning; it keeps any version of the log
directory and of the manifest since the last directory sync, may lose directory entries that were not
synced, and may leave unsynced pages with any content. The methods of `JournalOps` and `JournalWriter`
are the program: they only take steps of the machine and may stop with an I/O error after any of them.
A workspace may be `reliable`: then no file operation fails, and every operation says exactly when it
succeeds. The marker protocol's workspace has the same switch.

**Queries.** A table is its scan (records with addresses and version stamps) plus ordered indexes. The
reference for every plan is a filtered scan or an unfiltered nested loop; the plans are methods. What a
predicate means under SQL's three truth values (`SqlMeaning`) and how often a join returns a row
(`JoinMeaning`) is defined apart from the evaluator and the loops, and proved of them.

**Tables.** `Pager.Store` holds the page chains of all tables and changes them in place. Each table's
content is the list of its records in append order, and `VersionedTable.LiveTable` runs INSERT, UPDATE,
DELETE, CREATE INDEX and compaction on it under the transaction clock.

**Full text.** A text is its byte length and its list of lower-cased words. Floating-point scoring is a
record of uninterpreted functions, so two searches agree only if they do the same operations in the same
order. A row's fingerprint stands for a collision-free hash.

**Marker protocol.** Every file operation on the workspace root is one step. A crash keeps the operations
since the last sync of the root up to some point; separately, every root entry may survive at an age of
its own.

**Coordinator.** A statement takes a state of an arbitrary type to its successor or declines with an error.
Every database call may succeed, fail, fail after rolling back, fail with an unknown outcome, or unwind. On a
`calm` database only a statement's own refusal goes wrong, and every answer is determined.

**Disagreements with the documentation.** The comment of `cmp_values` (src/db.rs:4398-4402) lists
Null, Int, Text, Blob; the derived order also has Decimal between Int and Text, and the model follows
the derived order. `like_match` is documented as SQL LIKE, but a literal comparison comes before the
wildcard test (src/db.rs:5025), so a `%` in the text can be consumed by a `%` of the pattern as a plain
character: `LikeMatch.AgreesExactlyWithoutPercent` gives the exact condition. A present marker is
documented to have its backup, and data and manifest to be synced before the marker is removed. Both need a
file system that keeps the order of directory entries: backup and marker share one sync
(src/db.rs:3905-3919), so do their removals (src/db.rs:3926-3943), and so do the manifest's rename and the
marker's removal, since `write_manifest_atomic` does not sync the directory (src/db.rs:3691-3705).
No blob file is synced at all in that protocol (src/storage/cas.rs:243-254). `MarkerProtocol.MixedAtomicIff`
gives the exact condition without that order, and `PreparationIsExposed`, `GivingUpIsExposed`, `CommitIsTorn`
and `CommittedBlobsMayBeLost` the disks that break it. The page journal needs the order only for the moment
between a commit's rename and its sync (`JournalMixed.MixedRecoverableIff`).
BETWEEN with one NULL bound is UNKNOWN to the evaluator whatever the other bound says
(src/db.rs:4911-4927); SQL makes it false, and NOT BETWEEN true, when the comparison with the other bound is
false. `SqlMeaning.BetweenAgreesIff` is the exact condition.

Predicate pushdown is documented to keep the answer. It agrees with the unfiltered join for every filter if
and only if the join has no column that a pushed reference misreads (`JoinExecution.PushdownIsExact`, for any
tables whose rows are as wide as their columns): a joined column whose qualified name, unique in the join,
begins with the driving qualifier and a dot, while the rest of that name is unknown to the driving table or
names a cell of it that is not SQL-equal in some joined row. Quoted identifiers may hold dots
(src/engine/query.rs:778-810), so both happen: a valid query is refused (`MisreadRefuses`), or rows are lost
without an error (`MisreadDropsRow`, and `WrongColumnLosesRow` on two one-row tables). When the join resolves,
its columns are distinct and the driving table's own column names hold no dot, the condition is about names
alone (`PushdownIsExactByName`), and the parser's distinct qualifiers meet it when they hold no dot.

## Model

| member | source | states |
|---|---|---|
| ChangeCodec.DecodeOfEncode | src/journal.rs:655-756 | decoding the binary form of any record with page-sized pages and 64-digit hex hashes gives that record back |
| ChangeCodec.EncodeOfDecode | src/journal.rs:680-756 | every byte string the decoder accepts is the encoding of the record it returns, and that record is well formed |
| ChangeCodec.EncodingIsPrefixFree | src/journal.rs:680-756 | no encoding is a proper prefix of another |
| ChangeCodec.DamagedLengthIsRejected | src/journal.rs:680-756 | every truncation at or past the magic and every extension of an encoding is rejected |
| ChangeCodec.EncodeChange | src/journal.rs:655-678 | the writing loop produces exactly the encoding, or stops at the byte limit |
| ChangeCodec.DecodePages | src/journal.rs:708-722 | the page loop over the moving cursor reads exactly what the page reader reads |
| ChangeCodec.DecodeBlobs | src/journal.rs:723-744 | the blob loop over the moving cursor reads exactly what the blob reader reads |
| ChangeCodec.DecodeChange | src/journal.rs:680-756 | the decoder method accepts exactly the encodings and returns the record written |
| ChangeCodec.LimitedBytes.Write | src/journal.rs:427-442 | a limited writer appends or refuses, and never exceeds its limit |
| Layouts.ChangeLayout | src/journal.rs:653-678 | the record is, field by field, the magic, the three numbers, the manifest and its length, the pages with their ids and the blobs with hash, length and bytes |
| Layouts.ChangeOffsets | src/journal.rs:655-678 | the magic is at offset 0, the little-endian sequence at 8, the transaction before at 16 and the one after at 24 |
| Layouts.LittleEndianByte | src/journal.rs:655-678 | byte i of a written number is its i-th lowest byte |
| Layouts.TwosComplement | src/search.rs:305-306 | a signed id is written as its 64-bit two's complement |
| JournalSafety.StepKeepsInv | src/journal.rs:249-527 | every single file operation and every crash keeps the journal invariant |
| JournalSafety.CrashKeeps | src/journal.rs:249-527 | whatever subset of unsynced work survives, the disk a crash leaves satisfies the invariant |
| JournalSafety.CommitKeeps | src/journal.rs:414-424 | renaming `active` to its sequence makes the live pages and manifest the next committed image |
| JournalTheorems.RunKeepsInv | src/journal.rs:249-611 | the invariant holds after every run of steps, with crashes at any point and any number of them |
| JournalTheorems.CrashAnywhere | src/journal.rs:444-527 | after any prefix of any run, any surviving disk is one recovery accepts |
| JournalTheorems.QuiescentDiskIsLastCommit | src/journal.rs:444-527 | whenever no undo journal is active the disk holds exactly the last committed pages and manifest |
| JournalTheorems.HistoryOnlyGrowsByCommits | src/journal.rs:338-424 | durable history is never lost and grows only by the rename of `active` |
| JournalTheorems.CrashAtomicity | src/journal.rs:249-527 | a run with one commit leaves, after recovery, exactly the database before it or exactly the one live at its rename |
| JournalTheorems.EveryImageWasCommitted | src/journal.rs:249-527 | in a run with any number of commits and crashes, every image the history gains was the live database at some rename of `active` |
| JournalTheorems.HistoryIsAnchored | src/journal.rs:124-210 | in every reachable state the retained sequences above the checkpoint are exactly checkpoint+1 up to the anchored head |
| JournalMixed.StepKeepsWindow | src/journal.rs:249-611 | every step and crash keeps what the log versions since the last sync have in common: commits the oldest checkpoint wants are whole under all, and only the first can lack the newest commit |
| JournalMixed.MixedRecoverableIff | src/journal.rs:414-424 | when the log directory's entries may survive at different ages, every disk a crash may leave is one recovery accepts if and only if no commit's rename waits for its sync |
| JournalMixed.RunMixedRecoverableIff | src/journal.rs:249-611 | the same of the state after any run of a freshly logged workspace, crashes included |
| JournalMixed.RenameMayBeLost | src/journal.rs:414-424 | in that moment the renamed directory may survive under neither name, and no committed image is left to recover to |
| JournalTheorems.ReplayAgrees | src/journal.rs:543-586 | replaying the records after a cursor on the database of that cursor gives the later database on every page of the base and of each replayed commit |
| JournalTheorems.ReplayIsExact | src/journal.rs:543-586 | when each commit carries the pages it adds, the replica equals the later database page for page |
| JournalTheorems.RetainedIsStream | src/journal.rs:543-586 | the records kept above the checkpoint lead from each committed image to the next |
| JournalTheorems.ReplayOfRetained | src/journal.rs:543-586 | in every reachable state the records retained after a cursor, replayed on the database of that cursor, give the manifest and the bytes of the last of them on every page of the base and of each of them |
| JournalBudget.HeaderFits | src/journal.rs:249-302 | the staged header never exceeds the bytes reserved for it |
| JournalBudget.HeaderLengthExact | src/journal.rs:212-217 | the length charged for a header is that of its JSON text |
| JournalBudget.DirSizeExact | src/journal.rs:795-821 | the size charged for a transaction directory is that of its files together, each behind a 32-byte checksum |
| JournalBudget.RecordLength | src/journal.rs:655-678 | the exact length of a commit record from its manifest, its page and blob counts and its blob bytes |
| JournalBudget.TreeSize | src/journal.rs:791-821 | walking the log directory adds up the sizes of everything in it |
| JournalOps.Inventory | src/journal.rs:124-210 | for any log and any manifest: succeeds exactly when the log is whole up to a head that the anchor, or without one the newest record, vouches for and the logging marker fits; returns that head, the checkpoint and the sorted sequences; the error is a limit exactly for too many commits |
| JournalOps.Contiguous | src/journal.rs:189-210 | the listing loop accepts exactly the gap-free lists above the checkpoint |
| JournalOps.Workspace.ListHistory | src/journal.rs:124-210 | in every reachable state the inventory succeeds with the head of the committed history |
| JournalOps.Workspace.LosePower | src/journal.rs:444-527 | power loss at any moment: the history is cut to what the surviving log directory names, and the invariant holds |
| JournalOps.Workspace.CleanupInactive | src/journal.rs:531-541 | leftover `preparing` and `discarded` directories go and nothing else changes |
| JournalOps.Workspace.RestorePages | src/journal.rs:496-505 | every undo image is written back and synced |
| JournalOps.Workspace.UndoActive | src/journal.rs:456-526 | restores pages and manifest and retires `active`, in steps each of which can be repeated |
| JournalOps.Workspace.Recover | src/journal.rs:444-527 | fails only on I/O and never on a reliable disk; when it returns the disk is exactly the last committed database without leftovers |
| JournalOps.PowerCycle | src/journal.rs:444-527 | power loss and the next open's recovery, end to end: it fails only on I/O and ends on exactly the newest committed database that survived |
| JournalOps.Workspace.Prune | src/journal.rs:588-611 | the checkpoint is durable before the first directory goes; exactly the sequences up to it are removed; nothing happens below the old checkpoint, and beyond the head it is refused |
| JournalOps.Workspace.RemoveExpired | src/journal.rs:605-610 | an interrupted removal leaves only sequences at or below the checkpoint behind |
| JournalOps.Workspace.Changes | src/journal.rs:543-586 | for a cursor between checkpoint and head and a limit up to 4096: succeeds exactly when the stored sizes of the records of after+1 up to min(head, after+limit) add up to at most 256 MiB, and then returns those records in order; otherwise the error for a pruned or future cursor or an oversized batch |
| JournalOps.CatchUp | src/journal.rs:543-586 | succeeds exactly when the fetch does; fetching what follows a cursor and applying it record by record ends on the database of the last record, on every page of the base and of the fetched commits |
| JournalOps.ReadRecords | src/journal.rs:564-585 | the reading loop returns the retained records of the wanted sequences, exactly when their stored sizes add up to at most 256 MiB |
| JournalWriter.Begin | src/journal.rs:249-302 | an opened journal has the live manifest as before-image and its reservation within both limits; on a disk that does not fail it opens exactly when the options are valid, no transaction is active, a commit slot is free and the reservation fits |
| JournalWriter.Journal.Reserve | src/journal.rs:304-318 | the reservation grows by the request or is refused at either limit |
| JournalWriter.Journal.BeforeWrite | src/journal.rs:320-336 | after it, the page's committed content is durable in `active` or the page is beyond the old page count; a limit refuses it exactly when an untouched page's image does not fit; on a reliable disk nothing else does but a page that cannot be read |
| JournalWriter.Journal.SaveUndo | src/journal.rs:320-336 | one undo image is stored and synced, within the reserved bytes |
| JournalWriter.Journal.Write | src/storage/vle.rs:217-228 | a page write calls before_write first and changes that page alone, or is refused exactly when before_write refuses |
| JournalWriter.Journal.AllocPage | src/storage/vle.rs:186-191 | a new page id is one no touched page has, and the page count covers it |
| JournalWriter.Journal.Flush | src/db.rs:3615-3669 | page data is synced before the manifest that counts it is published |
| JournalWriter.Journal.GatherPages | src/journal.rs:360-370 | the record lists every touched page once with its new content, in ascending order, within the payload budget |
| JournalWriter.Journal.GatherBlobs | src/journal.rs:371-400 | the record lists exactly the new blobs with their contents, and together with what precedes them they are within the budget |
| JournalWriter.Journal.StoreRecord | src/journal.rs:401-413 | the stored record is within the transaction's reservation and the log within its limit; on a reliable disk stored exactly when it fits both |
| JournalWriter.Journal.SwitchOver | src/journal.rs:414-424 | the rename commits; only its failed sync leaves an unknown outcome |
| JournalWriter.Journal.Commit | src/journal.rs:338-424 | on success the live database is the next durable image, its bytes are within the reservation, and the whole log is within `max_retained_bytes`; on a reliable disk it succeeds exactly when the gathered record fits; any error but an unknown outcome leaves the transaction undoable |
| JournalWriter.Journal.FlushAndCommit | src/db.rs:1496-1560 | flushing under the store's page count and committing makes exactly the flushed pages and manifest the next durable image, or leaves the transaction undoable, or an unknown outcome after the rename |
| MarkerProtocol.StepKeepsInv | src/db.rs:3888-4075 | every file operation and every crash of the marker protocol keeps its invariant, which covers each root entry of every disk a crash may leave |
| MarkerProtocol.MarkerImpliesBackup | src/db.rs:3888-3920 | after any run and at any crash point a present marker has the complete committed tree beside it, and recovery can proceed |
| MarkerProtocol.UncommittedLeavesNoTrace | src/db.rs:3921-3944 | until a marker is removed to commit, no run of preparations, mutations, restores, crashes and recoveries changes the tree the workspace settles on |
| MarkerProtocol.CommitIsAtomic | src/db.rs:3990-4004 | a crash while committing leaves the tree before or the tree after, and recovery keeps to it |
| MarkerProtocol.BaseChanges | src/db.rs:3990-4004 | the settled tree changes only by finishing a commit or by a crash between its two ends |
| MarkerProtocol.MixedMarkerIff | src/db.rs:3905-3943 | in a reachable state, when root entries may survive at different ages, a surviving marker has the complete committed tree beside it exactly outside two moments: a marker published and not yet synced, and one taken back and not yet synced |
| MarkerProtocol.ExposedDisk | src/db.rs:4005-4015 | in either moment a crash can leave an intact workspace with a marker and no backup, which recovery refuses |
| MarkerProtocol.PreparationIsExposed | src/db.rs:3888-3920 | the run from an opened workspace to the published marker, and the disk it can leave: the whole committed tree, a marker, no backup, refused by recovery |
| MarkerProtocol.GivingUpIsExposed | src/db.rs:3926-3943 | giving the preparation up removes marker and backup under one sync, so the same disk can be left again |
| MarkerProtocol.MixedAtomicIff | src/db.rs:1512-1560 | in a reachable state every mix of surviving root entries recovers to the tree before or the tree after, with a backup behind every marker, exactly when the marker is not exposed, no older manifest or blobs can outlive the marker's removal, and no other blobs than the committed ones are unsynced |
| MarkerProtocol.RunMixedAtomicIff | src/db.rs:3888-4075 | the same of the state after any run from an opened workspace |
| MarkerProtocol.CommitIsTorn | src/db.rs:3691-3705 | the manifest's rename has no sync of its own: committing other pages under another manifest, a crash can keep the new pages, the old manifest and no marker, and recovery settles on that third tree |
| MarkerProtocol.CommittedBlobsMayBeLost | src/storage/cas.rs:243-254 | finishing a commit does not settle its blobs: after the last sync a crash can still leave the committed pages and manifest with the blobs from before |
| MarkerProtocol.Workspace.Prepare | src/db.rs:3888-3920 | once it succeeds the backup equals the committed tree and the marker is durable |
| MarkerProtocol.Workspace.Commit | src/db.rs:1496-1560 | page data is synced and the manifest renamed in before the marker goes; its removal commits the live tree, a failed sync afterwards is the only unknown outcome, and any earlier failure leaves every possible disk marked and backed by the committed tree |
| MarkerProtocol.Workspace.FlushPages | src/db.rs:3615-3640 | after the flush every disk a crash may leave has the chunk files as they are now, and nothing else changed |
| MarkerProtocol.Workspace.Restore | src/db.rs:4028-4075 | ends with the live tree equal to the backup, no marker and no backup |
| MarkerProtocol.Workspace.RecoverWorkspace | src/db.rs:4005-4027 | never refuses, and ends with the backup if the marker survived and the live tree untouched if it did not |
| LikeMatch.LikeMatchLoop | src/db.rs:5019-5044 | the two-pointer loop terminates on all inputs and returns what its recursive description returns |
| LikeMatch.MatcherIsLike | src/db.rs:5019-5044 | when the text or the pattern has no `%` the loop decides LIKE (section 8.5 of ISO/IEC 9075-2:2003, no escape character) |
| LikeMatch.AgreesExactlyWithoutPercent | src/db.rs:5019-5044 | for a text, the loop agrees with LIKE on every pattern if and only if the text has no `%` |
| LikeMatch.MisreadFails | src/db.rs:5025-5028 | the pattern on which a text with `%` is refused although LIKE accepts it |
| Values.LessTotal | src/core/value.rs:20-40 | exactly one of before, equal, after holds of any two values |
| Values.LessTransitive | src/core/value.rs:20-40 | the value order is transitive |
| Values.JoinKeyIsEquality | src/db.rs:4964-4980 | two values have the same join key exactly when SQL equality with Int/Decimal promotion holds |
| SqlMeaning.EqualityMeans | src/db.rs:4964-4983 | values are equal, and have equal join keys, exactly when they are the same or are numbers of the same quantity |
| SqlMeaning.LessMeans | src/db.rs:4398-4402 | the derived order: NULL, integers, decimals, texts, blobs, texts and blobs in dictionary order |
| SqlMeaning.NumericCmpMeans | src/db.rs:4954-4961 | comparison across types: numbers by quantity, everything else by the derived order |
| SqlMeaning.CheckIsMeaning | src/db.rs:4854-5010 | every predicate evaluates to its SQL meaning under three truth values: AND and OR as minimum and maximum, IN with NULL members, BETWEEN, IS NULL, every comparison, LIKE; a row is kept exactly when that is true |
| SqlMeaning.LikeIsMeant | src/db.rs:4985-5003 | on a text without `%`, LIKE keeps exactly the rows whose cell is like the pattern, and NOT LIKE the others |
| SqlMeaning.ResolvesMeans | src/db.rs:4712-4723 | a predicate is accepted exactly when every column it mentions means one position |
| SqlMeaning.BetweenAgreesIff | src/db.rs:4911-4927 | BETWEEN agrees with its two comparisons joined by AND exactly unless one bound is NULL and the comparison with the other is false |
| IndexRanges.IntersectExact | src/db.rs:4476-4522 | the intersection of two ranges holds exactly the values in both, and is None exactly when it would be improper |
| IndexRanges.NumericExact | src/db.rs:4527-4588 | the integer, decimal and textual ranges of a numeric comparison are disjoint and together exact |
| IndexRanges.ComparisonRangesExact | src/db.rs:4527-4588 | a value lies in the derived ranges exactly when the comparison holds of it; the ranges are pairwise disjoint and proper |
| IndexRanges.IntersectAllInside | src/db.rs:4600-4660 | intersecting the ranges of several conjuncts keeps exactly the values in all of them |
| IndexRanges.IntersectAllDisjoint | src/db.rs:4600-4660 | the intersected ranges stay pairwise disjoint, so no address is listed twice |
| Predicates.ColumnMatchesExact | src/db.rs:4259-4274 | a reference's candidates are the positions of that very name, else, for a bare name no column has, of its qualified forms; each once, in order |
| Predicates.ExactNameResolves | src/db.rs:4249-4274 | with distinct columns an exact name resolves to its own position |
| SecondaryIndexes.RangeExact | src/storage/index.rs:44-75 | a range lists each fitting address once and nothing else |
| SecondaryIndexes.ManyRangesExact | src/db.rs:4591-4680 | disjoint ranges together list each fitting address once |
| SecondaryIndexes.LookupExact | src/storage/index.rs:44-58 | a point lookup lists exactly the addresses under that key |
| SecondaryIndexes.InsertKeepsIndex | src/storage/index.rs:44-50 | inserting a new address keeps the index sorted and complete for the enlarged table |
| IndexedQuery.ConjunctsServe | src/db.rs:4591-4680 | a row that satisfies the predicate lies inside the ranges of every conjunct an index may serve |
| IndexedQuery.EqualityCandidatesExact | src/db.rs:4681-4709 | equality candidates are exactly the addresses whose cell is SQL-equal to the value, each once |
| IndexedQuery.PlannedColumnCovers | src/db.rs:4591-4680 | any indexed column of the plan gives distinct candidates that miss no matching record |
| IndexedQuery.PlanColumns | src/db.rs:4600-4650 | grouping the conjuncts by column keeps every column's ranges covering and disjoint |
| IndexedQuery.IndexCandidates | src/db.rs:4591-4680 | the chosen candidates, when there are any, cover the predicate |
| IndexedQuery.Recheck | src/db.rs:2532-2546 | reading and re-checking covering candidates gives the scan's hits, each once |
| IndexedQuery.CollectMatching | src/db.rs:2517-2560 | whatever index is chosen, the hits are the multiset of the filtered scan, no address repeated; it succeeds exactly when the predicate's columns resolve and else reports a schema error |
| Pushdown.PushedIsImplied | src/db.rs:4415-4472 | on any joined row in which references to the driving relation read SQL-equal cells before and after the join, the whole filter can hold only if the pushed part held of the source row, under three-valued logic |
| Pushdown.PushedResolves | src/db.rs:4415-4472 | if every such reference known after the join is known before it, the pushed part of a filter that resolves after the join resolves before it |
| Pushdown.EqualCellsCheckAlike | src/db.rs:4862-5010 | no comparison, membership, range or NULL test tells SQL-equal cells apart |
| Pushdown.NothingMisread | src/db.rs:4415-4472 | where no later column is misread, every reference to the driving relation is known before the join and reads SQL-equal cells on every row |
| Pushdown.ShadowUnknownBefore | src/db.rs:4415-4472 | a driving table without dotted column names knows no name under which a shadowing column is asked for |
| Joins.JoinKeysExact | src/db.rs:4279-4312 | join keys resolve exactly when one operand names one column on each side, and to those columns, first operand left if possible |
| Joins.OperandOrder | src/db.rs:4276-4312 | which operand is written first matters exactly when both readings resolve, to different columns |
| JoinMeaning.NestedLoopMembers | src/db.rs:2672-2700 | a row is joined exactly when it is a left and a right row whose keys are non-NULL and equal, or, under LEFT JOIN, a left row no right row meets followed by NULLs |
| JoinMeaning.NestedLoopCount | src/db.rs:2672-2700 | and as often as its left part occurs times its right part occurs, or once per left row when padded |
| JoinMeaning.JoinCount | src/db.rs:2608-2700 | the same through any number of joins |
| JoinMeaning.ReferenceCounts | src/db.rs:2584-2715 | the unfiltered join followed by the filter answers exactly when every table, key and reference resolves, and then each row with that multiplicity if the filter is true of it |
| JoinMeaning.ScanRowsExact | src/db.rs:2563-2579 | a scan lists exactly the rows visible at the snapshot, each once, in order |
| Joins.JoinRowsConcat | src/db.rs:2584-2700 | joining a list of rows, through any number of joins, is joining its parts |
| Joins.JoinRowsGrown | src/db.rs:2584-2700 | every joined row begins with the driving row it grew from and is as wide as the columns |
| Joins.PushdownKeeps | src/db.rs:2598-2607 | filtering the driving rows first changes nothing after the final filter, when references to the driving relation read alike on the joined rows |
| JoinExecution.SelectFiltered | src/db.rs:2843-2905 | the filtered scan's rows as a multiset, whatever index served them |
| JoinExecution.BuildBuckets | src/db.rs:2655-2671 | the build scan's bucket of a key holds exactly the rows with that normalised key, in order |
| JoinExecution.Probe | src/db.rs:2750-2771 | one index probe gives the same bucket as the build scan, as a multiset |
| JoinExecution.IndexedJoinMap | src/db.rs:2726-2774 | the probed map serves every left key as the build scan would |
| JoinExecution.ExecuteJoin | src/db.rs:2617-2700 | one join by buckets gives the multiset of the nested loop, INNER or LEFT |
| JoinExecution.SelectJoin | src/db.rs:2584-2715 | for any number of joins it has the outcome, the columns and the multiset of rows of the pushed path, and unless a column is misread those of the unfiltered nested-loop join followed by the filter: answered exactly when every table and reference resolves, each row as often as driving rows, matches and NULL paddings make it and the filter is true of it |
| JoinExecution.PushdownIsExact | src/db.rs:2598-2607 | pushed path and reference agree for every filter if and only if the unfiltered join has no column a pushed reference misreads |
| JoinExecution.PushdownIsExactByName | src/db.rs:2598-2607 | when the join resolves, its columns are distinct and the driving columns dot-free: they agree for every filter if and only if no joined column's qualified name begins with the driving qualifier and a dot |
| JoinExecution.MisreadRefuses | src/db.rs:4415-4472 | a shadowing column unknown to the driving table has a filter the reference answers and the pushed path refuses |
| JoinExecution.MisreadDropsRow | src/db.rs:4415-4472 | a shadowing column whose pushed name reads another cell has a filter under which the pushed path loses a row of the answer |
| JoinExecution.WrongColumnLosesRow | src/engine/query.rs:778-810 | two one-row tables with quoted dotted names on which that happens |
| JoinExecution.DotFreeIsUnshadowed | src/engine/query.rs:2057-2082 | the parser's distinct qualifiers, when dot-free, rule shadowing out |
| PageChain.StrictWalkIsLoose | src/db.rs:5804-6011 | on any stored bytes, whatever `scan` accepts `scan_envelopes` accepts with the same records |
| PageChain.WalkExact | src/db.rs:5804-6011 | on any stored bytes a walk succeeds, with these records, exactly when the pages linked from the first one end, are at most one more than are stored, have addressable slots and, for `scan`, rows of the table's width, include the tail and nothing after it, and have the declared numbers of cold pages and versions |
| PageChain.ScanNeverFails | src/db.rs:5804-6011 | a walk over a sound chain never meets its cycle, tail, cold-count or version-count error and lists all records in append order |
| PageUpdates.AddToTail | src/db.rs:5727-5731 | a record that fits the tail is one more at the end under a new address |
| PageUpdates.ExtendChain | src/db.rs:5732-5748 | linking a fresh page keeps every record at its address |
| PageUpdates.PatchStored | src/db.rs:6014-6047 | tombstoning on a row or cold page changes that record's stamp alone |
| PageUpdates.PackPage | src/db.rs:3440-3500 | rewriting a full page in cold form keeps every record at its address |
| PageUpdates.ContentDistinct | src/core/types.rs:132-145 | every record of a chain has an address of its own |
| PageUpdates.NamedExact | src/db.rs:5752-5801 | addresses name exactly the records of the scan |
| Pager.WalkChain | src/db.rs:5804-5917 | the walking loop returns what the walk's definition returns, on any stored bytes |
| Pager.CollectIds | src/db.rs:5565-5636 | the ownership walk accepts a sound chain and returns exactly its pages |
| Pager.AppendChain | src/db.rs:5714-5749 | in all three cases the record is appended, and only the table's own or new pages change |
| Pager.PatchChain | src/db.rs:6014-6047 | succeeds exactly on addresses the scan lists |
| Pager.CompactChain | src/db.rs:3386-3512 | visits exactly the next unvisited pages before the tail, up to its budget, and changes no record |
| Pager.Store.Scan | src/db.rs:5804-5917 | never fails and lists every version in append order |
| Pager.Store.ScanEnvelopes | src/db.rs:5921-6011 | lists the envelopes of the scan, in the same order |
| Pager.Store.Append | src/db.rs:5714-5749 | one record more at the end of one table; every other table unchanged |
| Pager.Store.Tombstone | src/db.rs:6014-6047 | stamps exactly the addressed record of one table, or refuses and changes nothing |
| Pager.CompactStep | src/db.rs:3363-3516 | a pass over all tables changes no record and takes exactly its budget from the pages no earlier pass visited |
| Versions.TimeTravel | src/engine/mvcc.rs:54-80 | writes that begin once the clock has reached a moment leave the row sequence read as of that moment identical |
| Versions.AsOfIsVisible | src/core/types.rs:237-241 | reading as of a moment lists exactly the versions inserted by then and not deleted until after it, each once, in scan order |
| Versions.TombstoneIsFinal | src/db.rs:6014-6047 | a tombstoned version keeps its stamp through every later write |
| Versions.EvolvesTransitive | src/db.rs:2412-2512 | any sequence of such writes is again one |
| Uniqueness.SingleIsNoClash | src/db.rs:2186-2210 | no key is held twice by live rows exactly when no two live rows are SQL-equal in the column |
| Uniqueness.HitsAreCounted | src/db.rs:2343-2360 | the number of visible rows an equality filter returns is the count of the value's key |
| TableChanges.GoodIsUnique | src/db.rs:2318-2366 | in every reachable state no two visible rows share a non-null unique value under promoted equality |
| TableChanges.InsertGood | src/db.rs:2412-2450 | inserting an allowed row with free keys keeps indexes complete and all constraints true |
| TableChanges.DeleteGood | src/db.rs:2496-2512 | tombstoning a live row keeps indexes complete and all constraints true |
| TableChanges.CompatibleSnoc | src/db.rs:2318-2366 | one more row of a batch is compatible exactly when its keys are new to table and batch |
| TableChanges.UpdateCompatible | src/db.rs:3052-3073 | the update's count test is exactly whether its outcome keeps every unique column |
| VersionedTable.ValidateRow | src/db.rs:2369-2399 | accepts exactly rows of the right width and size that meet NOT NULL and make no CHECK false |
| VersionedTable.ValidateKeys | src/db.rs:2318-2366 | accepts exactly rows whose unique keys are new to the table and to the pending batch |
| VersionedTable.ValidateBatch | src/db.rs:1844-1863 | accepts exactly the batches that break no constraint |
| VersionedTable.ValidateUpdate | src/db.rs:3036-3083 | accepts exactly the updates whose outcome breaks no constraint |
| VersionedTable.ValidateUnique | src/db.rs:2186-2210 | the quadratic search finds a duplicate exactly when one exists |
| VersionedTable.BuildIndex | src/db.rs:2217-2255 | an index filled by a scan is complete |
| VersionedTable.LiveTable.Select | src/db.rs:2563-2579 | exactly the rows inserted by then and not deleted until after it, each once, in scan order |
| VersionedTable.LiveTable.Insert | src/db.rs:1834-1870 | single and batch inserts are accepted exactly when no constraint breaks; a refused batch changes nothing |
| VersionedTable.LiveTable.DeleteWhere | src/db.rs:2463-2512 | exactly the visible matching rows are tombstoned, under one transaction, and counted |
| VersionedTable.LiveTable.UpdateWhere | src/db.rs:3015-3116 | matching rows are tombstoned and their replacements appended; refused exactly when the outcome would break a constraint, and then nothing changes |
| VersionedTable.LiveTable.CreateIndex | src/db.rs:1818-1836 | succeeds exactly when the column exists and, for a unique index, no two visible rows are equal in it |
| VersionedTable.LiveTable.Compact | src/db.rs:3363-3516 | compaction changes no version of any row |
| ReadersView.InsertShows | src/db.rs:2412-2450 | after an INSERT a reader sees everything seen before and then the new rows in their order |
| ReadersView.DeleteShows | src/db.rs:2463-2512 | after a DELETE a reader sees exactly the rows seen before of which the predicate is not true, in their order |
| ReadersView.UpdateShows | src/db.rs:3015-3116 | after an UPDATE a reader sees the untouched rows in their order and then the matched ones with the new cell |
| RowBytes.RecordLengthExact | src/db.rs:4729-4759 | the length the shape check computes beforehand is the length of the encoded record |
| RowBytes.RowRoundTrip | src/storage/record.rs:71-160 | decoding the encoded fields of any row gives the row back, with long texts and blobs from the blob store |
| VersionedTable.Run | src/db.rs:2412-3116 | after any run of statements and compaction passes, reading as of an earlier moment is identical, every stored version meets its constraints and every index is complete |
| TextIndex.TransposeUnique | src/search.rs:38-46 | the documents determine the postings |
| TextIndex.PostingsAreTranspose | src/search.rs:66-124 | after any updates the postings are the transpose of the documents |
| TextIndex.FrequenciesAddUp | src/search.rs:75-80 | word counts are positive and add up to the document's length |
| TextIndex.FrequenciesCount | src/search.rs:75-80 | a word's frequency is the number of times it occurs |
| TextIndex.SearchIndex.Upsert | src/search.rs:66-106 | the document replaces the old one everywhere exactly when the limits allow; otherwise nothing changes |
| TextIndex.SearchIndex.Remove | src/search.rs:109-124 | the document leaves documents, postings and totals |
| TextSearch.Search | src/search.rs:127-170 | the first `limit` entries of a list sorted by higher score, then ascending id, which holds, each once, exactly the documents with every query term, scored by their sums over the rarest terms first |
| TextSearch.HoldersOfAll | src/search.rs:140-152 | a term's posting list is exactly its holders among all documents, and is absent exactly when there are none |
| TextSearch.SearchFiltered | src/search.rs:226-287 | same hits, scores and order as searching an index of only the selected documents, and so the ranked answer over them |
| TextSearch.AnswerRestricted | src/search.rs:226-287 | restricting the corpus in place and rebuilding it give the same lists in the same order, hence the same sums |
| TextSearch.SortIsStable | src/search.rs:145-145 | lists are sorted by document frequency and equal ones keep their order |
| TextSearch.FindIsRanked | src/search.rs:127-170 | for any strict weak order of scores the answer is the best `limit` documents, ranked |
| TextSearch.SortRanks | src/search.rs:167-167 | inserting hits one by one gives the ranking of them all |
| TextCatalog.Build | src/search.rs:173-222 | building from rows in any order succeeds exactly when ids are distinct and the corpus fits, with exactly those documents |
| TextCatalog.SelectedIds | src/retrieval.rs:182-219 | succeeds exactly for distinct ids all known to the index; an unknown id is corruption exactly when no repeated id or surplus comes first |
| TextCatalog.TextHits | src/retrieval.rs:222-256 | a named index that is current for the rows answers exactly as the unnamed path that rebuilds |
| TextCatalog.ApplyRun | src/persistent.rs:669-731 | through a run of statements the maintained entry stands for the table's rows, up to the first statement that cannot be applied |
| TextCatalog.NamedAfterRun | src/retrieval.rs:222-256 | after any run of applied statements a named search over any rows of the table answers exactly as the unnamed path that rebuilds |
| TextCatalog.Entry.Add | src/persistent.rs:640-668 | refused exactly when the id is taken or the larger corpus breaks a limit |
| TextCatalog.Apply | src/persistent.rs:669-731 | succeeds exactly when the statement's rows fit the entry and the limits, and then the entry stands for the rows after the statement |
| TextCatalog.Rebuild | src/persistent.rs:640-668 | a fresh entry fed the current rows in any order never meets a limit and equals the maintained one in sources, bytes, documents and postings |
| TextCatalog.EntriesAgree | src/persistent.rs:669-731 | the rows determine an entry's sources, byte total and documents |
| TextCodec.ListingRead | src/search.rs:289-407 | reading back a written listing gives it, with nothing left over |
| TextCodec.ListingWritten | src/search.rs:320-407 | accepted bytes are exactly the listing's written form |
| Layouts.TextLayout | src/search.rs:289-318 | the saved index, field by field |
| RowBytes.Utf8Exact | src/search.rs:349-354 | the check on stored terms accepts exactly the byte strings that encode characters |
| TextListing.EntriesCanonical | src/search.rs:289-318 | a list with ascending ids and terms is the one its documents are written as |
| TextListing.DocsFromExact | src/search.rs:380-407 | the running totals of a decoded list are the totals of its documents |
| TextPersistence.DecodeOfEncodeIndex | src/search.rs:289-407 | loading what was saved gives the same documents, whenever saving succeeds |
| TextPersistence.EncodeOfDecodeIndex | src/search.rs:319-407 | accepted bytes are a valid index and re-encode to themselves |
| TextPersistence.LoadingIsInjective | src/search.rs:319-407 | two byte strings that load to the same index are equal |
| TextLoader.TakeTerms | src/search.rs:348-374 | the term loop, with its running order, count and length checks, accepts exactly the terms that pass them as a whole |
| TextLoader.TakeDocs | src/search.rs:331-399 | the document loop accepts exactly the lists whose ids ascend and whose running totals stay within the declared ones |
| TextLoader.LoadIndex | src/search.rs:320-407 | the decoder over the moving cursor accepts exactly the canonical bytes and returns their documents |
| TextSaver.WriteDocs | src/search.rs:305-317 | the writing loop appends exactly the documents' bytes or meets the size limit |
| TextSaver.SaveIndex | src/search.rs:289-318 | a valid index is written in its canonical form, or refused exactly when its entries or bytes exceed the limits |
| IndexEnvelope.DecodeOfEncodeEnvelope | src/persistent.rs:742-769 | an encoded envelope decodes to itself |
| IndexEnvelope.EncodeOfDecodeEnvelope | src/persistent.rs:818-860 | an accepted envelope is exactly the encoding of what it decodes to |
| Layouts.EnvelopeLayout | src/persistent.rs:742-768 | the envelope, field by field |
| Layouts.SourceLayout | src/persistent.rs:732-741 | what the source digest hashes, field by field |
| SourceDigest.DigestTellsSources | src/persistent.rs:732-741 | two entries have the same source digest exactly when their sources are the same, unless the hash collides on the two lists |
| IndexEnvelope.LoadingAcceptsSaved | src/persistent.rs:770-792 | the comparisons of `verify_loaded` accept what an entry with the same definition, sources and documents wrote, and load those documents |
| IndexEnvelope.LoadingIsSound | src/persistent.rs:770-792 | whatever `verify_loaded` accepts carries exactly the rebuilt documents |
| IndexEnvelope.LoadingTellsSources | src/persistent.rs:770-792 | what an entry saved is accepted by a rebuilt one of the same definition if and only if sources and documents are the same, unless the hash collides |
| VectorIndexes.VectorIndex.Upsert | src/vector.rs:54-72 | accepted exactly when the outcome is within the limits; otherwise the old vector stays |
| VectorIndexes.DecodeOfEncodeVectors | src/vector.rs:141-215 | loading what was saved gives the same vectors; the extent arithmetic never refuses it |
| VectorIndexes.EncodeOfDecodeVectors | src/vector.rs:158-215 | accepted bytes are a valid index and re-encode to themselves |
| VectorIndexes.WrittenLength | src/vector.rs:180-192 | the written length is the extent the decoder computes from count and dimensions |
| Layouts.VectorLayout | src/vector.rs:141-157 | the saved vectors, field by field |
| VectorIndexes.VectorOkMeans | src/vector.rs:54-62 | a vector is accepted exactly when it has the declared dimensions, no component is an infinity or a NaN, and for the cosine some component is not zero of either sign |
| Coordinator.Database.Transact | src/db.rs:1374-1419 | completes and commits, or leaves no trace unless the outcome is unknown; on a calm database the statement's own outcome decides |
| Coordinator.Database.AtomicMutation | src/db.rs:1650-1673 | a failed statement takes the whole open transaction with it |
| Coordinator.FinishFailed | src/concurrent.rs:1298-1317 | the worker may go on only when no transaction is open and the state is the one before the write |
| Coordinator.RunWrite | src/concurrent.rs:1243-1296 | accepted: the whole effect; refused with a known outcome: no trace; otherwise the worker stops; on a calm database accepted, or refused with the statement's own error |
| Coordinator.ServeSession | src/concurrent.rs:1156-1241 | a session's queries take effect together at its commit or not at all; an explicit rollback is confirmed unless rolling back failed; on a calm database the first step that is no effective query decides the answer |
| Coordinator.Execute | src/concurrent.rs:750-870 | after any command the worker goes on only with no open transaction and an explained state; only a prune may have acted and still be refused; transaction control is always refused and the worker goes on |
| Coordinator.RunWorker | src/concurrent.rs:750-799 | whenever the next command is taken no transaction is active and the state is the fold of the accepted commands; nothing runs after a panic or an unknown outcome; no control statement is ever accepted; a calm worker answers every command as its state decides |

## Left out

- SQL parsing, projection, grouping, ordering and limits of SELECT: they would add easy members after the join and filter.
- Floating-point values of BM25, cosine and distances: scores stay uninterpreted, so vector ranking is not modelled beyond its index.
- Page headers and slots, checksums, page cache eviction, content-addressed storage and columnar compression: pages are decoded records, and packing is assumed to be inverted by unpacking. Whether a packed page came out smaller is a free choice.
- Table reopening, DROP TABLE and baking to a file: the chains are those of one open writable handle.
- Resource failures inside table statements: an I/O error there is rolled back by the transaction the journal and the coordinator model.
- Logs without a sequence anchor: `Inventory` is exact for them, and the run theorems are for anchored workspaces.
- Legacy JSON commit records, symlink and permission checks, deadlines and the byte walk's depth limit.
- Blobs of a commit record: a given map of new blobs; their hashes are not recomputed.
- JournalWriter.Journal.Write: takes an allocated page id, as `alloc_page` hands them out; `write_page` itself does not look at the page count.
- JournalWriter.Journal.Flush: takes a manifest that counts the store's pages, as `build_manifest` writes it (src/db.rs:3760).
- MarkerProtocol.Workspace.Commit: its ordered crashes take a synced root to settle blob files too; `MixedAtomicIff` does not.
- JournalWriter.Journal.SaveUndo: the temporary file a failed save leaves beside the undo images is not counted in the log's bytes.
- Readers' permits and snapshot images of the coordinator: counters and copies without a hard invariant; an exported checkpoint is a read.
- VectorIndexes.DecodeOfEncodeVectors: the vector codec is a function on byte strings, not a cursor; cursors are modelled for the commit record and the text index.
- JSON form of index definitions: a definition is its canonical bytes with a given kind tag.
- TextCatalog.Apply: generation numbers, dirty flags and the definition's own validation are not modelled.
- Query budgets, streaming aggregates, ORDER BY through an index, encryption, upgrade, migration and the language bindings.
