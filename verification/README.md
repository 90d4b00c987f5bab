# Verified model of the vendored LevelDB and nanopb

This project models, in Dafny, the two libraries vendored under `Pods/`: LevelDB, a multi-version
log-structured merge store, and nanopb, a Protocol Buffers encoder and decoder. It proves what the
hard parts of both are for. `dafny verify dfyconfig.toml` checks everything.

What holds, in the system's own terms:

- **The store forgets nothing a reader may ask for.** Writes, memtable switches, flushes, snapshots,
  trivial moves and compactions (with flushes inside them) form a state machine (`Store`) with every
  step the code can take. A run keeps levels sorted and disjoint, older entries deeper, and every read
  at a held snapshot or at the latest sequence number what the full history says, if and only if every
  compaction it installs is sound. That history reads as the map its updates build one after the other
  (`Writes`). Compaction input selection (`Selection`), the input iterator
  (`CompactionInput`), the merge loop (`CompactionModel`, `Outputs`), the version edit (`Builder`,
  `Install`, `Flush`) and the layered lookup (`VersionModel`, `Lookup`) are modelled as the code runs
  them and tied to that machine.
- **Where the code falls short, exactly when.** Three promises fail, each with its input and its exact
  condition. Dropping a tombstone is invisible if and only if nothing is exposed
  (`Install.VersionInvisibleIff`), which takes a boundary file left behind
  (`Install.OnlyBoundaryKeyExposed`); a selection the code makes resurfaces a deleted key
  (`Anomalies.DeletedKeyResurfaces`). A flush to the output level of a manual compaction
  (`Anomalies.FlushLandsInGap`) leaves that level sorted if and only if no output reaches across the
  flushed file, and whatever the cut if and only if all that is kept lies on one side of it
  (`OutputCuts`). The log writer moves its block offset on when an append fails, and the store goes on
  writing: later records, acknowledged sync writes among them, are read back if and only if the offset
  still agrees with the file and nothing is torn (`LogFaults`, `Recovery.SyncedRecordLost`).
- **Reading around concurrent changes.** Skiplist searches are linearizable at their last link read
  (`SkipList`). Any sequence of iterator calls over any sorted sources is a cursor over the visible
  map (`Merger`, `DbIter`, `TwoLevel`), and over a state of the store it is a cursor over the history
  (`Scan`).
- **Commits are atomic, ordered and durable.** In every interleaving of writers no snapshot sees part
  of a committed batch (`GroupCommit`, `WriteQueue`); a log cut at any byte yields exactly its whole
  records (`Log`); together, a successful sync write survives a crash if no write to its log file had
  failed before it (`WriteBatch`, `Recovery`). The reader returns nothing whose checksum does not match,
  and a damaged byte costs only the records around it (`LogDamage`).
- **Files.** Garbage collection never deletes a needed table or log, so no update is lost (`FileGc`); the manifest replays to
  the same version (`VersionEdit`, `Replay`); a table lookup needs one block (`Table`, `Bytewise`);
  blocks and their byte-level iterator read back (`Block`); filters hide nothing (`FilterBlock`,
  `Bloom`); the cache keeps its books (`LruCache`, `HandleTable`).
- **nanopb.** Sizing equals writing, through nested messages and packed arrays (`ProtoEncode`), and
  decoding an encoding restores the message, also with an older or a newer descriptor (`ProtoDecode`,
  `ProtoRoundTrip`); no input makes the decoder write past the struct (`ProtoSafe`).

How it is modelled:

- User keys of the store are ordered by a caller's comparator. Only the order is used, so they are
  `real` numbers: every countable total order embeds in them. Formats work on bytes.
- Code under a mutex is one step of a state machine; wherever the code unlocks, other steps may come
  between. Auxiliary state (the history of writes, finished groups, the walk over a skiplist level)
  is recorded by steps and read by none.
- Objects the code changes in place are classes with the same fields; loops are loops. Lists and
  dictionaries are fields of type `seq` and `map` that methods reassign.
- Randomness, sizes that decide when to cut a block or a file, and failures of the file system are
  parameters or separate steps.

## Model

| member | source | states |
|---|---|---|
| Format.SeekFindsNewest | Pods/leveldb-library/db/memtable.cc:101-135 | Seeking to (user key, snapshot) in any run sorted by InternalKeyComparator lands on the newest entry of that key at or below the snapshot, or proves the run has none. |
| VersionModel.FindFile | Pods/leveldb-library/db/version_set.cc:87-105 | The binary search splits the files: all before the index end before the key, all from it on end at or after it. |
| VersionModel.SomeFileOverlapsRange | Pods/leveldb-library/db/version_set.cc:121-156 | The linear scan for overlapping levels and the single binary search for sorted ones give the same answer: whether any file overlaps the range, open ends included. |
| VersionModel.GetOverlappingInputs | Pods/leveldb-library/db/version_set.cc:498-538 | Terminates although it restarts; at level 0 the result is exactly the files overlapping the least closed range around the request, at other levels exactly the files overlapping the request. |
| VersionModel.PickLevelForMemTableOutput | Pods/leveldb-library/db/version_set.cc:470-495 | The level chosen is 0, or one such that the flushed range overlaps no file of any level down to and including it: new data never goes beneath old. |
| Lookup.SearchLevelZero | Pods/leveldb-library/db/version_set.cc:281-305 | Trying the level-0 files that cover the key newest first, stopping at the first hit, finds the newest entry over all level-0 files. |
| Lookup.SearchSortedLevel | Pods/leveldb-library/db/version_set.cc:306-322 | In a sorted level one binary-searched file decides, also when the versions of the key are cut between two files. |
| Lookup.SearchVersion | Pods/leveldb-library/db/version_set.cc:324-400 | Level by level, stopping at the first hit, answers for all the entries of a version whose deeper levels hold only older entries. |
| Lookup.Get | Pods/leveldb-library/db/db_impl.cc:1110-1155 | Memtable, immutable memtable, level 0, deeper levels, first hit wins: the result is the read of the flat set of all their entries. |
| Selection.FindLargestKey | Pods/leveldb-library/db/version_set.cc:1303-1317 | None exactly for an empty list, otherwise the greatest largest key. |
| Selection.GetRange | Pods/leveldb-library/db/version_set.cc:1182-1204 | The least smallest and greatest largest key of the inputs. |
| Selection.FindSmallestBoundaryFile | Pods/leveldb-library/db/version_set.cc:1321-1338 | Of the files starting after the key within the same user key, the one that starts first; none exactly when there is no such file. |
| Selection.AddBoundaryInputs | Pods/leveldb-library/db/version_set.cc:1355-1378 | Terminates, adds no duplicate, each file added is the first that continues the last user key so far, none such is left out, and a contiguous run stays contiguous. |
| Selection.RunIsOldest | Pods/leveldb-library/db/version_set.cc:1340-1378 | Files of a sorted level outside a boundary-closed run hold, for any user key they share with it, only newer entries. |
| Selection.ClosedRangeIsOldest | Pods/leveldb-library/db/version_set.cc:507-537 | At level 0 the files outside a closed range share no user key with those inside. |
| Selection.TryExpand | Pods/leveldb-library/db/version_set.cc:1393-1424 | The level inputs grow to all files around the compaction range, boundary-closed, exactly when these are more, the total stays below the limit, and the next-level inputs do not change. |
| Selection.SetupOtherInputs | Pods/leveldb-library/db/version_set.cc:1380-1439 | The inputs are the closed seed, or its expansion if anything below overlaps it; they are oldest in their level and stay in file order, and the next-level inputs are exactly the files overlapping their hull. |
| Selection.PickCompaction | Pods/leveldb-library/db/version_set.cc:1247-1301 | Every automatically picked compaction starts from the file the trigger names or the first past the pointer, is a good selection, and the user-key ranges of its inputs leave no gap. |
| Selection.CompactRange | Pods/leveldb-library/db/version_set.cc:1441-1472 | A manual compaction of any range starts from all overlapping files at level 0, elsewhere from as many as the size limit allows, and is a good selection set up from these, or there is nothing to compact. |
| Selection.TruncateToSize | Pods/leveldb-library/db/version_set.cc:1452-1466 | The leading files up to the first that reaches the limit, never none. |
| CompactionModel.Compaction.IsBaseLevelForKey | Pods/leveldb-library/db/version_set.cc:1510-1529 | For user keys asked in order, the cursors that only move forward give the answer of a full scan of all deeper levels. |
| CompactionModel.AdvanceCursor | Pods/leveldb-library/db/version_set.cc:1514-1526 | One level of that check: the cursor passes only files that end before the key. |
| CompactionModel.DoCompactionWork | Pods/leveldb-library/db/db_impl.cc:899-1009 | The loop that carries the current user key and its last sequence number keeps exactly the entries that are neither hidden by a newer old entry nor droppable tombstones, in order, however outputs are cut. |
| CompactionModel.CompactionAt | Pods/leveldb-library/db/db_impl.cc:951-992 | A key reads the same, at every snapshot from a horizon no older than the smallest snapshot on, if it exposes nothing there; if it does, its read at the horizon changes. |
| CompactionModel.InvisibleIffNothingExposed | Pods/leveldb-library/db/db_impl.cc:951-992 | Dropping changes no read from any such horizon on if and only if no key has a dropped tombstone as its newest entry there and a value left outside the inputs. |
| Install.SelectionGivesInputsOk | Pods/leveldb-library/db/version_set.cc:1380-1424 | A good selection leaves room below: next-level files that stay lie beside the inputs and share no user key with what comes down. |
| Install.OutputLevelSortedIff | Pods/leveldb-library/db/db_impl.cc:869-885 | For any cut of the outputs, the output level is sorted after the install if and only if no output reaches across a file of that level that stays. |
| Install.ReplacedVersionOk | Pods/leveldb-library/db/db_impl.cc:869-885 | Replacing the inputs by the outputs keeps levels 1 and up sorted and disjoint, and older entries deeper, if and only if the outputs fit that way. |
| Install.ReplacedContents | Pods/leveldb-library/db/db_impl.cc:869-885 | The new version holds exactly the old entries without the input entries, plus the output entries. |
| Install.OlderOutside | Pods/leveldb-library/db/version_set.cc:1510-1529 | For a key with no deeper file, an entry outside the inputs older than an input entry can only sit at the output level behind a chosen file of that level. |
| Install.NoOlderOutside | Pods/leveldb-library/db/version_set.cc:1510-1529 | With a clean cut of the next level there is none. |
| Install.VersionInvisibleIff | Pods/leveldb-library/db/db_impl.cc:899-1009 | For every selection the code can make and every cut of the outputs, installing changes no read at or above a horizon if and only if nothing is exposed there. |
| Install.OnlyBoundaryKeyExposed | Pods/leveldb-library/db/version_set.cc:1380-1424 | In file ranges: only the last user key of the next-level inputs can be exposed, and only if a file of that level that continues this key was left behind. |
| Outputs.RunsMakeLevel | Pods/leveldb-library/db/db_impl.cc:869-885 | Cutting a sorted output anywhere gives sorted, disjoint files that hold the same entries. |
| Outputs.RunCompaction | Pods/leveldb-library/db/db_impl.cc:887-1045 | A whole compaction over the merged inputs: the files produced are sorted, disjoint, and hold exactly what is to be kept. |
| CompactionInput.SourcesMergeInputs | Pods/leveldb-library/db/version_set.cc:1214-1245 | Level-0 inputs one by one and the inputs of a deeper level as one child each: the children are sorted, share no internal key, and their merge is every input entry in order. |
| CompactionInput.ReadInputs | Pods/leveldb-library/db/version_set.cc:1214-1245 | Reading the input iterator from its first entry to its end yields exactly that. |
| CompactionInput.StartGivesStarted | Pods/leveldb-library/db/version_set.cc:1247-1301 | Every compaction the store starts has inputs this holds for. |
| CompactionInput.Compact | Pods/leveldb-library/db/db_impl.cc:887-1045 | So a compaction the store starts, from its input iterator to its output files, writes what is to be kept. |
| Builder.SaveLevel | Pods/leveldb-library/db/version_set.cc:672-730 | Merging base and added files and dropping deleted ones yields, in file order, exactly the files that are in either and not deleted. |
| Builder.ApplyEdit | Pods/leveldb-library/db/version_set.cc:777-801 | LogAndApply builds each level of the new version that way. |
| Builder.OrderedApartIsSorted | Pods/leveldb-library/db/version_set.cc:697-712 | Files in BySmallestKey order that are pairwise apart form a sorted, disjoint level. |
| Flush.FlushKeepsVersionOk | Pods/leveldb-library/db/db_impl.cc:500-542 | Adding a flushed memtable at the chosen level keeps levels sorted and disjoint and older entries deeper. |
| Flush.GaplessFlushClear | Pods/leveldb-library/db/db_impl.cc:918-928 | A flush inside an automatically picked compaction never lands between entries the compaction will write. |
| Flush.FlushKeepsJob | Pods/leveldb-library/db/db_impl.cc:918-928 | Any flush inside any compaction leaves its inputs oldest, shares no key with them below, and hides no deeper key from it. |
| Flush.FlushKeepsJobCleanIff | Pods/leveldb-library/db/db_impl.cc:918-928 | It leaves the output level clear for the compaction if and only if it does not land there between entries the compaction will write. |
| OutputCuts.FlushedSortedIff | Pods/leveldb-library/db/db_impl.cc:918-1009 | A flush to the output level of a running compaction, any cut of the outputs: the level is sorted after the install if and only if no output reaches across the flushed file. |
| OutputCuts.FlushedAlwaysSortedIff | Pods/leveldb-library/db/db_impl.cc:918-1009 | It is sorted whatever the cut if and only if everything the compaction keeps lies on one side of the flushed file. |
| Store.WriteKeepsInv | Pods/leveldb-library/db/db_impl.cc:1195-1266 | Writing a batch with fresh sequence numbers keeps the store faithful to the full history. |
| Store.FlushKeepsInv | Pods/leveldb-library/db/db_impl.cc:544-575 | So does any memtable flush, alone or inside any compaction. |
| Store.MoveKeepsInv | Pods/leveldb-library/db/db_impl.cc:727-737 | So does a trivial move. |
| Store.InstallInvisibleIff | Pods/leveldb-library/db/db_impl.cc:899-1045 | Installing a compaction, whatever was written and flushed since it started, changes no read at or above a horizon if and only if it uncovers nothing there. |
| Store.UncoversOnlyAtBoundary | Pods/leveldb-library/db/version_set.cc:1380-1424 | In file ranges: a key is uncovered only where a chosen file of the output level and one left behind meet in that key. |
| Store.InstallKeepsInvIff | Pods/leveldb-library/db/db_impl.cc:869-885 | It keeps the store sorted and faithful if and only if no output reaches across a staying file and nothing is uncovered. |
| Store.StepKeepsInvIff | Pods/leveldb-library/db/db_impl.cc:697-776 | Every step but an install keeps: levels sorted and disjoint, older entries deeper, file numbers unique, reads faithful from the oldest snapshot on; an install does exactly when it is sound. |
| Store.RunKeepsInvIff | Pods/leveldb-library/db/db_impl.cc:697-776 | All states of a run satisfy it if and only if every install on the run is sound. |
| Store.ClearRunIsSound | Pods/leveldb-library/db/db_impl.cc:697-776 | They are if no compaction starts with a boundary file of the next level left behind and no flush lands between what a manual compaction will write. |
| Store.EveryRunReadsHistory | Pods/leveldb-library/db/db_impl.cc:1110-1155 | In every state of every run up to its first unsound install, reading at any held snapshot or at the latest sequence number gives what the full history of writes says. |
| Store.SnapshotIsolation | Pods/leveldb-library/db/db_impl.cc:1176-1185 | On such runs, while a snapshot is held, reads through it give the answer of the moment it was taken, whatever ran in between. |
| Writes.LastUpdateDecides | Pods/leveldb-library/db/write_batch.cc:116-137 | At any position inside a batch a key reads as the last of the updates so far that touches it says: a value, or nothing if that is a deletion. |
| Writes.UntouchedReadsBefore | Pods/leveldb-library/db/write_batch.cc:116-137 | A key they do not touch reads as before the batch. |
| Writes.BatchReadsInOrder | Pods/leveldb-library/db/write_batch.cc:116-137 | So reading i sequence numbers into a batch shows exactly its first i updates applied to the map that was there. |
| Writes.HistoryReadsBuilt | Pods/leveldb-library/db/db_impl.cc:1195-1266 | In every state of every run, sound or not, the history reads as the map that the updates of the run build, one after the other. |
| Writes.StoreReadsBuilt | Pods/leveldb-library/db/db_impl.cc:1110-1155 | So does the store, up to the first unsound install. |
| Writes.SnapshotReadsBuilt | Pods/leveldb-library/db/db_impl.cc:1176-1185 | A snapshot reads, while held, as the map built up to the state it was taken in. |
| Writes.GetLatest | Pods/leveldb-library/db/db_impl.cc:1110-1155 | Get after any such run returns what the map built by its updates holds for the key. |
| Writes.KindBytesAgree | Pods/leveldb-library/db/write_batch.cc:98-109 | The type byte of an update in a batch is the one its entry carries in its internal key. |
| Store.SnapshotAboveHorizon | Pods/leveldb-library/db/snapshot.h:46-54 | The first snapshot of the list is the smallest: no held snapshot is below the horizon compactions use. |
| Store.CapturedRead | Pods/leveldb-library/db/db_impl.cc:1110-1155 | A reader that captured memtables and version and then reads without the lock gets the answer of the moment of capture though the memtable has grown. |
| Store.GetAt | Pods/leveldb-library/db/db_impl.cc:1110-1155 | Get on any reachable state returns what the history says. |
| Store.InstallEdit | Pods/leveldb-library/db/db_impl.cc:869-885 | The edit InstallCompactionResults builds performs exactly the replacement of inputs by outputs. |
| Store.FlushEdit | Pods/leveldb-library/db/db_impl.cc:522-536 | The edit of a flush adds exactly the one file at its level. |
| Anomalies.DeletedKeyResurfaces | Pods/leveldb-library/db/version_set.cc:1380-1439 | A selection the code makes, in a state that satisfies all level invariants, whose compaction makes a deleted key readable again: only the level inputs are boundary-closed, never the next-level ones. |
| Anomalies.FlushLandsInGap | Pods/leveldb-library/db/version_set.cc:1441-1472 | A manual compaction with a gap in its inputs, a flush into the gap, and an output across it: the level is then not sorted. |
| SkipList.PublishedList | Pods/leveldb-library/db/skiplist.h:361-368 | Linking a node at one level leaves that level one list, sorted, with the node in its place. |
| SkipList.StepKeepsInv | Pods/leveldb-library/db/skiplist.h:337-368 | Every single load and store of the inserter and the readers keeps each level sorted and a sublist of the level below, and removes nothing. |
| SkipList.RunOnlyGrows | Pods/leveldb-library/db/skiplist.h:337-368 | Over any interleaving nodes are only added and keep their keys. |
| SkipList.AnswerIsCorrect | Pods/leveldb-library/db/skiplist.h:260-322 | When a search reads its last link it returns the first node at or after the key, the last node before it, or the last node, of the list as it then is. |
| SkipList.EverySearchIsLinearizable | Pods/leveldb-library/db/skiplist.h:260-281 | So in every run, with the inserter stopped between any two of its stores. |
| SkipList.NextIsSuccessor | Pods/leveldb-library/db/skiplist.h:207-232 | The level-0 link of any node reached is the least stored key above it, in every state of an insert. |
| SkipList.InsertTakesEffectOnce | Pods/leveldb-library/db/skiplist.h:337-368 | The set of stored keys changes at one step of an insert, the level-0 link, and by exactly the inserted key. |
| SkipList.InsertEndsComplete | Pods/leveldb-library/db/skiplist.h:361-368 | An insert ends only once its node is linked at every level of its height. |
| Merger.MergedSorted | Pods/leveldb-library/table/merger.cc:148-176 | Sorted sources without a common internal key have one sorted merge, with exactly their entries. |
| Merger.MergingIterator.FindSmallest | Pods/leveldb-library/table/merger.cc:148-161 | The child with the least key among the valid ones, none exactly when none is valid. |
| Merger.MergingIterator.FindLargest | Pods/leveldb-library/table/merger.cc:163-176 | The same for the greatest key. |
| Merger.SmallestAtCut | Pods/leveldb-library/table/merger.cc:148-161 | With every child at its first entry of the rest, the smallest child stands on the next entry of the merge. |
| Merger.LargestBeforeCut | Pods/leveldb-library/table/merger.cc:163-176 | With every child just before the cut, the largest child stands on the previous entry of the merge. |
| Merger.MergingIterator.Seek | Pods/leveldb-library/table/merger.cc:47-53 | Moves to the first entry of the merge at or after the target. |
| Merger.MergingIterator.SeekToFirst | Pods/leveldb-library/table/merger.cc:31-37 | Moves to the first entry of the merge. |
| Merger.MergingIterator.SeekToLast | Pods/leveldb-library/table/merger.cc:39-45 | Moves to the last entry of the merge. |
| Merger.MergingIterator.Next | Pods/leveldb-library/table/merger.cc:55-79 | Moves one entry forward in the merge, also right after moving backward. |
| Merger.MergingIterator.Prev | Pods/leveldb-library/table/merger.cc:81-108 | Moves one entry back in the merge, also right after moving forward. |
| DbIter.ShownReads | Pods/leveldb-library/db/db_iter.cc:177-207 | The first entry of a key at or below the snapshot, if a value, is what a read of the key returns. |
| DbIter.DBIter.FindNextUserEntry | Pods/leveldb-library/db/db_iter.cc:177-207 | The forward scan stops at the first shown entry past the skipped key, or at the end if there is none. |
| DbIter.DBIter.FindPrevUserEntry | Pods/leveldb-library/db/db_iter.cc:236-276 | The backward scan yields the last shown entry at or before its start, with its newest value. |
| DbIter.DBIter.Next | Pods/leveldb-library/db/db_iter.cc:141-175 | Moves to the least visible key above the current one, with its value at the snapshot, in either direction of travel. |
| DbIter.DBIter.Prev | Pods/leveldb-library/db/db_iter.cc:209-234 | Moves to the greatest visible key below the current one, in either direction of travel. |
| DbIter.DBIter.Seek | Pods/leveldb-library/db/db_iter.cc:278-290 | Moves to the least visible key at or after the target. |
| DbIter.DBIter.SeekToFirst | Pods/leveldb-library/db/db_iter.cc:292-301 | Moves to the least visible key. |
| DbIter.DBIter.SeekToLast | Pods/leveldb-library/db/db_iter.cc:303-308 | Moves to the greatest visible key. |
| DbIter.CursorIsDeterministic | Pods/leveldb-library/db/db_iter.cc:141-308 | The reference cursor has one place to go for each call. |
| DbIter.Drive | Pods/leveldb-library/db/db_iter.cc:141-308 | Any sequence of calls, with any changes of direction, over any sorted sources moves as a cursor over the map visible at the snapshot. |
| Scan.LevelIsSeparated | Pods/leveldb-library/db/version_set.cc:158-227 | A sorted level can be walked by a two-level iterator over its files' largest keys. |
| Scan.SourcesAreStore | Pods/leveldb-library/db/db_impl.cc:1072-1097 | The children of the internal iterator hold exactly the entries of the store, each internal key in one of them. |
| Scan.Iterate | Pods/leveldb-library/db/db_impl.cc:1157-1167 | An iterator opened on any reachable state moves as a cursor over the history visible at its snapshot. |
| Crc.ExtendConcat | Pods/leveldb-library/util/crc32c.h:14-20 | Extending a checksum piece by piece gives the checksum of the whole. |
| Crc.UnmaskMask | Pods/leveldb-library/util/crc32c.h:29-38 | Unmasking a masked checksum gives it back. |
| Crc.OneByteChanges | Pods/leveldb-library/util/crc32c.cc:276-376 | Changing any one byte of the data changes its checksum. |
| Log.FuelDrops | Pods/leveldb-library/db/log_writer.cc:44-77 | An iteration that emits an empty fragment only moves to a new block: AddRecord terminates. |
| Log.Writer.EmitPhysicalRecord | Pods/leveldb-library/db/log_writer.cc:82-108 | Appends the header, with length, type and masked checksum, and the payload, or as much of them as the file takes; the block offset moves on either way. |
| Log.Writer.SwitchBlock | Pods/leveldb-library/db/log_writer.cc:46-56 | Fills a tail too small for a header, whether or not the fill arrives, and starts a new block. |
| Log.Writer.AddRecord | Pods/leveldb-library/db/log_writer.cc:34-80 | Whatever the file does to each fragment, leaves exactly the bytes, block offset and status of the reference writing, stopping at the first fragment that fails. |
| Log.WritingWorks | Pods/leveldb-library/db/log_writer.cc:34-80 | If nothing fails, that is the encoding of the record at the file's position, and the offset stays in step with the file. |
| Log.Reader.ReadPhysicalRecord | Pods/leveldb-library/db/log_reader.cc:189-271 | With its buffer and refills, reads what the file holds at the position of the next unread byte, reporting the same drops. |
| Log.Reader.ReadRecord | Pods/leveldb-library/db/log_reader.cc:56-174 | Assembles the same logical record, and reports the same drops, as reading the file directly. |
| Log.CrashRecovery | Pods/leveldb-library/db/log_reader.cc:56-271 | Cut the written file at any byte: the reader returns exactly the records wholly before the cut, in order, and reports no corruption. |
| Log.WriteLog | Pods/leveldb-library/db/log_writer.cc:34-80 | Writing any list of records produces their encoding, one after the other. |
| Log.ReplayLog | Pods/leveldb-library/db/log_reader.cc:56-174 | Reading until the end returns every record in order and the number of drops reported. |
| LogFaults.InStepIff | Pods/leveldb-library/db/log_writer.cc:43-56 | After whole records only, everything appended later is read back if and only if the writer's offset equals the file's length modulo the block size. |
| LogFaults.FailedAppendIff | Pods/leveldb-library/db/log_writer.cc:34-108 | After any failed append, everything appended later is read back if and only if the offset so agrees and what arrived is the whole record, part of a trailer's fill, or an empty first fragment. |
| LogFaults.MisalignedLosesRecords | Pods/leveldb-library/db/log_reader.cc:189-271 | With an offset that disagrees, wherever in the block the two are, some record is not read back or a loss is reported. |
| LogFaults.UnsettledLosesRecords | Pods/leveldb-library/db/log_reader.cc:56-271 | So it is with a torn header, a torn payload, or the fragments of an unfinished record. |
| LogFaults.AcknowledgedRecordLost | Pods/leveldb-library/db/log_writer.cc:99-107 | A 100-byte record fails with nothing written; of the next two, both acknowledged, the reader drops the second. |
| LogDamage.ChecksumDecides | Pods/leveldb-library/db/log_reader.cc:216-271 | A fragment whose announced length fits, unless it marks unwritten space, is returned exactly when the stored checksum is that of its type and payload; otherwise the rest of the block is dropped and reported. |
| LogDamage.EveryRecordWasStored | Pods/leveldb-library/db/log_reader.cc:56-271 | Whatever the file holds, every record returned is made of consecutive fragments of the right types, each stored with the checksum of its type and payload. |
| LogDamage.ResumesAtBlock | Pods/leveldb-library/db/log_reader.cc:56-271 | Reading from any block boundary of a written file yields every record that starts there or later, and no other. |
| LogDamage.DamageIsReported | Pods/leveldb-library/db/log_reader.cc:56-271 | After a change of any one type or payload byte of a written file the reader reports a drop and returns exactly the records before the damaged one and those that start past the damaged block. |
| Coding.EncodeVarint32 | Pods/leveldb-library/util/coding.cc:21-47 | The unrolled encoder produces the base-128 digits, one to five of them. |
| Coding.EncodeVarint64 | Pods/leveldb-library/util/coding.cc:55-64 | The loop produces the same digits. |
| Coding.GetVarint32 | Pods/leveldb-library/util/coding.cc:86-114 | Reads at most five digits, the value modulo 2^32, and fails when bytes or digits run out. |
| Coding.DigitsSpell | Pods/leveldb-library/util/coding.cc:86-114 | A varint that is read is what its base-128 digits spell, ends at the first digit without the top bit, and leaves the rest. |
| Coding.Varint32RoundTrip | Pods/leveldb-library/util/coding.cc:86-114 | A 32-bit varint followed by anything reads back, leaving the rest. |
| Coding.Varint64RoundTrip | Pods/leveldb-library/util/coding.cc:116-143 | A 64-bit varint followed by anything reads back, leaving the rest. |
| Coding.PrefixedRoundTrip | Pods/leveldb-library/util/coding.cc:72-75 | A length-prefixed string reads back if and only if its length fits in 32 bits. |
| WriteBatch.InsertInto | Pods/leveldb-library/db/write_batch.cc:42-80 | Applies the updates of the batch numbered from its sequence number, up to the first malformed record, and succeeds exactly when all parse and the count agrees. |
| WriteBatch.ReplayRoundTrip | Pods/leveldb-library/db/write_batch.cc:116-137 | An encoded batch parses back to its updates, sequence number and count. |
| WriteBatch.ParseIsSound | Pods/leveldb-library/db/write_batch.cc:42-80 | Whatever parses to its end is a sequence of well-formed updates, with type byte 1 or 0 and their lengths in front, and these are the ones returned. |
| WriteBatch.Batch.Put | Pods/leveldb-library/db/write_batch.cc:98-103 | Appends one update to the batch. |
| WriteBatch.Batch.Delete | Pods/leveldb-library/db/write_batch.cc:105-109 | Appends one deletion to the batch. |
| WriteBatch.Batch.SetSequence | Pods/leveldb-library/db/write_batch.cc:94-96 | Renumbers the batch and changes nothing else. |
| WriteBatch.Batch.Append | Pods/leveldb-library/db/write_batch.cc:144-148 | Appends the updates of another batch and adds the counts. |
| GroupCommit.BuildBatchGroup | Pods/leveldb-library/db/db_impl.cc:1270-1316 | The group is the longest prefix of the queue the sync rule and the size limit allow, the batch built is the concatenation of its batches, and no caller's batch changes. |
| WriteQueue.StepKeepsInv | Pods/leveldb-library/db/db_impl.cc:1195-1266 | Every step of every writer, with the mutex released while the leader logs, syncs and inserts, keeps queue, log, memory and sequence numbers consistent, and the records appended before any write to a log file failed at its front. |
| WriteQueue.RunKeepsInv | Pods/leveldb-library/db/db_impl.cc:1195-1266 | So in every interleaving. |
| WriteQueue.RangesAreContiguous | Pods/leveldb-library/db/db_impl.cc:1212-1249 | Groups take consecutive, disjoint, increasing ranges of sequence numbers. |
| WriteQueue.MemoryIncreases | Pods/leveldb-library/db/write_batch.cc:116-137 | No two updates in memory share a sequence number. |
| WriteQueue.SnapshotSeesAllOrNothing | Pods/leveldb-library/db/db_impl.cc:1195-1266 | A snapshot taken as the last sequence number at any moment of any run sees all of a batch that committed, or none of it. |
| WriteQueue.LogFollowsQueue | Pods/leveldb-library/db/db_impl.cc:1195-1266 | The records appended are the batches of a subsequence of the queue order, each writer at most once, every committed batch among them. |
| WriteQueue.AppendedOk | Pods/leveldb-library/db/log_writer.cc:34-108 | Whatever the file does to an append, the bytes of the intact records stay, and without a failure the file holds its records and nothing else. |
| WriteQueue.SyncedWriteIsDurable | Pods/leveldb-library/db/db_impl.cc:1224-1232 | A successful sync write has its record in the synced part of its log file, and its updates in the record. |
| WriteQueue.NothingAfterFailedSync | Pods/leveldb-library/db/db_impl.cc:1237-1242 | After a failed sync no later write succeeds. |
| Recovery.RecoverLogFile | Pods/leveldb-library/db/db_impl.cc:380-498 | The tables written, one after each record that fills the memtable and one at the end, hold everything readable in order; with paranoid checks recovery fails exactly when something was dropped or malformed; the last sequence number is the greatest used. |
| Recovery.TablesHoldAll | Pods/leveldb-library/db/db_impl.cc:422-475 | However the memtable fills, these tables hold every update replayed, in order. |
| Recovery.ReplayAll | Pods/leveldb-library/db/db_impl.cc:422-455 | Replaying logged groups yields their updates and leaves no sequence number to be used twice. |
| Recovery.FaultlessLogReads | Pods/leveldb-library/db/db_impl.cc:1221-1232 | A log file no write to which failed reads back as its records. |
| Recovery.CutFileReplays | Pods/leveldb-library/db/db_impl.cc:380-498 | However such a file is cut past its synced part, replay yields whole records, the synced ones among them. |
| Recovery.CutFileKeepsIntact | Pods/leveldb-library/db/db_impl.cc:380-498 | However any log file is cut past its synced part, the synced records appended before any write to it failed are read first. |
| Recovery.FirstFailureIff | Pods/leveldb-library/db/db_impl.cc:1221-1243 | After the first failed append to a log file, what later groups append is read back if and only if the writer's offset agrees with the file and nothing torn is left. |
| Recovery.SyncedRecordLost | Pods/leveldb-library/db/db_impl.cc:1221-1243 | Three groups on a new log: the first append fails and sets no error, the next two and the sync succeed, and the last record is gone. |
| Recovery.SyncedWriteSurvives | Pods/leveldb-library/db/db_impl.cc:1224-1232 | Group commit, batch format, log format and recovery together: if no write to its log file had failed before, every update of a successful sync write is back after a crash, with its sequence number; if none failed at all, also under paranoid checks. |
| FileGc.StepKeepsInv | Pods/leveldb-library/db/db_impl.cc:222-287 | Every step of foreground and background keeps: versions' tables on disk, nothing needed marked for deletion, memory covered by kept logs. |
| FileGc.NoReferencedTableIsDeleted | Pods/leveldb-library/db/db_impl.cc:222-287 | At every moment of every run the tables of every version still referenced are on disk, and a table being deleted is not needed. |
| FileGc.NoOutputIsDeleted | Pods/leveldb-library/db/db_impl.cc:795-818 | Compaction outputs and flushed tables stay on disk until they are installed. |
| FileGc.InstallTakesEffect | Pods/leveldb-library/db/db_impl.cc:869-885 | An install makes every output current and leaves no input current. |
| FileGc.InstalledOutputStays | Pods/leveldb-library/db/db_impl.cc:869-885 | From then on the output is in the current version and on disk, until a later install has it among its inputs. |
| FileGc.ReaderKeepsItsTables | Pods/leveldb-library/db/db_impl.cc:1110-1155 | All tables of the version a reader took stay on disk until the reader drops it. |
| FileGc.InputsStay | Pods/leveldb-library/db/db_impl.cc:738-753 | A compaction's inputs stay on disk as long as it is open, also after its outputs are installed. |
| FileGc.NothingIsLost | Pods/leveldb-library/db/db_impl.cc:222-287 | At every moment of every run each update ever written is in a log on disk at or above the log number, or in a table of the current version on disk, or was dropped by a compaction. |
| FileGc.OnlyInstallsDiscard | Pods/leveldb-library/db/db_impl.cc:869-885 | What is dropped was in an input of an installed compaction and in none of its outputs. |
| FileGc.CommitFreesLogs | Pods/leveldb-library/db/db_impl.cc:544-575 | Committing a flush makes every log before the current one garbage. |
| FileGc.NoUpdateIsLost | Pods/leveldb-library/db/db_impl.cc:544-575 | Every update held only in memory is in a log on disk numbered at or above the log number. |
| FileGc.CollectsExactlyTheGarbage | Pods/leveldb-library/db/db_impl.cc:231-276 | A collection marks exactly the tables nobody needs and the logs below the log number. |
| FileGc.CollectingDuringAFlushLosesItIff | Pods/leveldb-library/db/db_impl.cc:522-536 | A collection in the middle of a flush would take the flushed table exactly when it is written and its edit not applied; deleting it and committing the flush would leave a current version whose table is gone. |
| Block.DecodeEntry | Pods/leveldb-library/table/block.cc:55-75 | The one-byte fast path reads the same lengths as three varints. |
| Block.BlockBuilder.Add | Pods/leveldb-library/table/block_builder.cc:71-105 | Appends the pair, sharing a prefix with the previous key or starting a restart. |
| Block.BlockBuilder.Finish | Pods/leveldb-library/table/block_builder.cc:61-69 | The bytes produced are a block holding exactly the pairs added, with a restart point at every interval-th of them. |
| Block.BlockBuilder.Reset | Pods/leveldb-library/table/block_builder.cc:46-53 | Leaves a builder with nothing added. |
| Block.EntryReads | Pods/leveldb-library/table/block.cc:225-252 | Reading any entry of a block gives back its lengths, key delta and value. |
| Block.Iter.ParseNextKey | Pods/leveldb-library/table/block.cc:225-252 | Moves to the next entry with its full key and value, or past the end. |
| Block.Iter.Next | Pods/leveldb-library/table/block.cc:138-141 | Moves to the next entry. |
| Block.Iter.Prev | Pods/leveldb-library/table/block.cc:143-162 | Moves to the previous entry, or off the front: it undoes Next. |
| Block.Iter.Seek | Pods/leveldb-library/table/block.cc:164-202 | Lands on the first key at or after the target. |
| Block.Iter.SeekToLast | Pods/leveldb-library/table/block.cc:209-214 | Lands on the last entry. |
| Block.ReadBack | Pods/leveldb-library/table/block.cc:204-252 | Scanning a block returns the pairs it was built from. |
| Bytewise.BeforeTotal | Pods/leveldb-library/util/comparator.cc:27-29 | The bytewise order is total and strict. |
| Bytewise.BeforeTransitive | Pods/leveldb-library/util/comparator.cc:27-29 | The bytewise order is transitive. |
| Bytewise.FindShortestSeparator | Pods/leveldb-library/util/comparator.cc:31-52 | Replaces the key by the common prefix with the next byte raised, which is no longer and strictly between it and the limit, exactly when that byte can be raised below the limit's. |
| Bytewise.FindShortSuccessor | Pods/leveldb-library/util/comparator.cc:54-66 | Leaves the key alone exactly if all its bytes are 0xff, else raises the first byte that is not and cuts after it: a larger key no longer than it. |
| Table.SeparatorOkIff | Pods/leveldb-library/db/dbformat.cc:65-82 | Shortened internal keys divide every two neighbouring keys if and only if the user comparator keeps larger shortened keys below the limit, equal user keys included. |
| Table.TableBuilder.Add | Pods/leveldb-library/table/table_builder.cc:94-123 | Adds the entry; the pending index key of the previous block divides it from the new one. |
| Table.TableBuilder.Flush | Pods/leveldb-library/table/table_builder.cc:125-139 | Ends the current block, if it has entries, and adds nothing. |
| Table.TableBuilder.Finish | Pods/leveldb-library/table/table_builder.cc:198-238 | The table holds exactly the entries added, in blocks whose index keys divide them. |
| Table.OneBlockSuffices | Pods/leveldb-library/table/table.cc:214-242 | The block under the first index key at or after the key holds the table's first entry at or after it, unless that entry has another user key. |
| Table.InternalGet | Pods/leveldb-library/table/table.cc:214-242 | One index seek, the filter and one block seek return that entry, or nothing only if it has another user key. |
| Table.Lookup | Pods/leveldb-library/db/version_set.cc:262-275 | With the caller's test of the user key, a table lookup is a lookup in all the entries of the table. |
| Table.TableIsSeparated | Pods/leveldb-library/table/table.cc:208-212 | A finished table can be walked by a two-level iterator. |
| TwoLevel.SeekLands | Pods/leveldb-library/table/two_level_iterator.cc:82-87 | The block under the first index key at or after the target holds the first entry at or after it, or ends just before it. |
| TwoLevel.TwoLevelIterator.Seek | Pods/leveldb-library/table/two_level_iterator.cc:82-87 | Moves to the first entry of all blocks at or after the target, across empty blocks. |
| TwoLevel.TwoLevelIterator.SeekToFirst | Pods/leveldb-library/table/two_level_iterator.cc:89-94 | Moves to the first entry of all blocks. |
| TwoLevel.TwoLevelIterator.SeekToLast | Pods/leveldb-library/table/two_level_iterator.cc:96-101 | Moves to the last entry of all blocks. |
| TwoLevel.TwoLevelIterator.Next | Pods/leveldb-library/table/two_level_iterator.cc:103-126 | Moves one entry forward over all blocks. |
| TwoLevel.TwoLevelIterator.Prev | Pods/leveldb-library/table/two_level_iterator.cc:109-139 | Moves one entry back over all blocks. |
| Bloom.CreateFilter | Pods/leveldb-library/util/bloom.cc:28-54 | The bits set are exactly the probes of the keys, the filter has the size the bits per key ask for, and the number of probes is its last byte. |
| Bloom.DeltaUndone | Pods/leveldb-library/util/bloom.cc:44-47 | The step between probes is a rotation of the hash: turning it back gives the hash. |
| Bloom.KeyMayMatch | Pods/leveldb-library/util/bloom.cc:56-80 | True exactly when the filter is long enough and all probes hit, or the probe count is reserved. |
| Bloom.FilterRecalls | Pods/leveldb-library/util/bloom.cc:56-80 | A filter matches every key it was built from. |
| FilterBlock.FilterBlockBuilder.GenerateFilter | Pods/leveldb-library/table/filter_block.cc:51-75 | Closes one 2 KB slot; an empty slot gets an empty filter. |
| FilterBlock.FilterBlockBuilder.StartBlock | Pods/leveldb-library/table/filter_block.cc:21-27 | Closes slots up to the one of the block's offset and loses no key. |
| FilterBlock.FilterBlockBuilder.Finish | Pods/leveldb-library/table/filter_block.cc:35-49 | The finished block matches every key added, at its data block's offset. |
| FilterBlock.KeyMayMatch | Pods/leveldb-library/table/filter_block.cc:77-104 | Looks up the filter of the offset's slot; anything malformed may match. |
| FilterBlock.FilterTable | Pods/leveldb-library/table/table_builder.cc:94-139 | For every sequence of data blocks, with the call after the last one, no filter hides a key of its block. |
| HandleTable.HandleTable.Lookup | Pods/leveldb-library/util/cache.cc:75-77 | The chained table refines a map from key and hash to entry. |
| HandleTable.HandleTable.Insert | Pods/leveldb-library/util/cache.cc:79-93 | Maps the key to the new entry and returns the one it replaces, through resizing; there are never more entries than chains. |
| HandleTable.HandleTable.Remove | Pods/leveldb-library/util/cache.cc:95-102 | Unmaps the key and returns its entry. |
| HandleTable.HandleTable.Resize | Pods/leveldb-library/util/cache.cc:123-147 | Keeps the map and makes at least as many chains as entries. |
| HandleTable.Rehash | Pods/leveldb-library/util/cache.cc:131-142 | Moves every slot once, to its chain in the new table. |
| LruCache.RefOk | Pods/leveldb-library/util/cache.cc:218-224 | Taking a reference moves an idle entry to the in-use list and keeps counts, lists and usage right. |
| LruCache.ReleaseOk | Pods/leveldb-library/util/cache.cc:226-238 | Giving one back deletes the entry at zero or makes it idle at one. |
| LruCache.EraseOk | Pods/leveldb-library/util/cache.cc:308-317 | Removing an entry from the cache takes its charge off and deletes it unless a client holds it. |
| LruCache.LRUCache.Insert | Pods/leveldb-library/util/cache.cc:267-304 | The new entry has the key and charge given, is held once and is mapped exactly if caching is on; every other mapping stays or its entry was deleted; usage ends within capacity or nothing is idle, the oldest idle entries went first and none needlessly; no client's handle is affected, and only entries no client held are deleted. |
| LruCache.LRUCache.UsageIsGiven | Pods/leveldb-library/util/cache.cc:276-317 | At any time usage is the sum of the charges callers gave for the entries now cached, each mapped under the key it was inserted with, the idle ones being those no client holds. |
| LruCache.LRUCache.Lookup | Pods/leveldb-library/util/cache.cc:253-260 | Returns the mapped entry, if any, with one more handle on it. |
| LruCache.LRUCache.Release | Pods/leveldb-library/util/cache.cc:262-265 | Gives a handle back; the deleter runs exactly when it was the last reference. |
| LruCache.LRUCache.Erase | Pods/leveldb-library/util/cache.cc:319-322 | Unmaps the key; no client's handle is affected, and the deleter runs now exactly for a mapped entry no client holds. |
| LruCache.LRUCache.Prune | Pods/leveldb-library/util/cache.cc:324-334 | Drops exactly the entries no client holds. |
| VersionEdit.EncodeTo | Pods/leveldb-library/db/version_edit.cc:41-84 | Writes the fields present, in order, whatever the order of the deleted files. |
| VersionEdit.DecodeFrom | Pods/leveldb-library/db/version_edit.cc:105-203 | Reads fields until the input ends; fails exactly on a malformed field, an unknown tag or trailing bytes. |
| VersionEdit.EditRoundTrip | Pods/leveldb-library/db/version_edit.cc:26-39 | Decoding an encoded edit gives it back; a reused edit keeps its old compaction pointers in front, so it is exact for a fresh one. |
| VersionEdit.DecodedIsApplicable | Pods/leveldb-library/db/version_edit.cc:86-203 | Whatever bytes are decoded, an edit that decodes names only levels that exist and keys that are not empty. |
| Replay.SameFiles | Pods/leveldb-library/db/version_set.cc:629-670 | Applying all edits to one builder keeps the same files as saving after each. |
| Replay.OrderIsUnique | Pods/leveldb-library/db/version_set.cc:672-730 | A list in file order is determined by its files. |
| Replay.ReplayIsFaithful | Pods/leveldb-library/db/version_set.cc:900-976 | So recovery yields exactly the list the running store had, if no file number is used twice in a level. |
| Replay.RecoverLevel | Pods/leveldb-library/db/version_set.cc:900-976 | The same for the builder object: apply every edit, save once. |
| ProtoEncode.OStream.Write | Pods/nanopb/pb_encode.c:103-124 | Counts on a sizing stream; otherwise writes all the bytes or none. |
| ProtoEncode.EncodeVarint | Pods/nanopb/pb_encode.c:608-628 | Puts the base-128 digits on the stream. |
| ProtoEncode.EncodeValue | Pods/nanopb/pb_encode.c:767-910 | Each field encoder puts its value's wire form on the stream, or fails as the format demands. |
| ProtoEncode.EncodeSubmessage | Pods/nanopb/pb_encode.c:717-765 | Two passes, size then bytes, put the length and the message; the second pass reports a changed size only after the sink refused bytes. |
| ProtoEncode.EncodeArray | Pods/nanopb/pb_encode.c:147-236 | Packed or not, with the size shortcuts, puts the array's wire form. |
| ProtoEncode.CheckDefault | Pods/nanopb/pb_encode.c:240-337 | Decides whether a field without a has_ flag holds its zero value, through nested messages. |
| ProtoEncode.EncodeField | Pods/nanopb/pb_encode.c:341-426 | Puts the field's wire form, nothing when it is absent. |
| ProtoEncode.Encode | Pods/nanopb/pb_encode.c:528-550 | Puts the fields in order; on a writing stream it succeeds exactly when the message is well formed and there is room. |
| ProtoEncode.GetEncodedSize | Pods/nanopb/pb_encode.c:567-576 | The size computed is the number of bytes of the wire form. |
| ProtoEncode.EncodeToBuffer | Pods/nanopb/pb_encode.c:528-576 | Encoding into a buffer succeeds exactly when the computed size fits, writes exactly that many bytes, and never reports a changed size. |
| ProtoDecode.DecodeVarint32 | Pods/nanopb/pb_decode.c:187-247 | The loop reads the value its digits spell, rejects overflow, and accepts sign extension. |
| ProtoDecode.Dec32RoundTrip | Pods/nanopb/pb_decode.c:187-247 | A 32-bit value followed by anything reads back. |
| ProtoDecode.ScalarRoundTrip | Pods/nanopb/pb_decode.c:1285-1570 | Every field decoder reads back what its encoder wrote, for every value of the field's type, negative numbers and narrow widths included. |
| ProtoDecode.DecodeNoInit | Pods/nanopb/pb_decode.c:934-1082 | The loop handles records until the bytes or a zero key end, then checks fixed-count arrays and required fields. |
| ProtoRoundTrip.ZeroIsDefault | Pods/nanopb/pb_encode.c:240-337 | A field without a has_ flag that is not written holds its default. |
| ProtoRoundTrip.PackedFieldRoundTrip | Pods/nanopb/pb_decode.c:423-455 | A packed array reads back whole, counted or of fixed count. |
| ProtoRoundTrip.EntriesRoundTrip | Pods/nanopb/pb_decode.c:456-467 | An array that is not packed reads back entry by entry. |
| ProtoRoundTrip.FieldRoundTrip | Pods/nanopb/pb_decode.c:406-483 | The bytes of a field, read by a decoder that has not read it yet, put exactly its values in place. |
| ProtoRoundTrip.SkipRoundTrip | Pods/nanopb/pb_decode.c:278-331 | A value of any type behind its wire type is skipped to the byte. |
| ProtoRoundTrip.WireTypeLengths | Pods/nanopb/pb_encode.c:670-710 | Wire type 5 announces four bytes and 1 eight, these two exactly the fixed types, and 2 exactly the types that are not packed. |
| ProtoRoundTrip.UnknownWireTypeFails | Pods/nanopb/pb_decode.c:321-331 | A record with an unknown tag and a wire type no field uses is rejected. |
| ProtoRoundTrip.ExchangeIff | Pods/nanopb/pb_decode.c:934-1082 | A message written with one descriptor and read with another that agrees on the fields they share, in any order: decoding succeeds exactly when the writer knew every required field kept track of, gives shared fields their values and others their defaults, and passes over the rest. |
| ProtoRoundTrip.OlderReadsNewer | Pods/nanopb/pb_decode.c:985-996 | With any fields left out of its descriptor a reader succeeds and restores exactly the remaining ones. |
| ProtoRoundTrip.MissingRequiredFails | Pods/nanopb/pb_decode.c:1040-1080 | A message that lacks one of the first 64 required fields is rejected. |
| ProtoRoundTrip.RequiredBeforeCounts | Pods/nanopb/pb_decode.c:1020-1027 | The index that decides whether a required field is kept track of is the number of required fields before it. |
| ProtoRoundTrip.IncompleteArrayFails | Pods/nanopb/pb_decode.c:1033-1036 | A message that ends inside an array of fixed count is rejected. |
| ProtoRoundTrip.LaterValueWins | Pods/nanopb/pb_decode.c:406-421 | Of a scalar field sent twice the later value counts. |
| ProtoSafe.DecodeIsSafe | Pods/nanopb/pb_decode.c:406-483 | For every descriptor and every input: integers stay in their C types, strings, bytes and arrays within their bounds, at most one member of a union is set, at every depth. |
| ProtoRoundTrip.RoundTrip | Pods/nanopb/pb_decode.c:934-1096 | For every descriptor with usable tags and every message its struct can hold, decoding the encoding succeeds and restores the message. |

## Left out

- Store.EveryRunReadsHistory: holds up to the first unsound install. The code does not rule one out: it closes only the level inputs at a boundary (`db/version_set.cc:1384`) and picks a flush level without looking at a running manual compaction. `Store.RunKeepsInvIff` says exactly which runs are sound and `Store.ClearRunIsSound` which starts and flushes suffice.
- Store.UncoversOnlyAtBoundary: one direction; whether a boundary file left behind really uncovers something depends on the entries of the two files.
- Table.SeparatorOkIff: the condition asks more of a user comparator than its documentation, which promises nothing when start and limit are equal; the code calls it with equal user keys when two versions of a key meet at a block boundary. The bytewise comparator meets it.
- Store.StepKeepsInvIff: sequence numbers stay below the 56-bit maximum; the memtable is a sorted sequence (its skiplist is modelled by itself); writes are applied by one writer at a time, as the queue ensures.
- DbIter.Drive: corrupted internal keys, read sampling and iterator status are not modelled; sources have no internal key in common, which the store ensures.
- SkipList.EverySearchIsLinearizable: each atomic load and store is one step of one total order; the weaker orders of the C++ memory model, the arena and the random heights are not modelled.
- Log.CrashRecovery: reading from an initial offset, resynchronising, and appending to a reused log after a torn tail are not modelled; the checksum is computed bit by bit, not by tables.
- Log.Writer.EmitPhysicalRecord: the two appends and the flush of a fragment are one write that works or leaves a prefix of its bytes, since a failed flush loses bytes of earlier appends.
- LogFaults.FailedAppendIff: not for a fill that is lost unnoticed while the header after it arrives, where what the reader makes of the shifted bytes depends on the payload; `Recovery.SyncedWriteSurvives` counts it as a failed write.
- WriteQueue.LogFollowsQueue: about records reported as appended; what a failed append leaves in the file is in `LogFaults`. Nothing is claimed about the memtable switch a null batch asks for.
- Recovery.SyncedWriteSurvives: lengths, counts and sequence numbers within the widths of the formats.
- LogDamage.DamageIsReported: not for a damaged length or checksum field. A damaged length can look like the end of a file cut by a crash, which is not reported.
- LogDamage.ChecksumDecides: records are told apart from damage only as far as 32-bit checksums do; two damaged bytes may cancel out.
- FileGc.NothingIsLost: which updates a compaction may drop is not part of this machine; `Install.VersionInvisibleIff` says when readers notice.
- Recovery.RecoverLogFile: reusing the last log file (`reuse_logs`) and errors opening the file are not modelled.
- WriteBatch.ReplayRoundTrip: keys, values and counts below 2^32, the widths of the format; longer ones are truncated by the code and do not read back.
- VersionEdit.EditRoundTrip: numbers below 2^64, levels that exist, internal keys that are not empty, as the decoder demands.
- Replay.ReplayIsFaithful: no file number is used twice in one level, as the numbering of new files ensures.
- Merger.MergingIterator.Next: the shortcuts for no child and one child, and the cached key of the child wrapper, are not modelled.
- FileGc.NoReferencedTableIsDeleted: tables and logs only; manifest, CURRENT and temporary files, and the collection at opening, are not modelled. One background worker is part of the model, as in the code.
- Block.Iter.ParseNextKey: the branches for malformed blocks are not modelled; blocks are ones a builder finished, below 2^32 bytes.
- Table.InternalGet: block handles, compression, the block cache and file reads are not modelled; when a block is full is a parameter; the filter is any that hides none of its block's keys.
- FilterBlock.FilterTable: the hash function is arbitrary, the number of probes a parameter; claims are for filter blocks below 2^32 bytes.
- LruCache.LRUCache.Insert: the doubly linked lists are sequences, so their pointer updates are not captured; freeing memory is removal from a map; sharding is not modelled.
- HandleTable.HandleTable.Insert: chains are sequences, so pointer updates are not captured; masking by a power of two is a remainder.
- Replay.RecoverLevel: per level, and file reference counts are not modelled; compaction pointers are not replayed.
- ProtoDecode.DecodeNoInit: values and bytes left, not memory and pointers; callbacks, extensions, pointer fields and the eight-bit wrap of the bit counter are not modelled.
- ProtoRoundTrip.ExchangeIff: fields that both descriptors know are the same field in both, down to the fields of submessages.
- ProtoRoundTrip.RoundTrip: defaults are zero; a struct is its present values, so stale data behind a cleared has_ flag or past an array's count is not captured; encodings are below 2^32 bytes.
- Compaction scores, seek-triggered compactions, statistics, approximate sizes and grandparent overlap limits and compaction pointers decide when, where from and where to cut, which every result leaves free.
- Opening, repairing and destroying a database, the environment layer, logging and the C bindings.
- The Swift application: user interface and remote calls around a matcher whose source is not part of this model.
