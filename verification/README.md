# Storage engine and message codec: verified model

The prototype application ships two pieces of C and C++ whose correctness everything above them takes for granted:
LevelDB, the storage engine under its offline cache (`Prototype/Pods/leveldb-library`), and nanopb, the Protocol
Buffers codec (`Prototype/Pods/nanopb`). This project models both in Dafny and proves what they are for;
`dafny verify dfyconfig.toml` checks all of it.

**LevelDB.** A user key is its rank in the user comparator's order; internal keys, entries, files and versions are
values, and what a read means is defined once, over a set of entries, in `reads.dfy`. Everything else is proved
against that meaning.

- *Reads and compaction* (`versions`, `inputs`, `selection`, `choices`, `compacting`, `compaction_reads`, `builder`,
  `rewrites`, `engine`, `engine_writes`, `resurfacing`): the lookup through levels, the choice of compaction inputs,
  the drop rule with its forward-only level pointers, version edits, and a state machine of writes, flushes, moves,
  compactions and snapshots. The version invariant holds in every state of every run; what snapshots read, in terms of
  the puts and deletions that were written, holds in every run whose compactions meet a guard that the code lacks (see
  Findings).
- *Iterators* (`cursors`, `merger`, `two_level`, `db_iter`): each layer is a cursor over one sorted list under every
  sequence of movements, with any change of direction.
- *The read paths together* (`engine_reads`): a point lookup, and a scan over the merge of memtables, level-0 files
  and levels by DBIter over the merging iterator, in terms of the operations written when the snapshot was taken.
- *Formats* (`coding`, `crc32c` over `linear` and `powers_of_two`, `crc32c_detection`, `crc32c_words`, `log_format`,
  `log_writer`, `log_reader`, `log_recovery`, `log_damage`, `blocks`, `block_builder`, `block_iter`, `comparator`,
  `internal_keys`, `bloom`, `filter_block`, `tables`, `table_builder`, `table_search`, `table_lookup`, `version_edit`,
  `write_batch`): each reader gives back what its writer was given, over any prefix for logs, and over any bytes
  computes a parser that is stated on its own; a damaged log record is seen, dropped and reported.
- *Write path and recovery* (`group_commit`, `group_log`, `memtable_reads`, `log_retention`, `manifest`,
  `manifest_log`): the writer queue and what readers see of it, the files that may be deleted, the numbers that files
  get, and the MANIFEST from edits to bytes and back to a version.
- *Structures in memory* (`linked_lists`, `handle_table`, `lru_cache`, `skip_list`): the cache and its hash table
  against sets and lists of handles, and the skip list with readers running between the single writes of an insertion.

**nanopb** (`nanopb_wire`, `nanopb_messages`, `nanopb_iterator`, `nanopb_encoder`, `nanopb_parsing`, `nanopb_decoder`,
`nanopb_round_trip`, `nanopb_presence`, `nanopb_orders`, `nanopb_laws`, `nanopb_soundness`): descriptors and message
structs as data; the two-pass encoder against the message's encoding; the stream decoder with its cyclic field
iterator and required-field words against a recursive reading; and about that reading the round trip, fields in any
order or missing, the laws of decoding over any bytes, and that whatever it accepts fits its descriptor.

Objects that the source updates in place are classes here, loops are loops, and each method is proved against a
function or a relation whose own properties are lemmas.

## Findings

- **A compaction can bring a deleted value back.** `SetupOtherInputs` completes the inputs of its own level with
  boundary files but not those of the next level (`Prototype/Pods/leveldb-library/db/version_set.cc:1407-1411`). If
  the next level holds a deletion at the end of an input file and the deleted value at the start of the neighbouring
  file, the deletion may be dropped while the value stays. `CompactionReads.CompactionIsSafeExactlyWhen` gives the
  exact condition for a compaction to be safe, `CompactionReads.DeletedValueComesBack` a version and a compaction that
  fail it, `Resurfacing.DeletedValueComesBackInARun` a run from the empty database that gets there by steps the code
  takes (`Resurfacing.PickInputs` derives both compactions' inputs from the selection code), and
  `CompactionReads.NoBoundaryMeansNoResurfacing` shows that the missing call would have been enough. The version
  invariant itself is not at risk (`Engine.RunKeepsStructure`).
- **nanopb encodes strings that it cannot decode.** A string that fills its member is encoded up to the member's size
  (`Prototype/Pods/nanopb/pb_encode.c:878-891`), but the decoder wants room for a terminator
  (`Prototype/Pods/nanopb/pb_decode.c:1497-1498`). `NanopbRoundTrip.RoundTrip` gives the exact condition for a message
  to be decoded, and `NanopbPresence.FullStringIsRefused` the failing family.
- **A left-out zero can come back as something else.** A field without a `has_` member is not encoded when it is zero;
  if its descriptor has another default, the decoder fills that in (`Prototype/Pods/nanopb/pb_encode.c:240-337`,
  `Prototype/Pods/nanopb/pb_decode.c:839-921`). `NanopbPresence.DecodedIsSameExactlyWhen` gives the exact condition.
- **Recovery marks log numbers used, and then forgets it.** `VersionSet::Recover` calls `MarkFileNumberUsed` for both
  log numbers and afterwards overwrites the counter (`Prototype/Pods/leveldb-library/db/version_set.cc:986-997`). It
  does no harm: `Manifest.RecoverNumbers` shows that once `DBImpl::Recover` has marked the logs it replays, the next
  file number is above every table the MANIFEST ever named, every table that recovery has written, and every log file
  on disk.

## Model

| member | source | states |
|---|---|---|
| `Keys.CompareIsTotalOrder` | `Prototype/Pods/leveldb-library/db/dbformat.cc:51-67` | internal keys are totally ordered: comparison is transitive, antisymmetric, and 0 only on equal keys |
| `Keys.LookupSplits` | `Prototype/Pods/leveldb-library/db/dbformat.cc:121-138` | exactly the entries of user key u at or below snapshot s, and those of later user keys, are at or after the lookup key (u, s) |
| `Reads.LayeredRead` | `Prototype/Pods/leveldb-library/db/db_impl.cc:1124-1136` | reading a newer layer over an older one: the newer layer answers, deletions included, if it has any entry at or below the snapshot, else the older one does |
| `Versions.Lookup` | `Prototype/Pods/leveldb-library/db/version_set.cc:263-276` | one seek in one sorted run finds the newest entry of the user key at or below the snapshot, or shows that there is none |
| `Versions.FindFile` | `Prototype/Pods/leveldb-library/db/version_set.cc:88-106` | the binary search ends on the first file whose largest key is not before the target, for every sorted level |
| `Versions.CoveringNewestFirst` | `Prototype/Pods/leveldb-library/db/version_set.cc:349-364` | the level-0 candidates are exactly the files whose user-key range covers the key, newest file number first |
| `Versions.SearchLevelZero` | `Prototype/Pods/leveldb-library/db/version_set.cc:349-417` | trying those candidates until the first hit gives the newest entry among all level-0 files, or shows that none has one |
| `Versions.SearchSortedLevel` | `Prototype/Pods/leveldb-library/db/version_set.cc:365-417` | looking into one binary-searched file finds the newest entry of a whole deeper level, even when a user key spans neighbouring files |
| `Versions.Get` | `Prototype/Pods/leveldb-library/db/version_set.cc:326-421` | under the version invariant, the level-by-level lookup that stops at the first hit gives what the newest entry at or below the snapshot among all entries of all files says |
| `Inputs.SomeFileOverlapsRange` | `Prototype/Pods/leveldb-library/db/version_set.cc:122-154` | the answer is whether any file of the level meets the closed user-key range, by scan for overlapping files and by one binary search for sorted ones |
| `Inputs.GetOverlappingInputs` | `Prototype/Pods/leveldb-library/db/version_set.cc:519-559` | terminates; the result is every file that overlaps the range, which at level 0 is the least range that contains the given one and is closed under overlap |
| `Inputs.FindSmallestBoundaryFile` | `Prototype/Pods/leveldb-library/db/version_set.cc:1344-1362` | of the files that start after the key on the same user key, the one that starts first, or none if there is none |
| `Inputs.AddBoundaryInputs` | `Prototype/Pods/leveldb-library/db/version_set.cc:1378-1401` | terminates; keeps the given files in front, adds each time the next file that starts on the inputs' largest user key after it, and stops when none is left |
| `Selection.ChoiceLeavesNewer` | `Prototype/Pods/leveldb-library/db/version_set.cc:1364-1377` | with no boundary file left, whatever stays behind at the input level is newer, per user key, than whatever is moved down |
| `Selection.VersionSet.Grandparents` | `Prototype/Pods/leveldb-library/db/version_set.cc:1448-1453` | the grandparents are exactly the files two levels down that meet the user-key range of all inputs |
| `Selection.VersionSet.SetupOtherInputs` | `Prototype/Pods/leveldb-library/db/version_set.cc:1403-1462` | the inputs are exactly the chosen files with their chain of boundary files, every next-level file in the range of those and no other, grown to the level's expansion exactly when that is more, within the limit, and leaves the next level's share as it is; only newer entries stay behind, and the compaction pointer moves to the largest key |
| `Selection.VersionSet.PickFile` | `Prototype/Pods/leveldb-library/db/version_set.cc:1280-1306` | the first file past the compaction pointer, or the first of all if none is past it, or the file that was sought too often |
| `Selection.VersionSet.PickCompaction` | `Prototype/Pods/leveldb-library/db/version_set.cc:1270-1323` | the automatic choice starts from the first file past the compaction pointer as it was, wrapping around, or from the sought file, which is among the inputs; these are completed as SetupOtherInputs does, and the pointer moves to their largest key |
| `Selection.VersionSet.GrowInputs` | `Prototype/Pods/leveldb-library/db/version_set.cc:1416-1446` | more of the level is taken exactly when the files over the range of all inputs, with their boundary files, are more, keep within 25 file sizes, and meet no more of the next level |
| `Choices.AutomaticIsUnique` | `Prototype/Pods/leveldb-library/db/version_set.cc:1270-1323` | what the automatic choice is proved to be leaves no choice: version, compaction pointers and trigger determine both lists of inputs |
| `Selection.VersionSet.CompactRange` | `Prototype/Pods/leveldb-library/db/version_set.cc:1464-1495` | no compaction exactly when no file overlaps the range; otherwise the inputs are completed from exactly the overlapping files, at level 0 over the closed range and elsewhere up to where one file's worth of bytes is reached, and the compaction pointer moves to their largest key |
| `Choices.ManualIsUnique` | `Prototype/Pods/leveldb-library/db/version_set.cc:1464-1495` | so does the manual choice: version and range determine both lists of inputs |
| `Selection.PickLevelForMemTableOutput` | `Prototype/Pods/leveldb-library/db/version_set.cc:491-516` | a flush whose range meets level 0 stays there; otherwise it goes down, at most to level 2, exactly as long as the next level does not meet its range and the level after that not with too many bytes |
| `Selection.PlacementIsUnique` | `Prototype/Pods/leveldb-library/db/version_set.cc:491-516` | that rule gives one level and no other |
| `Compacting.CompactionState.IsBaseLevelForKey` | `Prototype/Pods/leveldb-library/db/version_set.cc:1533-1552` | the pointers that only move forward answer exactly whether any level below the output level may hold the key, because keys come in order |
| `Compacting.CompactionState.ShouldDrop` | `Prototype/Pods/leveldb-library/db/db_impl.cc:936-963` | the running state decides, for every entry, exactly the stateless drop rule: hidden by a newer entry that every snapshot sees, or a deletion that nothing below needs |
| `Compacting.CompactionState.DoCompactionWork` | `Prototype/Pods/leveldb-library/db/db_impl.cc:901-1020` | the outputs hold, in order and without empty files, exactly the input entries that the rule keeps, however they are cut, under fresh ascending numbers |
| `Compacting.DropIsSafeExactlyWhen` | `Prototype/Pods/leveldb-library/db/db_impl.cc:946-960` | over any older entries, reads at every snapshot from the oldest on are unchanged if and only if no dropped deletion was hiding a value there |
| `CompactionReads.CompactionIsSafeExactlyWhen` | `Prototype/Pods/leveldb-library/db/db_impl.cc:860-1000` | installing a compaction leaves every read of every live snapshot unchanged if and only if no dropped deletion of the inputs was hiding a value in a next-level file beside them |
| `CompactionReads.NoBoundaryMeansNoResurfacing` | `Prototype/Pods/leveldb-library/db/version_set.cc:1364-1415` | had the next level's inputs been completed with boundary files too, no compaction could bring a deleted value back |
| `CompactionReads.BoundaryWouldBeLeft` | `Prototype/Pods/leveldb-library/db/version_set.cc:1364-1377` | with no boundary file left at the next level, a file beside the inputs shares no user key with them |
| `CompactionReads.DeletedValueComesBack` | `Prototype/Pods/leveldb-library/db/version_set.cc:1403-1415` | a version that satisfies every invariant and a compaction with the inputs the code picks, after which a deleted key reads as its old value |
| `Resurfacing.DeletedValueComesBackInARun` | `Prototype/Pods/leveldb-library/db/version_set.cc:1403-1415` | that happens in a run of fourteen steps from the empty database, whatever the size limit: the last operation on the key is a deletion, and a read finds its old value; every flush goes to the level that the placement rule gives, every compaction drops for the oldest snapshot, and none has a lone input that would be moved |
| `Resurfacing.PickInputs` | `Prototype/Pods/leveldb-library/db/version_set.cc:1464-1495` | the inputs of the two compactions of that run are the ones that a manual compaction of level 1 picks |
| `VersionBuilder.SaveLevelMeans` | `Prototype/Pods/leveldb-library/db/version_set.cc:695-754` | merging added files into a level and leaving out deleted numbers gives a sorted level that holds exactly the files it should |
| `VersionBuilder.SortedIsUnique` | `Prototype/Pods/leveldb-library/db/version_set.cc:582-598` | the builder's order leaves no choice: two sorted levels with the same files are the same list |
| `VersionBuilder.ApplyEditMeans` | `Prototype/Pods/leveldb-library/db/version_set.cc:650-754` | the level after an edit is sorted and holds what was there and not deleted, and what was added |
| `Rewrites.CompactionEditMeans` | `Prototype/Pods/leveldb-library/db/db_impl.cc:860-876` | a compaction's edit takes all inputs out, puts all outputs one level down, and touches nothing else |
| `Rewrites.CompactionKeepsInvariant` | `Prototype/Pods/leveldb-library/db/db_impl.cc:860-876` | installing any compaction with complete inputs, guarded or not, keeps every level sorted and disjoint, shallower newer than deeper, and file numbers distinct |
| `Engine.FlushKeepsInvariant` | `Prototype/Pods/leveldb-library/db/db_impl.cc:491-533` | a flushed memtable that is newer than the disk may be added at any level the placement rule allows without breaking the version invariant |
| `Engine.StepKeepsStructure` | `Prototype/Pods/leveldb-library/db/db_impl.cc:535-566` | every write, memtable switch, flush, trivial move, compaction and snapshot operation keeps the version invariant and the order of memtables over disk |
| `Engine.RunKeepsStructure` | `Prototype/Pods/leveldb-library/db/db_impl.cc:688-767` | in every state of every run from the empty database, whatever compactions drop, each level is sorted and disjoint, newer lies above older, and nothing is stored that was not written |
| `Engine.CompactKeepsReads` | `Prototype/Pods/leveldb-library/db/db_impl.cc:890-1000` | a guarded compaction keeps all reads even if snapshots were taken or released after it fixed its own oldest snapshot |
| `Engine.RunKeepsReads` | `Prototype/Pods/leveldb-library/db/db_impl.cc:688-767` | in every run whose compactions meet the guard, each live or future snapshot reads from what is stored exactly what it would read from everything ever written |
| `Engine.SnapshotsNeverChange` | `Prototype/Pods/leveldb-library/db/db_impl.cc:1166-1175` | in such a run a snapshot taken by state i and still held in state j reads in state j exactly what had been written by state i |
| `EngineWrites.WriteIsRead` | `Prototype/Pods/leveldb-library/db/write_batch.cc:117-140` | right after a write each user key reads as the last operation on it in the batch says, value or deletion, and a key with none as before; no earlier snapshot reads anything else |
| `EngineWrites.HistoryReads` | `Prototype/Pods/leveldb-library/db/db_impl.cc:1213-1236` | in any state of any run, everything ever written reads at snapshot n as the last operation on the user key among the first n that the run's writes held |
| `EngineWrites.HeldSnapshotReads` | `Prototype/Pods/leveldb-library/db/db_impl.cc:1166-1175` | a snapshot taken in a guarded run, and still held, reads what the last operation on each key before it was taken says, whatever was written, flushed and compacted since |
| `Engine.Get` | `Prototype/Pods/leveldb-library/db/db_impl.cc:1100-1145` | memtable, then immutable memtable, then version, stopping at the first hit, reads what their union says |
| `EngineReads.GetInRun` | `Prototype/Pods/leveldb-library/db/db_impl.cc:1100-1145` | the lookup in any state of a guarded run answers, for a snapshot n taken earlier in the run, what the last operation on the key among the run's first n left there |
| `EngineReads.LevelsHold` | `Prototype/Pods/leveldb-library/db/version_set.cc:230-252` | the lists that a version hands to an iterator, one for each level-0 file and one for each deeper level, together hold exactly the version's entries and share no sequence number of a user key |
| `EngineReads.NewInternalIterator` | `Prototype/Pods/leveldb-library/db/db_impl.cc:1062-1087` | the iterator over memtables and version runs over the sorted union of everything that is stored, which exists in every reachable state |
| `EngineReads.IterationShowsHistory` | `Prototype/Pods/leveldb-library/db/db_impl.cc:1147-1157` | what DBIter shows of the list of everything stored is, ascending, exactly the keys that the run's first n operations leave at a value, with that value, n being the snapshot |
| `EngineReads.NewIterator` | `Prototype/Pods/leveldb-library/db/db_impl.cc:1147-1157` | in any state of a guarded run, DBIter over the merging iterator over all children is a cursor over exactly that list |
| `EngineReads.ScanInRun` | `Prototype/Pods/leveldb-library/db/db_iter.cc:141-198` | running that iterator from front to back gives, in order, exactly the keys that the run's first n operations leave at a value, with that value |
| `DBIterator.ViewAscends` | `Prototype/Pods/leveldb-library/db/db_iter.cc:35-58` | what the iterator shows is strictly ascending in user keys, so no key is shown twice |
| `DBIterator.ViewIsWhatReadersSee` | `Prototype/Pods/leveldb-library/db/db_iter.cc:35-58` | what the iterator shows is exactly the map of user keys whose newest entry at or below the snapshot is a value |
| `DBIterator.DBIter.CurrentPair` | `Prototype/Pods/leveldb-library/db/db_iter.cc:64-71` | the key and value the iterator shows are those of the shown list at its position, forwards and backwards |
| `DBIterator.DBIter.FindNextUserEntry` | `Prototype/Pods/leveldb-library/db/db_iter.cc:168-198` | the forward scan stops on the first entry to be shown, past hidden, deleted and not yet visible ones |
| `DBIterator.DBIter.FindPrevUserEntry` | `Prototype/Pods/leveldb-library/db/db_iter.cc:227-267` | the backward scan saves the last entry to be shown and ends before the first entry of its user key |
| `DBIterator.DBIter.Next` | `Prototype/Pods/leveldb-library/db/db_iter.cc:141-166` | moves to the following shown key from any position, whichever way the iterator was going |
| `DBIterator.DBIter.Prev` | `Prototype/Pods/leveldb-library/db/db_iter.cc:200-225` | moves to the preceding shown key from any position, whichever way the iterator was going |
| `DBIterator.DBIter.Seek` | `Prototype/Pods/leveldb-library/db/db_iter.cc:269-281` | moves to the first shown key at or after the target |
| `DBIterator.DBIter.SeekToFirst` | `Prototype/Pods/leveldb-library/db/db_iter.cc:283-292` | moves to the first shown key |
| `DBIterator.DBIter.SeekToLast` | `Prototype/Pods/leveldb-library/db/db_iter.cc:294-299` | moves to the last shown key |
| `Merger.MergeExists` | `Prototype/Pods/leveldb-library/table/merger.cc:13-29` | sorted children that share no sequence number of a user key have a sorted union |
| `Merger.MergingIterator.FindSmallest` | `Prototype/Pods/leveldb-library/table/merger.cc:148-161` | the current child becomes one with the smallest key, or none |
| `Merger.MergingIterator.FindLargest` | `Prototype/Pods/leveldb-library/table/merger.cc:163-176` | the current child becomes one with the largest key, or none |
| `Merger.MergingIterator.Next` | `Prototype/Pods/leveldb-library/table/merger.cc:55-79` | moves to the following entry of the union, turning all other children around if need be |
| `Merger.MergingIterator.Prev` | `Prototype/Pods/leveldb-library/table/merger.cc:81-108` | moves to the preceding entry of the union, turning all other children around if need be |
| `Merger.MergingIterator.Seek` | `Prototype/Pods/leveldb-library/table/merger.cc:47-53` | moves to the first entry of the union at or after the target |
| `Merger.MergingIterator.SeekToFirst` | `Prototype/Pods/leveldb-library/table/merger.cc:31-37` | moves to the first entry of the union |
| `Merger.MergingIterator.SeekToLast` | `Prototype/Pods/leveldb-library/table/merger.cc:39-45` | moves to the last entry of the union |
| `TwoLevel.SeekInFlat` | `Prototype/Pods/leveldb-library/table/two_level_iterator.cc:82-87` | seeking the index and then the block it names splits the whole list where a search of the whole would |
| `TwoLevel.LevelAsBlocks` | `Prototype/Pods/leveldb-library/db/version_set.cc:162-228` | a level's files, indexed by their largest keys, are blocks that the two-level iterator can run over, and together they are the sorted contents of the level |
| `TwoLevel.TwoLevelIterator.CurrentEntry` | `Prototype/Pods/leveldb-library/table/two_level_iterator.cc:32-39` | the key and value the iterator shows are those of all blocks end to end at its position |
| `TwoLevel.TwoLevelIterator.Seek` | `Prototype/Pods/leveldb-library/table/two_level_iterator.cc:82-87` | moves to the first entry of all blocks end to end at or after the target, past empty blocks |
| `TwoLevel.TwoLevelIterator.SeekToFirst` | `Prototype/Pods/leveldb-library/table/two_level_iterator.cc:89-94` | moves to the first entry, past empty blocks |
| `TwoLevel.TwoLevelIterator.SeekToLast` | `Prototype/Pods/leveldb-library/table/two_level_iterator.cc:96-101` | moves to the last entry, past empty blocks |
| `TwoLevel.TwoLevelIterator.Next` | `Prototype/Pods/leveldb-library/table/two_level_iterator.cc:103-107` | moves to the following entry of all blocks end to end |
| `TwoLevel.TwoLevelIterator.Prev` | `Prototype/Pods/leveldb-library/table/two_level_iterator.cc:109-113` | moves to the preceding entry of all blocks end to end |
| `Crc32c.StrideTablesAdvance` | `Prototype/Pods/leveldb-library/util/crc32c.cc:299-315` | looking up the four bytes of a word in the stride tables advances the word by sixteen zero bytes |
| `Crc32c.Extend` | `Prototype/Pods/leveldb-library/util/crc32c.cc:276-376` | for every start value, length and alignment the four-stride loop gives the byte-at-a-time CRC32C |
| `Crc32c.ExtendConcat` | `Prototype/Pods/leveldb-library/util/crc32c.h:13-18` | extending by one buffer and then another is extending by both end to end |
| `Crc32c.MaskIs` | `Prototype/Pods/leveldb-library/util/crc32c.h:24-31` | masking rotates right by fifteen bits and adds 0xa282ead8, modulo 2^32 |
| `Crc32c.UnmaskUndoesMask` | `Prototype/Pods/leveldb-library/util/crc32c.h:24-38` | unmasking a masked checksum gives the checksum back |
| `CrcDetection.ZeroByteIsEightBits` | `Prototype/Pods/leveldb-library/util/crc32c.cc:20-63` | a lookup in the byte table does what eight steps of polynomial division do |
| `CrcDetection.OneByteIsSeen` | `Prototype/Pods/leveldb-library/util/crc32c.h:13-18` | two buffers that differ in exactly one byte have different checksums, whatever is around it and whatever checksum is extended |
| `CrcDetection.BurstIsSeen` | `Prototype/Pods/leveldb-library/util/crc32c.h:13-18` | so have two buffers that differ only within four bytes in a row |
| `CrcWords.BitStepHolds` | `Prototype/Pods/leveldb-library/util/crc32c.cc:20-63` | one step of the division is a shift of the 32-bit register and an exclusive or with 0x82f63b78 |
| `CrcWords.TestBufferValue` | `Prototype/Pods/leveldb-library/util/crc32c.cc:266-274` | the checksum of the test buffer is 0xdcbc59fa |
| `LogWriter.Writer.AddRecord` | `Prototype/Pods/leveldb-library/db/log_writer.cc:34-80` | appends the fragments of the record for the writer's place in its block, with a trailer of zeros where no header fits |
| `LogWriter.WriteInTwoRuns` | `Prototype/Pods/leveldb-library/db/log_writer.cc:23-30` | a writer resumed at the length of the file goes on with the same bytes as one that was never interrupted |
| `LogReader.Reader.ReadPhysicalRecord` | `Prototype/Pods/leveldb-library/db/log_reader.cc:189-271` | over any bytes, reads what a record at that offset of the file is, independently of how the file is buffered in blocks |
| `LogReader.Reader.ReadRecord` | `Prototype/Pods/leveldb-library/db/log_reader.cc:56-174` | over any bytes, gathers fragments to the next whole record, and reports exactly the bytes it drops |
| `LogRecovery.RecordIsRead` | `Prototype/Pods/leveldb-library/db/log_reader.cc:56-174` | at any prefix of a log, a record that lies wholly inside is read back, and one that is cut off ends the log without a report |
| `LogRecovery.RecoverLog` | `Prototype/Pods/leveldb-library/db/log_reader.cc:56-174` | reading any prefix of a log gives, in order, exactly the records that lie wholly inside it and reports nothing |
| `LogRecovery.ChecksumIsAccepted` | `Prototype/Pods/leveldb-library/db/log_writer.cc:95-99` | the masked checksum that the writer extends from the type is the one that the reader computes over type and payload |
| `LogRecovery.WriteCutAndRecover` | `Prototype/Pods/leveldb-library/db/log_reader.cc:237-251` | records written in two runs with real checksums, cut at any byte, and read with checking on: exactly the records inside the cut, and no report |
| `LogDamage.DamagedRecordIsRefused` | `Prototype/Pods/leveldb-library/db/log_reader.cc:237-257` | a record whose type or payload differs from what was written in one byte, or only within four in a row, is a bad record, and the rest of its block is dropped and reported |
| `LogDamage.DamageIsReported` | `Prototype/Pods/leveldb-library/db/log_reader.cc:150-172` | nothing of the damaged block comes back from there on: the damage is reported first, and reading goes on as it would from the next block |
| `LogDamage.BlockIsAccountedFor` | `Prototype/Pods/leveldb-library/db/log_reader.cc:218-268` | of a whole block, either a header and its payload are passed over or all that is left is reported, except for the zeros of preallocated files |
| `LogDamage.NothingIsDroppedInSilence` | `Prototype/Pods/leveldb-library/db/log_reader.cc:72-172` | over any file, every payload byte that reading a record goes over is in the record or reported, and only the end of the file may leave a record unfinished without a report |
| `Coding.Fixed32RoundTrip` | `Prototype/Pods/leveldb-library/util/coding.cc:9-18` | decoding an encoded 32-bit number, whatever follows it, gives it back |
| `Coding.Fixed64RoundTrip` | `Prototype/Pods/leveldb-library/util/coding.cc:20-33` | decoding an encoded 64-bit number, whatever follows it, gives it back |
| `Coding.FixedIsLeastFirst` | `Prototype/Pods/leveldb-library/util/coding.h:5-8` | fixed-width numbers are stored least significant byte first |
| `Coding.VarintRoundTrip` | `Prototype/Pods/leveldb-library/util/coding.cc:112-157` | decoding an encoded variable-length number, whatever follows it, gives it and its length back |
| `Coding.VarintIsLeastFirst` | `Prototype/Pods/leveldb-library/util/coding.cc:47-85` | variable-width numbers are stored least significant seven bits first |
| `Coding.EncodeVarint32` | `Prototype/Pods/leveldb-library/util/coding.cc:47-73` | the unrolled 32-bit encoder writes the base-128 form, in at most five bytes |
| `Coding.EncodeVarint64` | `Prototype/Pods/leveldb-library/util/coding.cc:81-90` | the encoding loop writes the base-128 form, in at most ten bytes |
| `Coding.GetVarint32` | `Prototype/Pods/leveldb-library/util/coding.cc:112-140` | over any bytes, decodes a base-128 number of at most five bytes, modulo 2^32, or fails |
| `Coding.GetVarint64` | `Prototype/Pods/leveldb-library/util/coding.cc:142-169` | over any bytes, decodes a base-128 number of at most ten bytes, modulo 2^64, or fails |
| `Coding.SliceParses` | `Prototype/Pods/leveldb-library/util/coding.cc:171-190` | a length-prefixed string, whatever follows it, is read back |
| `Blocks.EntryParses` | `Prototype/Pods/leveldb-library/table/block.cc:54-80` | an encoded entry decodes to the sizes, key suffix and value that were written |
| `BlockBuilding.BlockBuilder.Add` | `Prototype/Pods/leveldb-library/table/block_builder.cc:72-106` | appends the pair, prefix-compressed against the last key or in full at a restart point |
| `BlockBuilding.BlockBuilder.Finish` | `Prototype/Pods/leveldb-library/table/block_builder.cc:62-70` | the finished bytes are a block of exactly the added pairs with its restart array |
| `BlockBuilding.BuildAndOpen` | `Prototype/Pods/leveldb-library/table/block.cc:24-39` | for every strictly increasing list of pairs and every restart interval, the built block opens as an iterator over exactly those pairs |
| `BlockIter.Iter.ParseNextKey` | `Prototype/Pods/leveldb-library/table/block.cc:224-250` | takes the next pair from the bytes, its key rebuilt from the shared prefix, and keeps the restart index in step |
| `BlockIter.Iter.Seek` | `Prototype/Pods/leveldb-library/table/block.cc:163-201` | the binary search over restart points and the scan from there end on the first key that is not before the target |
| `BlockIter.Iter.Next` | `Prototype/Pods/leveldb-library/table/block.cc:137-140` | moves to the following pair |
| `BlockIter.Iter.Prev` | `Prototype/Pods/leveldb-library/table/block.cc:142-161` | moves to the preceding pair, by going back to a restart point and forward again |
| `BlockIter.Iter.SeekToLast` | `Prototype/Pods/leveldb-library/table/block.cc:208-213` | moves to the last pair |
| `Comparator.CompareIsOrder` | `Prototype/Pods/leveldb-library/util/comparator.cc:25-27` | the bytewise order is a strict total order |
| `Comparator.FindShortestSeparator` | `Prototype/Pods/leveldb-library/util/comparator.cc:29-50` | the result is the start itself or strictly between start and limit; it differs from the start exactly when there is a byte between theirs where the two first differ, and then it ends there |
| `Comparator.FindShortSuccessor` | `Prototype/Pods/leveldb-library/util/comparator.cc:52-64` | the result is at or after the key; it ends with the first byte that is not 0xff, incremented, and is the key itself exactly if all its bytes are 0xff |
| `Comparator.RankKeepsOrder` | `Prototype/Pods/leveldb-library/util/comparator.cc:25-27` | byte strings embed in the reals in their order, so that the engine's user keys stand for them |
| `InternalKeys.EncodingsCompare` | `Prototype/Pods/leveldb-library/db/dbformat.cc:51-67` | encoded internal keys compare as the keys they encode |
| `InternalKeys.CompareIsOrder` | `Prototype/Pods/leveldb-library/db/dbformat.cc:51-67` | the order on encoded keys is a strict total order |
| `InternalKeys.FindShortestSeparator` | `Prototype/Pods/leveldb-library/db/dbformat.cc:69-86` | the separator is the start or the first possible key of a user key strictly between, never before the start and before the limit; it is shorter exactly when the user keys leave room before the start's last byte |
| `InternalKeys.FindShortSuccessor` | `Prototype/Pods/leveldb-library/db/dbformat.cc:88-101` | the successor is the key or the first possible key of a later user key, never before the key; it is shorter exactly when a byte before the user key's last can be incremented |
| `Bloom.CreateFilter` | `Prototype/Pods/leveldb-library/util/bloom.cc:28-54` | exactly the probe bits of the given keys are set, for any hash function, in a filter of the stated size |
| `Bloom.KeyMayMatch` | `Prototype/Pods/leveldb-library/util/bloom.cc:56-80` | the answer is whether all probe bits of the key are set, or the filter is of an unknown kind |
| `Bloom.AddedKeyMatches` | `Prototype/Pods/leveldb-library/util/bloom.cc:28-80` | a filter never rejects a key that it was made from |
| `Bloom.MatchesExactlyWhen` | `Prototype/Pods/leveldb-library/util/bloom.cc:58-79` | a key is let through exactly if each of its probe bits is a probe bit of some added key, and a filter of no keys lets none through |
| `Bloom.SteppedIs` | `Prototype/Pods/leveldb-library/util/bloom.cc:45-54` | the probes are the first hash plus multiples of the second, modulo 2^32 |
| `FilterBlocks.FilterBlockBuilder.StartBlock` | `Prototype/Pods/leveldb-library/table/filter_block.cc:21-27` | filters are made up to the new offset, and every key added so far keeps its place: in the filter for its offset, or waiting for it |
| `FilterBlocks.FilterBlockBuilder.Finish` | `Prototype/Pods/leveldb-library/table/filter_block.cc:35-49` | in the finished filter block every key that was ever added may match at the offset it was added at |
| `FilterBlocks.KeyMayMatch` | `Prototype/Pods/leveldb-library/table/filter_block.cc:90-104` | over any contents, decides by the filter that the offset array names, and matches whatever it cannot check |
| `FilterBlocks.AddedKeyMayMatch` | `Prototype/Pods/leveldb-library/table/filter_block.cc:90-104` | a key added while its block was being written is not rejected for that block's offset, despite the array arithmetic and 32-bit offsets |
| `FilterBlocks.DecidedByItsFilter` | `Prototype/Pods/leveldb-library/table/filter_block.cc:91-104` | for an offset that has a filter, that filter alone decides, and one made of no keys lets none through |
| `Tables.HandleRoundTrip` | `Prototype/Pods/leveldb-library/table/format.cc:15-29` | a block handle decodes to what was encoded |
| `TableBuilding.TableBuilder.Add` | `Prototype/Pods/leveldb-library/table/table_builder.cc:94-123` | appends one pair to what the table holds, writing the index entry of the finished block before it |
| `TableBuilding.TableBuilder.Flush` | `Prototype/Pods/leveldb-library/table/table_builder.cc:125-139` | the data block being filled becomes a block of the file; the table holds the same pairs as before, and its index entry is left pending |
| `TableBuilding.TableBuilder.Finish` | `Prototype/Pods/leveldb-library/table/table_builder.cc:198-253` | the finished file is a table of exactly the added pairs, with separators that split its blocks and a filter that knows every key |
| `TableSearch.SearchIsComplete` | `Prototype/Pods/leveldb-library/table/table.cc:216-238` | one seek in the index and one in the block it names miss no entry of the user key, although index keys are shortened: if an entry qualifies, the pair found is of that user key and not after it |
| `Tables.InternalGet` | `Prototype/Pods/leveldb-library/table/table.cc:216-244` | finds the first pair not before the key in all blocks if it is of the key's user key; the filter hides nothing |
| `TableLookup.FirstIsNewest` | `Prototype/Pods/leveldb-library/db/version_set.cc:263-276` | what the callback takes from the pair found is the newest entry of the user key at or below the snapshot, or nothing if there is none |
| `TableLookup.Get` | `Prototype/Pods/leveldb-library/table/table.cc:216-244` | looking a key up in the bytes of a table gives what the lookup in its list of entries gives |
| `TableLookup.BuildTable` | `Prototype/Pods/leveldb-library/table/table_builder.cc:94-253` | rows added in key order, blocks cut anywhere, become a table of exactly those rows |
| `TableLookup.BuildAndGet` | `Prototype/Pods/leveldb-library/table/table.cc:216-244` | from builder to lookup: a table built from any rows answers every user key at every snapshot as the lookup among the rows does |
| `WriteBatches.WriteBatch.Put` | `Prototype/Pods/leveldb-library/db/write_batch.cc:98-103` | one more put at the end of the batch, and the count in the header goes up by one |
| `WriteBatches.WriteBatch.Delete` | `Prototype/Pods/leveldb-library/db/write_batch.cc:105-109` | one more deletion at the end of the batch, and the count in the header goes up by one |
| `WriteBatches.WriteBatch.Append` | `Prototype/Pods/leveldb-library/db/write_batch.cc:144-148` | the batch holds its own operations and then the other's; its sequence number stays |
| `WriteBatches.InsertInto` | `Prototype/Pods/leveldb-library/db/write_batch.cc:42-80` | over any bytes, inserts the operations that parse under consecutive sequence numbers, and succeeds exactly if all bytes parse and the count agrees |
| `WriteBatches.BatchInserts` | `Prototype/Pods/leveldb-library/db/write_batch.cc:132-137` | the bytes of a batch give back its sequence number, its count and its operations |
| `WriteBatches.WriteBatch.Clear` | `Prototype/Pods/leveldb-library/db/write_batch.cc:35-38` | the batch holds nothing and its sequence number is 0 |
| `WriteBatches.WriteBatch.SetSequence` | `Prototype/Pods/leveldb-library/db/write_batch.cc:94-96` | the header gets the sequence number and the operations stay |
| `WriteBatches.WriteBatch.Sequence` | `Prototype/Pods/leveldb-library/db/write_batch.cc:90-92` | the header gives the sequence number that was set |
| `GroupCommit.BuildBatchGroup` | `Prototype/Pods/leveldb-library/db/db_impl.cc:1260-1306` | the group is a prefix of the queue that starts with the leader, holds no sync write behind a leader that is not, keeps the size limit, and has its operations in queue order |
| `GroupCommit.RunKeepsInvariant` | `Prototype/Pods/leveldb-library/db/db_impl.cc:1185-1256` | in every run of arriving, leading, logging, syncing, inserting, failing and finishing steps each successful batch is applied exactly once, in queue order, under contiguous sequence numbers |
| `GroupCommit.SnapshotsSeeWholeGroups` | `Prototype/Pods/leveldb-library/db/db_impl.cc:1213-1236` | what any snapshot that could be taken sees is exactly the groups committed by then: no part of a batch |
| `GroupCommit.SnapshotsNeverChange` | `Prototype/Pods/leveldb-library/db/db_impl.cc:1100-1136` | what a snapshot sees never changes, even while a group is being inserted without the mutex |
| `MemTableReads.ReadersSeeLastAcknowledged` | `Prototype/Pods/leveldb-library/db/memtable.cc:75-135` | in any run of group commit, the memtable reads, at a snapshot taken in state i and in every later state, as the last operation on the key among the groups acknowledged by state i, in queue order |
| `GroupCommit.SyncWritesAreSynced` | `Prototype/Pods/leveldb-library/db/db_impl.cc:1280-1285` | a sync write is only ever committed by a sync leader, and gets Ok only if the log was synced |
| `GroupCommit.WritersFinishInOrder` | `Prototype/Pods/leveldb-library/db/db_impl.cc:1239-1253` | writers finish in the order they arrived, each with its group's status, and none is lost or finished twice |
| `GroupLogs.RunKeepsLog` | `Prototype/Pods/leveldb-library/db/db_impl.cc:1213-1236` | in every state of every run the log holds exactly the records of the groups that got as far as the log, in order, plus at most the one in progress; every group with status Ok is there, and nothing follows a failed sync |
| `GroupLogs.ReplayGivesMemTable` | `Prototype/Pods/leveldb-library/db/db_impl.cc:1213-1236` | between groups, replaying the log gives exactly the memtable back; after a failed sync it gives at least the memtable |
| `LogRetention.NothingIsLost` | `Prototype/Pods/leveldb-library/db/db_impl.cc:223-278` | in every reachable state every acknowledged write is in a live log at or above the log number or in an installed table, every durable MANIFEST head can be recovered, and all tables of live versions exist |
| `LogRetention.DeletedLogsAreFlushed` | `Prototype/Pods/leveldb-library/db/db_impl.cc:1310-1370` | deleting obsolete files leaves every write that is still only in a memtable in a log that recovery replays |
| `LogRetention.OnlyNeededFilesAreLeft` | `Prototype/Pods/leveldb-library/db/db_impl.cc:223-278` | after deleting obsolete files exactly the logs at or above the log number are left, with what they held, and exactly the tables of live versions and those being written |
| `LogRetention.NeededFilesAreKept` | `Prototype/Pods/leveldb-library/db/db_impl.cc:223-278` | no table of a live version is deleted in any run |
| `Manifest.Builder.Apply` | `Prototype/Pods/leveldb-library/db/version_set.cc:650-692` | deletions are noted first, additions after them and with them taken back, level by level |
| `Manifest.SaveOneLevel` | `Prototype/Pods/leveldb-library/db/version_set.cc:695-754` | the interleaving of base and added files with deletions left out is the level that the edit means |
| `Manifest.VersionLog.LogAndApply` | `Prototype/Pods/leveldb-library/db/version_set.cc:801-884` | the current version becomes the edit applied to it, and the MANIFEST, begun with a snapshot if need be, goes on with one record of edit and numbers |
| `Manifest.Recover` | `Prototype/Pods/leveldb-library/db/version_set.cc:924-1000` | one builder takes every record; the latest of each number counts, a missing one is an error, and the next file number is one past the recorded one |
| `Manifest.ReplayManifest` | `Prototype/Pods/leveldb-library/db/version_set.cc:886-1011` | replaying a MANIFEST through one builder gives the very version and log numbers that the calls of LogAndApply installed one by one, and a next file number above the recorded log number and every table recorded |
| `Manifest.MarkLogs` | `Prototype/Pods/leveldb-library/db/db_impl.cc:350-362` | each replayed log's tables get as many new numbers as it has tables, ascending, none below the recorded counter, above all logs replayed and tables written before; the counter ends above all of these and every log on disk, and no higher than that takes |
| `Manifest.RecoverNumbers` | `Prototype/Pods/leveldb-library/db/db_impl.cc:310-362` | opening the database gives no table a number that any table ever recorded had, and in the end the next file number is above every table that the MANIFEST named, every table that recovery wrote and every log on disk, recorded or not |
| `Manifest.RunAddsOnlyNew` | `Prototype/Pods/leveldb-library/db/version_set.cc:650-692` | in every run of flushes, moves and compactions no file number is added twice to a level: what LogAndApply asks for always holds |
| `Manifest.FlushMovesDown` | `Prototype/Pods/leveldb-library/db/db_impl.cc:491-533` | a flush is an edit of the kind such a run consists of |
| `Manifest.MoveMovesDown` | `Prototype/Pods/leveldb-library/db/db_impl.cc:718-728` | so is a trivial move |
| `Manifest.CompactionMovesDown` | `Prototype/Pods/leveldb-library/db/db_impl.cc:860-876` | so is a compaction |
| `EditRecords.DecodeFrom` | `Prototype/Pods/leveldb-library/db/version_edit.cc:107-205` | over any bytes, reads the fields in front and whether the input ends where a field does |
| `EditRecords.RoundTrip` | `Prototype/Pods/leveldb-library/db/version_edit.cc:41-205` | decoding an encoded version edit gives the edit back, deletions written in any order |
| `ManifestLog.ReadManifest` | `Prototype/Pods/leveldb-library/db/version_set.cc:924-971` | over any prefix of a MANIFEST file, the surviving records decode to the edits that were written, and the result is an error exactly if one of them names another comparator |
| `ManifestLog.Reopen` | `Prototype/Pods/leveldb-library/db/version_set.cc:886-1011` | from bytes to version: reading back a MANIFEST file gives the version and the numbers that the run of LogAndApply ended with |
| `LinkedLists.Lists.Remove` | `Prototype/Pods/leveldb-library/util/cache.cc:239-242` | unlinking from the circular doubly linked lists takes the entry out of whichever list has it and leaves both well linked |
| `LinkedLists.Lists.AppendToLru` | `Prototype/Pods/leveldb-library/util/cache.cc:244-250` | the entry becomes the newest of the lru list; the other list stays |
| `HandleTables.HandleTable.FindPointer` | `Prototype/Pods/leveldb-library/util/cache.cc:114-120` | the slot is where the key's handle is in its chain, or the end of the chain if there is none |
| `HandleTables.HandleTable.Insert` | `Prototype/Pods/leveldb-library/util/cache.cc:78-92` | the set of handles gains the new one and loses the one with its key and hash, if any, which is returned; there are never more handles than chains |
| `HandleTables.HandleTable.Remove` | `Prototype/Pods/leveldb-library/util/cache.cc:94-102` | the set of handles loses the one with the key, if any, which is returned |
| `HandleTables.HandleTable.Resize` | `Prototype/Pods/leveldb-library/util/cache.cc:122-147` | rehashing every chain keeps exactly the same handles; the new length is a power of two, no less than their number and less than twice that, or four |
| `LruCaches.LRUCache.Ref` | `Prototype/Pods/leveldb-library/util/cache.cc:217-223` | one more reference, and the first one moves the entry to the list in use |
| `LruCaches.LRUCache.Unref` | `Prototype/Pods/leveldb-library/util/cache.cc:225-237` | one reference fewer: the last one deletes the entry, and the last client's moves a cached one to the newest end of the lru list |
| `LruCaches.LRUCache.Lookup` | `Prototype/Pods/leveldb-library/util/cache.cc:252-259` | finds the one cached handle with the key and references it, or there is none and nothing changes |
| `LruCaches.LRUCache.Release` | `Prototype/Pods/leveldb-library/util/cache.cc:261-264` | gives back a client's reference, which always exists |
| `LruCaches.LRUCache.Insert` | `Prototype/Pods/leveldb-library/util/cache.cc:266-303` | the new handle replaces the one with its key, and then the oldest idle entries go one by one, no more of them than needed, until the usage fits or none is idle |
| `LruCaches.LRUCache.Erase` | `Prototype/Pods/leveldb-library/util/cache.cc:318-321` | the handle with the key leaves the cache, and is deleted unless a client still has it; otherwise nothing changes |
| `LruCaches.LRUCache.Prune` | `Prototype/Pods/leveldb-library/util/cache.cc:323-333` | every idle entry goes, in lru order, and no other |
| `LruCaches.OneHandlePerKey` | `Prototype/Pods/leveldb-library/util/cache.cc:69-112` | exactly one cached handle has a key that the table has |
| `LruCaches.DeletedWhenUnreferenced` | `Prototype/Pods/leveldb-library/util/cache.cc:225-237` | a handle's deleter has run exactly if no client and not the cache holds it, and no deleter runs twice |
| `SkipLists.PublishFits` | `Prototype/Pods/leveldb-library/db/skiplist.h:360-366` | linking a node in at one level keeps every level sorted and every level a sublist of the one below |
| `SkipLists.ReaderFindsGreaterOrEqual` | `Prototype/Pods/leveldb-library/db/skiplist.h:260-282` | a search whose steps are interleaved with any insertions ends on the first node at or after the target in the list as it is at the end |
| `SkipLists.ReaderFindsLessThan` | `Prototype/Pods/leveldb-library/db/skiplist.h:284-302` | the same for the last node before the target |
| `SkipLists.ReaderFindsLast` | `Prototype/Pods/leveldb-library/db/skiplist.h:304-322` | the same for the last node |
| `SkipLists.SkipList.FindGreaterOrEqual` | `Prototype/Pods/leveldb-library/db/skiplist.h:260-282` | the first node at or after the key, and on every level the node it follows |
| `SkipLists.SkipList.Insert` | `Prototype/Pods/leveldb-library/db/skiplist.h:336-368` | the key joins each level of its height at its place, all other nodes stay, and every memory state on the way is a well-formed list |
| `SkipLists.SkipList.Contains` | `Prototype/Pods/leveldb-library/db/skiplist.h:370-378` | true exactly if the key is in the list |
| `SkipLists.Iterator.Prev` | `Prototype/Pods/leveldb-library/db/skiplist.h:212-221` | moves to the preceding node of the sorted list by searching for it |
| `SkipLists.Iterator.Seek` | `Prototype/Pods/leveldb-library/db/skiplist.h:223-226` | moves to the first node at or after the target |
| `NanopbWire.EncodeVarint` | `Prototype/Pods/nanopb/pb_encode.c:608-628` | writes the base-128 form, in at most ten bytes |
| `NanopbWire.ZigZagRoundTrip` | `Prototype/Pods/nanopb/pb_encode.c:630-639` | zigzag decoding undoes zigzag encoding on every 64-bit signed number |
| `NanopbWire.VarintIsRead` | `Prototype/Pods/nanopb/pb_decode.c:255-276` | an encoded 64-bit number, whatever follows, is read back |
| `NanopbWire.Varint32IsRead` | `Prototype/Pods/nanopb/pb_decode.c:187-253` | an encoded 32-bit number, whatever follows, is read back by the 32-bit decoder |
| `NanopbWire.TagIsRead` | `Prototype/Pods/nanopb/pb_decode.c:298-319` | an encoded tag gives back its wire type and its field number |
| `NanopbWire.SmallTags` | `Prototype/Pods/nanopb/pb_encode.c:669-673` | a small field number and its wire type are one byte, the number above the three bits of 0, 1, 2 or 5 |
| `NanopbIterator.FieldIterator.Next` | `Prototype/Pods/nanopb/pb_common.c:20-76` | steps through the descriptor in a cycle and keeps count of the required fields before it |
| `NanopbIterator.FieldIterator.Find` | `Prototype/Pods/nanopb/pb_common.c:78-95` | finds the field with the tag from wherever the iterator stands, or goes once round and ends where it was |
| `NanopbEncoder.EncodeSubmessage` | `Prototype/Pods/nanopb/pb_encode.c:717-765` | the sizing run and the writing run agree: the length and then exactly that many bytes are written, and "submsg size changed" cannot happen |
| `NanopbEncoder.EncodeArray` | `Prototype/Pods/nanopb/pb_encode.c:147-236` | arrays of numbers are packed under one tag and length, others repeat their tag, and too many items are refused |
| `NanopbEncoder.EncodeField` | `Prototype/Pods/nanopb/pb_encode.c:341-426` | what a field contributes is written exactly when it is present |
| `NanopbEncoder.Encode` | `Prototype/Pods/nanopb/pb_encode.c:528-550` | succeeds exactly if all bytes and arrays fit their members and the stream has room, and then writes exactly the message's encoding |
| `NanopbEncoder.GetEncodedSize` | `Prototype/Pods/nanopb/pb_encode.c:567-576` | succeeds exactly if the message can be encoded, and gives the length of its encoding |
| `NanopbDecoder.InputStream.DecodeVarint32` | `Prototype/Pods/nanopb/pb_decode.c:187-253` | over any bytes, reads a number of at most ten bytes whose value fits 32 bits or extends its sign, or fails |
| `NanopbDecoder.InputStream.SkipOverField` | `Prototype/Pods/nanopb/pb_decode.c:321-334` | over any bytes, steps over exactly one field of the wire type, or fails |
| `NanopbDecoder.DecodeField` | `Prototype/Pods/nanopb/pb_decode.c:406-483` | over any bytes, puts one field's value where it belongs: last one wins, arrays grow up to their size, packed or not, submessages merge |
| `NanopbDecoder.RecordField` | `Prototype/Pods/nanopb/pb_decode.c:1015-1020` | setting the bit of a required field's index adds exactly that index to the set that the words stand for |
| `NanopbDecoder.AllRecorded` | `Prototype/Pods/nanopb/pb_decode.c:1054-1072` | comparing whole words and the remaining bits says exactly whether every required field was seen |
| `NanopbDecoder.CountRequired` | `Prototype/Pods/nanopb/pb_decode.c:1039-1052` | running the iterator to the end of the cycle counts the descriptor's required fields, wherever it stood |
| `NanopbDecoder.DecodeMessage` | `Prototype/Pods/nanopb/pb_decode.c:928-1076` | over any bytes, the stream-driven decoder with its cyclic iterator and its bitmap of required fields computes what reading field by field by tag computes, which is what the laws below are about |
| `NanopbDecoder.DecodeFromBuffer` | `Prototype/Pods/nanopb/pb_decode.c:1078-1090` | over any bytes, the decoder computes the reading that starts from the default message |
| `NanopbRoundTrip.RoundTrip` | `Prototype/Pods/nanopb/pb_decode.c:928-1090` | decoding an encoded message gives the message back, with what was not present at its default, if every string present ends inside its member; if one does not, decoding fails |
| `NanopbRoundTrip.FieldIsRead` | `Prototype/Pods/nanopb/pb_decode.c:951-1022` | the encoding of one field reads as that field wherever it comes, as long as nothing of the field has been read |
| `NanopbOrders.AnyOrderIsDecoded` | `Prototype/Pods/nanopb/pb_decode.c:928-1076` | any of a message's fields in any order: decoding fails exactly if one of the first 64 required fields is missing or a string leaves no room for its terminator, and otherwise gives those fields, and defaults for the rest |
| `NanopbOrders.MissingFieldsAreInitial` | `Prototype/Pods/nanopb/pb_decode.c:839-921` | fields that are missing read as their defaults, or zero, as not present, or as empty |
| `NanopbOrders.EveryOrderRoundTrips` | `Prototype/Pods/nanopb/pb_decode.c:928-1076` | all fields in any order decode to what the encoder's order gives |
| `NanopbOrders.MissingRequiredIsRefused` | `Prototype/Pods/nanopb/pb_decode.c:1033-1073` | the encoding of a message with the bytes of one of its first 64 required fields cut out is refused |
| `NanopbLaws.Concatenation` | `Prototype/Pods/nanopb/pb_decode.c:951-1022` | over any bytes, decoding one string of whole fields and another after it goes on from where the first has got to |
| `NanopbLaws.UnknownFieldsChangeNothing` | `Prototype/Pods/nanopb/pb_decode.c:973-990` | a field that the descriptor does not have, of any wire type and content, changes nothing between any two strings of fields |
| `NanopbLaws.UnknownFieldInEncoding` | `Prototype/Pods/nanopb/pb_decode.c:973-990` | nor does it after any of the fields of an encoded message |
| `NanopbLaws.UnknownWireTypeIsRefused` | `Prototype/Pods/nanopb/pb_decode.c:321-336` | an unknown field with a wire type for groups, or none that exists, ends the decoding with an error |
| `NanopbLaws.LastValueStays` | `Prototype/Pods/nanopb/pb_decode.c:413-422` | of several values for one number, string or bytes field, the last one stays, whatever was read before |
| `NanopbLaws.LastMemberIsChosen` | `Prototype/Pods/nanopb/pb_decode.c:466-480` | of several members of a union the last one sent is chosen |
| `NanopbLaws.PackedOrNot` | `Prototype/Pods/nanopb/pb_decode.c:424-464` | an array of numbers reads the same packed and item by item, added to what is there, and is refused alike when it is too long |
| `NanopbLaws.SubmessagesMerge` | `Prototype/Pods/nanopb/pb_decode.c:1505-1540` | a submessage sent in two parts reads as one whose encoding is the two end to end, if each part has its required fields |
| `NanopbSoundness.DecodedFits` | `Prototype/Pods/nanopb/pb_decode.c:1320-1503` | whatever the bytes, what decodes without error fits its descriptor: numbers in range, strings and arrays within their bounds, unions with one of their members, submessages too |
| `NanopbSoundness.DecodedRoundTrips` | `Prototype/Pods/nanopb/pb_decode.c:1078-1090` | and it can be encoded again and decodes to itself in canonical form |
| `NanopbPresence.DecodedIsSameExactlyWhen` | `Prototype/Pods/nanopb/pb_decode.c:839-921` | what is decoded has the same present fields as the message if and only if no field that was left out as zero has a default other than zero, submessages included |
| `NanopbPresence.FullStringIsRefused` | `Prototype/Pods/nanopb/pb_encode.c:875-899` | a string that fills its member, of any length, is encoded without error and its encoding is refused by the decoder |
| `NanopbPresence.ZerosAreNotWritten` | `Prototype/Pods/nanopb/pb_encode.c:240-337` | a message without required fields and with zeros for defaults is encoded, while it holds only these, in no bytes at all |
| `ManifestLog.KeyOfEncoded` | `Prototype/Pods/leveldb-library/db/dbformat.h:136-148` | the bytes of an encoded internal key in a MANIFEST stand for that key |

## Left out

What the repository does that is not modelled:

- The Swift application, `Tools/csv-json.py`, CodableFirebase, the GTMSessionFetcher headers and the BoringSSL tables: user interface, glue and declarations without logic of their own.
- LevelDB's `Env`, file names, loggers, Snappy, statistics, `dumpfile`, `repair` and the C interface: plumbing. A file is a sequence of bytes; a rename and a sync are single steps.
- User comparators other than through their order: a user key is a real number that stands for its rank. `Comparator.RankKeepsOrder` gives the embedding for the default comparator.
- Corrupted keys, table blocks and files, and the error statuses they lead to, beyond what the log reader and the decoders do with arbitrary bytes. Checksums of table blocks are stored but not verified on reading.
- The memtable flush in the middle of a compaction's loop: a compaction reads one version and installs one edit.
- Sizes, scores, seek counts, overlap with grandparents and throttling as reasons to act: which compaction runs, where an output file is cut, and whether a lone input is moved instead of rewritten are choices of the run, except in `resurfacing`; the file sizes that `SetupOtherInputs`, `CompactRange` and the placement of a flush compare are in the model.
- Deletions and values at the largest sequence number: a run stops short of it, as the code assumes.
- `NewMergingIterator`'s shortcuts for no child and one child, and iterator cleanup, status and read sampling.
- The leaves of the joined iterator: DBIter runs over the merging iterator, but that runs over list iterators; the skip list's, the block's and the two-level iterator are proved to make the same five movements over the same lists (`TwoLevel.LevelAsBlocks` for a level), and are not plugged in.
- The log reader's `initial_offset` other than 0.
- The block cache, the metaindex block, the footer and reopening a table file: a table is handed to the reader with its index and filter.
- The hash function of Bloom filters and cache keys: any function will do.
- `keys_` and `start_` of the filter builder as one flat string: a list of keys here.
- Null batches in the writer queue, and a failed MANIFEST write or CURRENT rename.
- Compaction pointers in recovered versions: they are decoded, and only steer later choices.
- List nodes and handles as memory addresses: identifiers and maps from identifiers to fields stand for them, and memory is never reused.
- `RandomHeight` and the links of a new node before they are set: parameters that may be anything. The order of atomic accesses is sequentially consistent.
- Concurrent calls into the cache, its sharding and its destructor: each call holds the mutex throughout.
- nanopb callbacks, extensions, pointer fields, `malloc`, fixed-count arrays, delimited and null-terminated messages, builds without 64-bit numbers, and varints longer than ten bytes in the 32-bit decoder.
- The bytes of a union that is not chosen, and of a string after its terminator: a union is its choice, a string the characters before the terminator.
- Descriptors that lie about their structs: a wrong `data_size` is not a descriptor here.

What is stated weaker than it might be:

- Engine.RunKeepsReads: asks for guarded compactions, because without the guard the property is false of the code; `CompactionReads.CompactionIsSafeExactlyWhen` says exactly when it fails.
- ManifestLog.Reopen: asks that the encoded edits say what the run recorded; the entries of a table file are looked up by file number and not read from its bytes.
- NanopbDecoder.InputStream.DecodeVarint32: does not model varints longer than ten bytes, which the code reads on as long as they extend the sign.
