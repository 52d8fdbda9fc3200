# A verified model of the expense store

This project models, in Dafny, the storage engine of the repository (write-ahead
log, memtable, sorted string tables, flush, level compaction, and the LSM engine
that ties them together) and its small SQL layer, and proves what they keep over
every input and every run.

`dafny verify dfyconfig.toml` checks all of it.

How the model is laid out:

- Code that changes things step by step is a class or a method with loops
  (`LsmEngine`, `MemTable`, `WalReader`, `WalWriter`, `SsTableBuilder`,
  `SsTableReader`, `SsTableIter`, `LevelManager`, `ManifestCell`, the merge loop).
  Each is proved against a function on values, and the theorems are about those
  functions and about runs made of them.
- `EngineState` holds the engine's operations as functions, `EngineRuns` a state
  machine of writers that take a sequence number first and the engine's lock
  later, crashes and reopenings, and `EngineTheorems` what readers and recovery
  see of its runs. `LogParts` says which part of the log each memtable holds,
  `EngineReads` is about reads whose snapshot is older than the state they meet,
  `FrozenKeys` tells from the calls alone which deleted keys a lookup still finds, and
  `EngineTables` which place answers lookups and scans once there are tables.
- `Versions` is what it means to be a newest version; `CompactionTheorems`,
  `InstallTheorems`, `LateInstall`, `LevelSearch` and `LevelScan` say what one
  compaction keeps of the files, the levels, lookups and scans. `LevelRuns` puts new
  files and compactions together to whole processes, and `CompactionRuns` with
  reopenings to whole runs of a directory.
- `FileBytes` gives the file formats byte by byte and `RowBytes` the layout of rows in
  the store.
- `SqlAtoms`, `SqlRoundTrip` and `SqlSelect` are about the parser, `SqlConditions`,
  `SqlResults` and `SqlInserts` about what WHERE means, SELECT returns and INSERT stores,
  and `SqlTheorems` about the id fast path, groups and the sort.
- `Bytes`, `Ordered`, `Sequences`, `Utf8` and `Wrappers` are the shared vocabulary:
  byte strings in lexicographic order, little-endian integers, sorted listings,
  UTF-8.
- Files are byte sequences; 16-, 32- and 64-bit fields are cut to their width
  where the source casts or wraps. `usize` is taken to be 64 bits wide.
- The CRC, the Bloom filter library and the row codec are parameters. Lemmas that
  need it say so: `NoFalseNegatives` for the filter, `Inverse` for the codec, which
  `RowBytes.RowsInverse` shows of the rows' own layout. Amounts are real numbers; a
  codec says which rows it can store, with doubles those whose amount is the value of
  a finite double (`RowBytes.StorableAmounts`).

Where the code and what is written about it disagree, the model follows the code:

- A record header is three variable-length integers, not the 16 bytes the comment
  at `crates/wal/src/record.rs:30` gives it.
- The log reader's comment says a partial write ends the log cleanly
  (`crates/wal/src/reader.rs:59`); a cut right after the checksum or inside the
  header is reported as an error instead, again on every further call
  (`WalLog.TornLog`, `WalLog.FailureRepeats`), and the directory then does not open
  (`EngineTheorems.TornCrash`).
- The footer is 56 bytes, not 48 (`crates/sstable/src/footer.rs:1`), and the index
  is walked from its start, not searched by bisection (`crates/sstable/src/reader.rs:48`).
- A scan goes through the tables of a level in list order, so in level 0 the oldest
  file has the last word, not the newest (`crates/lsm/src/engine.rs:152`).
  `LevelScan.ScanRightExactly` says exactly when the scan is right all the same,
  `EngineTables.ScanExactly` what any scan lists, and `LevelScan.ScanDisagreesExample`
  shows one listing an overwritten value.
- Appending behind a torn tail does not continue the log: the torn record's header
  takes the appended bytes for its body (`WalLog.AppendAfterTornTail` gives the three
  outcomes), and with one writer the first record appended has its number
  (`EngineTheorems.TornNumberIsReused`).
- A reader takes its snapshot before the lock, and memtables keep one version of a
  key, so a key overwritten in between is missed although it was live all the time,
  unless a frozen memtable still shows an older value of it
  (`EngineReads.OverwrittenKeyIsMissed`); `EngineReads.OldSnapshotExactly` says
  exactly what any snapshot is right about.
- Level 0 is said to be newest first (`crates/lsm/src/levels.rs:27`), but a merged table
  is put in front of files that were added while it was made, so a lookup can go
  stale; `LateInstall.LateInstallExactly` says exactly when, `LateInstall.LateOrderExactly`
  when the order survives, and `LateInstall.LateInstallExample` shows it.
- A compaction reads the id counter and writes it in two locked sections, so a file
  added in between shares its id and is overwritten; `CompactionRuns.FinishExactly` says
  exactly when that loses a newest version and `CompactionRuns.IdClashExample` shows it.
- Group keys are the fields joined by '|', so rows that differ can share a group;
  `SqlTheorems.SameGroupExactly` says exactly when they do not, and
  `SqlTheorems.MixedGroupExample` shows two that do.
- A tombstone ends a point lookup only in its own layer, so a deleted key can come
  back (`EngineTheorems.DeletedKeyComesBack`); `FrozenKeys.LookupOverCalls` says
  exactly when a lookup is right, from the calls alone.
- A compacted file is recorded with the key range of the level-0 inputs only
  (`crates/lsm/src/compaction.rs:151`); `LevelSearch.RangeStaysTight` says exactly
  when that is right, `LevelSearch.ReopenedFindsExactly` and `CompactionRuns.ReopenedExactly`
  what lookups give after reopening, and `LevelSearch.LostKeyExample` shows a lost key.
- Compaction drops files that did not open from the manifest although the merge
  never read them; `CompactionTheorems.LostExactly` says exactly when that loses a
  newest version and `CompactionTheorems.LostFileExample` shows it.
- The block's length fields are narrower than the log's: a key of 65536 bytes or
  more is logged whole and flushed cut (`Block.EntryRoundTripExactly`).
- A write with an empty key is logged before it is refused, and the directory does
  not open again afterwards (`EngineTheorems.WholeRun`).
- The parser's own unit test expects ORDER BY and LIMIT behind a GROUP BY to be
  kept (`crates/sql/src/parser.rs:217-227`); the parser drops both
  (`SqlSelect.LateOrderByIsDropped`); `SqlSelect.ClausesReadExactly` says exactly
  which clauses of any text are read.
- The id fast path ignores LIMIT 0 and can return a deleted row; `SqlTheorems.FastPathAgrees`
  says exactly when it agrees with the full scan.

## Model

| member | source | states |
|---|---|---|
| WalRecord.VarintRoundTrip | crates/wal/src/record.rs:41-42 | an integer of the header, with anything behind it, decodes to itself and to the number of bytes it took |
| WalRecord.VarintPrefix | crates/wal/src/record.rs:72-74 | no proper prefix of an encoded integer decodes, so the code is prefix-free |
| WalRecord.HeaderRoundTrip | crates/wal/src/record.rs:22-42 | a header in front of any bytes decodes to itself and its length |
| WalRecord.HeaderPrefix | crates/wal/src/record.rs:72-74 | a header cut anywhere inside does not decode |
| FileBytes.VarintBytes | crates/wal/src/record.rs:41-42 | an integer of the header is one byte below 251, and otherwise the byte 251, 252 or 253 and the integer in 2, 4 or 8 bytes, the least width that holds it |
| FileBytes.LittleEndian | crates/wal/src/record.rs:1 | the i-th byte of a fixed-width integer is its i-th lowest |
| WalRecord.Decode | crates/wal/src/record.rs:62-111 | whatever the bytes, a successful decode consumes at least 7 of them and never more than there are, and yields a record within the length fields |
| WalRecord.DecodeEncode | crates/wal/src/record.rs:31-111 | an encoded record followed by anything decodes to the record and exactly its own length |
| WalRecord.RoundTripExactly | crates/wal/src/record.rs:31-111 | decoding undoes encoding if and only if the key is below 2^32 bytes and the value below 2^32 - 1 |
| FileBytes.RecordBytes | crates/wal/src/record.rs:1-4 | a record is the checksum of all that follows it, the number, the two lengths with the largest u32 for a tombstone, the key and the value |
| WalRecord.DecodeTorn | crates/wal/src/record.rs:62-90 | an encoded record cut at any byte: a decode error right after the checksum or inside the header, an I/O error everywhere else |
| WalLog.WalReader.constructor | crates/wal/src/reader.rs:13-18 | the reader starts at the first byte of the whole file |
| WalLog.WalReader.Next | crates/wal/src/reader.rs:50-62 | a record advances by exactly its bytes; the end and a torn tail give None; any other error is reported without advancing |
| WalLog.FailureRepeats | crates/wal/src/reader.rs:59-60 | once the reader fails it fails at the same place after any number of further calls |
| WalLog.ReplayPrefix | crates/wal/src/reader.rs:50-62 | a log in front of any bytes replays all its records first and then whatever those bytes replay |
| WalLog.ReplayEncodeAll | crates/wal/src/reader.rs:50-62 | an untorn log replays exactly its records, in order, to a clean end |
| WalLog.CutShape | crates/wal/src/reader.rs:50-62 | every byte cut of a log is some number of whole records and a proper prefix of the next |
| WalLog.TornLog | crates/wal/src/reader.rs:50-62 | for every record list and every byte cut: exactly the records wholly inside the cut come back; the end is an error if and only if the cut is right after a checksum or inside a header |
| WalLog.DecodeMixed | crates/wal/src/record.rs:62-111 | a record's checksum and header take whatever bytes follow for the body: too few are an I/O error, a different checksum a mismatch, and otherwise a record comes back with the header's number and a key and value cut from those bytes |
| WalLog.AppendAfterTornTail | crates/wal/src/writer.rs:13-25 | whole records, then one torn in its body, then anything appended: the whole records replay first, and then, with what is left of the body and the appended bytes, there are three outcomes: fewer bytes than the missing body end the log cleanly and are lost; a checksum that does not match ends it with an error; otherwise a record with the torn header's number and a key and value cut from those bytes comes back and reading goes on behind it. The appended record normally has that same number, so the number does not tell them apart |
| WalLog.AppendAfterTornChecksum | crates/wal/src/writer.rs:13-25 | behind whole records and one torn inside its checksum, what is appended is read from its first bytes on as the missing ones: the whole records replay, and then exactly what decoding a header, a key and a value from the bytes behind those gives, with all its errors, and what reading on gives |
| WalLog.WalWriter.Open | crates/wal/src/writer.rs:13-17 | opening keeps whatever the file holds, torn or not |
| WalLog.WalWriter.Append | crates/wal/src/writer.rs:19-25 | the file grows by exactly the encoded record |
| WalLog.AboveMember | crates/wal/src/reader.rs:24-27 | the records kept by a truncation are exactly those with a sequence number above the flushed one |
| WalLog.CollectAbove | crates/wal/src/reader.rs:23-27 | reading to the clean end collects, in log order, the records above the threshold |
| WalLog.WriteAll | crates/wal/src/reader.rs:32-42 | the rewritten file is the encoding of the records, one after the other |
| WalLog.TruncateAfter | crates/wal/src/reader.rs:22-44 | the rewritten file replays, to a clean end, exactly the records above the threshold, so it has no torn tail |
| MemTable.SizeUpdate | crates/memtable/src/memtable.rs:36-44 | replacing one entry changes the total size by the two entries' sizes, and what is subtracted is never more than the total |
| MemTable.MemTable.constructor | crates/memtable/src/memtable.rs:24-30 | a new memtable is empty with a size of 0 |
| MemTable.MemTable.Insert | crates/memtable/src/memtable.rs:37-44 | one entry is replaced and the byte counter stays the sum over the entries of key length, value length and 16 |
| MemTable.MemTable.Put | crates/memtable/src/memtable.rs:32-46 | an empty key is refused and changes nothing; otherwise the value is the key's one version and the byte counter is still the sum over the entries |
| MemTable.MemTable.Delete | crates/memtable/src/memtable.rs:48-62 | the same for a tombstone, which accounts for no value bytes |
| MemTable.MemTable.Get | crates/memtable/src/memtable.rs:66-69 | something is returned if and only if the key's one version is live and no newer than the read, and then its value; a tombstone reads as absent |
| Mvcc.SeqCounter.constructor | crates/lsm/src/mvcc.rs:6-7 | a fresh process starts numbering at 1 |
| Mvcc.SeqCounter.NextWriteSeq | crates/lsm/src/mvcc.rs:25-27 | hands out the current number and moves on by one, wrapping at 64 bits |
| Mvcc.SeqCounter.BumpNextSeqTo | crates/lsm/src/mvcc.rs:33-35 | the counter becomes the larger of itself and the bound, so it never goes back |
| Mvcc.SnapshotExactly | crates/lsm/src/mvcc.rs:21-23 | a snapshot sees a number if and only if it was handed out before; before the first write it sees that write's own |
| Levels.LevelManager.constructor | crates/lsm/src/levels.rs:34-46 | readers exist for exactly the listed files that open |
| Levels.LevelManager.AddL0 | crates/lsm/src/levels.rs:48-53 | the new table is the first of level 0, all others keep their places, its reader is registered |
| Engine.LsmEngine.Assemble | crates/lsm/src/engine.rs:70-80 | the opened engine starts with no frozen memtables |
| Engine.LsmEngine.OpenDir | crates/lsm/src/engine.rs:29-81 | opening is the replay of the log above the flushed number; on an error the counter is untouched; otherwise it is raised past every number seen |
| Engine.LsmEngine.Put | crates/lsm/src/engine.rs:83-91 | takes the next number, appends to the log, applies, freezes; the result and the whole new state are those of the locked step `Commit` of the run model, an empty key included |
| Engine.LsmEngine.Delete | crates/lsm/src/engine.rs:93-100 | the same for a tombstone, which never freezes the memtable |
| Engine.LsmEngine.Freeze | crates/lsm/src/engine.rs:210-216 | a memtable at or over 4 MiB moves behind the older frozen ones and an empty one takes its place; nothing else changes |
| Engine.LsmEngine.GetNow | crates/lsm/src/engine.rs:102-105 | a lookup at the snapshot of the current counter |
| Engine.LsmEngine.GetAt | crates/lsm/src/engine.rs:107-144 | the first live visible version from the active memtable, the frozen ones newest first, level 0 in list order, then deeper levels by key range |
| Engine.LsmEngine.SearchLevel | crates/lsm/src/engine.rs:122-141 | the first table of a level, in list order, that has a live visible version; from level 1 on only tables whose range holds the key |
| Engine.LsmEngine.ScanPrefix | crates/lsm/src/engine.rs:147-208 | the listing, in key order, of the map that tables, frozen memtables and the active one build when merged in that order |
| Engine.LsmEngine.MergeLevel | crates/lsm/src/engine.rs:155-168 | merging the tables of a level entry by entry is the fold of the level over the results |
| Engine.LsmEngine.MergeLayer | crates/lsm/src/engine.rs:172-185 | merging a memtable key by key gives the map in which its visible values replace and its visible tombstones remove, all keys at once |
| EngineRuns.RecoverFold | crates/lsm/src/engine.rs:47-62 | replaying a log rebuilds its fold and its highest number, or fails if and only if a record has an empty key |
| EngineRuns.LiveFold | crates/lsm/src/engine.rs:83-100 | the live entries of the folded log are the plain map of its puts and deletes |
| EngineRuns.FreezeCollapses | crates/lsm/src/engine.rs:210-216 | freezing does not change the collapsed layers |
| EngineRuns.CommitCollapses | crates/lsm/src/engine.rs:83-100 | a locked write changes the collapsed layers by exactly its own version, frozen or not |
| EngineRuns.NumbersAllocate | crates/lsm/src/mvcc.rs:25-27 | taking a number keeps all logged and pending numbers distinct and below the counter |
| EngineRuns.NumbersLocked | crates/lsm/src/engine.rs:86-90 | so does logging a pending record, whichever writer gets the lock |
| EngineRuns.StartGood | crates/lsm/src/engine.rs:29-81 | opening the file of any log works if and only if no record has an empty key, and then gives a state that satisfies the invariant with the counter above every logged number |
| EngineRuns.LockedGood | crates/lsm/src/engine.rs:86-90 | the locked section keeps the invariant and appends to the log exactly the pending record of that writer |
| EngineRuns.CrashGood | crates/lsm/src/engine.rs:44-65 | a crash that loses any number of last records, and the reopening after it, keep the invariant; what is recovered is exactly the rest |
| EngineRuns.ReopenGood | crates/lsm/src/engine.rs:44-65 | reopening without losses keeps the log, the invariant and the counter |
| EngineRuns.EveryRunIsGood | crates/lsm/src/engine.rs:83-100 | for every interleaving of writers, crashes and reopenings: the collapsed layers are the fold of the log in log order, logged and pending numbers are distinct and below the counter, and the file is the encoding of the log |
| EngineTheorems.ReplayRebuilds | crates/lsm/src/engine.rs:46-62 | at every reachable point replaying the file rebuilds the collapsed layers, or fails if and only if an empty key was logged |
| EngineTheorems.TornCrash | crates/lsm/src/engine.rs:46-62 | cutting the file of a reachable state at any byte: recovery gives the fold of the records wholly inside the cut, or an error if and only if the cut is right after a checksum or inside a header or an empty key was logged before it |
| EngineTheorems.TornNumberIsReused | crates/lsm/src/engine.rs:44-65 | with one writer's consecutive numbers, after a crash that tore a record and still lets the directory open, the next write gets the torn record's number |
| EngineTheorems.RecoverAbove | crates/lsm/src/engine.rs:49-61 | a replay that skips records up to f does not notice that they are gone |
| EngineTheorems.TruncationInvisible | crates/wal/src/reader.rs:22-44 | opening after truncating to f gives the same memtable and next number, or the same error, as opening the original with f as the flushed number, sequence numbers in any order |
| EngineTheorems.CounterPassesEverything | crates/lsm/src/engine.rs:37-65 | after every successful open the next write exceeds every number in log and manifest, and a read sees every replayed record, if and only if none of them is 2^64 - 1 |
| EngineTheorems.ScanIsPlain | crates/lsm/src/engine.rs:147-208 | in every reachable state a scan at the state's own snapshot is the sorted listing of the plain map's entries with the prefix |
| EngineTheorems.FrozenGetVisible | crates/lsm/src/engine.rs:115-119 | searching layers newest first finds nothing if and only if no layer holds a live version, and finds the latest version when that is live |
| EngineTheorems.PointLookup | crates/lsm/src/engine.rs:102-119 | in every reachable state a live key gets its latest value at the state's own snapshot; the lookup agrees with the plain map if and only if the key is live or no layer holds a live version of it; with nothing frozen, as after a reopen, it always agrees |
| EngineTheorems.SessionMirrors | crates/lsm/src/engine.rs:29-100 | a single client's calls, kills and reopenings keep the log's plain map equal to the map its calls built |
| EngineTheorems.WholeRun | crates/lsm/src/engine.rs:147-216 | from an empty directory, for every sequence of puts, deletes, kills and reopenings: the directory opens every time if and only if no restart follows a write with an empty key, and then every prefix scan is the key-sorted listing of the plain map |
| EngineTheorems.DeletedKeyComesBack | crates/lsm/src/engine.rs:107-119 | a value of about 4 MiB put and then deleted is still found by a lookup although a scan lists nothing |
| EngineReads.ReadAtSnapshot | crates/lsm/src/engine.rs:107-208 | in every reachable state, at every snapshot however old: a scan lists the live entries of the memtables with their too-new versions left out, a lookup finds each of these, and finds nothing if and only if no memtable so seen has a live version |
| LogParts.RunParts | crates/lsm/src/engine.rs:83-100 | in every state of every run of writers, crashes and reopenings the log falls into parts, one per memtable, each memtable the fold of its part |
| LogParts.LastVersion | crates/memtable/src/memtable.rs:32-62 | a memtable's one version of a key is also the last of those up to a number when it is no newer than it |
| EngineReads.OldSnapshotExactly | crates/lsm/src/engine.rs:102-119 | in every reachable state, at any snapshot, against the value the records up to it left for the key: unless the key was written again in the memtable that held its last version then, a lookup finds that value, or behind none what older memtables show; when it was, just what older memtables show; and it is right if and only if that comes to the same |
| EngineReads.OldScanExactly | crates/lsm/src/engine.rs:147-208 | in every reachable state a scan at any snapshot lists what the records up to it left if and only if, for every key with the prefix that was written again in the memtable that held its last version then, older memtables happen to show the same |
| EngineReads.OverwrittenKeyIsMissed | crates/lsm/src/engine.rs:102-113 | a read that takes its snapshot before a put under a live key and the lock after it sees just what the frozen memtables show of the key; a lookup finds nothing if and only if none of them holds a live version |
| FrozenKeys.CommitShape | crates/lsm/src/engine.rs:210-216 | a write freezes if and only if the keys and values written since the last freeze or restart fill a memtable |
| FrozenKeys.SessionFrozen | crates/lsm/src/engine.rs:210-216 | after any calls the keys with a live version in a frozen memtable are exactly those live when, by the sizes of what was written, a memtable was frozen since the last restart |
| FrozenKeys.LookupOverCalls | crates/lsm/src/engine.rs:102-119 | from the calls alone: a lookup finds the value of every key the calls left, and nothing for any other key if and only if that key was not live either when a memtable was frozen since the last restart |
| FrozenKeys.FreezesExactly | crates/lsm/src/engine.rs:210-216 | in any state a write with a key freezes the memtable if and only if it is a put and keys, values and 16 bytes for each entry then add up to 4194304 or more (in 64 bits); the frozen memtable has the new entry, and otherwise only the entry is new |
| FrozenKeys.OnePutFreezes | crates/memtable/src/memtable.rs:32-46 | into an empty memtable one put freezes if and only if key and value have 4194288 bytes or more |
| FrozenKeys.SmallRunsAreExact | crates/lsm/src/engine.rs:83-119 | after any calls that hand less than 4194304 bytes to the engine, puts and deletes counted with 16 bytes each, nothing is frozen and every lookup is that of the plain map |
| EngineTables.LookupExactly | crates/lsm/src/engine.rs:107-144 | for any memtables and tables, a lookup returns a value if and only if some place has it as a live version that the read can see and no sooner place has any: the active memtable, frozen ones newest first, level 0 in list order whatever the ranges, deeper levels by range |
| EngineTables.NothingExactly | crates/lsm/src/engine.rs:107-144 | and it returns nothing if and only if no place has such a version |
| EngineTables.FlushKeepsLookups | crates/lsm/src/flush.rs:9-50 | for any memtables and tables, moving the oldest frozen memtable to a table at the front of level 0 under an unused id changes no lookup at any snapshot |
| EngineTables.FlushesKeepLookups | crates/lsm/src/flush.rs:9-50 | nor does any number of such flushes |
| EngineTables.OpenedParts | crates/lsm/src/engine.rs:29-81 | opening keeps the log file and the manifest as they are, starts with nothing frozen, and has readers for exactly the listed files that open |
| EngineTables.OpenedTableIsRead | crates/lsm/src/engine.rs:29-81 | after opening, a key whose only version is a live one in one listed file (inside its range below level 0), with nothing of it in the log above the flushed number, reads as that value at every snapshot from its number on, and at the first one if it had been flushed |
| EngineTables.EmptyLogTableIsRead | crates/lsm/src/engine.rs:29-81 | with an empty log any directory opens and such a key is found |
| EngineTables.ScanExactly | crates/lsm/src/engine.rs:147-208 | for any memtables and tables, a scan lists an entry, in key order, if and only if it has the prefix, some place has it as a live visible version, and no place believed over that one has any visible version: newer memtables, less deep levels, later tables of the same level |
| EngineTables.FlushKeepsScans | crates/lsm/src/flush.rs:9-50 | a flush changes no scan when no other open table of level 0 holds a key of the flushed memtable |
| Block.DecodeEncodedEntry | crates/sstable/src/block.rs:26-97 | an entry within the length fields, with anything behind it, reads back as itself and its length |
| Block.EntryRoundTripExactly | crates/sstable/src/block.rs:26-97 | writing an entry is undone by reading it if and only if its key is below 2^16 bytes and its value below 2^32 |
| FileBytes.EntryBytes | crates/sstable/src/block.rs:1-2 | where each field of a block entry stands: number, tombstone flag, key length, value length, key, value |
| Block.DecodeEncodedEntries | crates/sstable/src/block.rs:70-98 | entries written end to end read back as one stream |
| Block.BlockBuilder.Add | crates/sstable/src/block.rs:26-39 | refuses an entry exactly when the block is not empty and would exceed 4096 bytes; otherwise the block holds one entry more and its last key is that entry's |
| Block.BlockIterator.Next | crates/sstable/src/block.rs:70-98 | yields the next entry and advances past it; a truncated entry is an error without advancing |
| SsTableBuilder.FooterRoundTrip | crates/sstable/src/footer.rs:22-55 | a footer behind any bytes is read back from the end of them, field by field |
| FileBytes.FooterBytes | crates/sstable/src/footer.rs:3-7 | where each of the nine footer fields stands, the magic number last |
| SsTableBuilder.PackedOnce | crates/sstable/src/builder.rs:52-55 | a list of entries has exactly one packed layout: a block ends only where the next entry would take it over 4096 bytes |
| SsTableBuilder.SealStep | crates/sstable/src/builder.rs:56-64 | sealing a block extends data region, index and contents at the end, consistently |
| SsTableBuilder.SsTableBuilder.constructor | crates/sstable/src/builder.rs:27-36 | a new builder holds nothing |
| SsTableBuilder.SsTableBuilder.Add | crates/sstable/src/builder.rs:39-54 | one entry more, wherever the block is cut; the data region stays the encoding of packed blocks, the index describes them, filter, count and lowest number cover everything added |
| SsTableBuilder.SsTableBuilder.Count | crates/sstable/src/builder.rs:40-42 | filter keys, entry count and lowest number follow the entries added |
| SsTableBuilder.SsTableBuilder.Place | crates/sstable/src/builder.rs:50-53 | the entry goes behind everything placed so far, in the open block or in a fresh one; it is never dropped |
| SsTableBuilder.SsTableBuilder.SealBlock | crates/sstable/src/builder.rs:56-64 | everything placed is in sealed blocks afterwards, each non-empty and at most 4096 bytes or a single entry |
| SsTableBuilder.IndexBytes | crates/sstable/src/builder.rs:70-77 | the index block encodes the last key, place and size of every block in order |
| FileBytes.IndexEntryBytes | crates/sstable/src/builder.rs:77-84 | where each field of an index entry stands |
| SsTableBuilder.SsTableBuilder.Finish | crates/sstable/src/builder.rs:67-115 | the file is data, index, filter and footer of a packed layout of exactly the entries added |
| FileBytes.TableFileBytes | crates/sstable/src/builder.rs:72-117 | data region, index, filter and footer end to end, and the footer says where they are |
| FileBytes.LowestNumber | crates/sstable/src/builder.rs:42 | the lowest number counted is a lower bound of all entries, and that of one of them |
| SsTableReader.SsTableReader.Open | crates/sstable/src/reader.rs:20-40 | opens with the decoded footer and the filter it points at, or fails for a short file, a wrong magic number or a filter beyond the end |
| SsTableReader.SsTableReader.Get | crates/sstable/src/reader.rs:43-67 | filter, index walk and one block give the lookup of the file, slices beyond the end included |
| SsTableReader.SsTableReader.SearchIndex | crates/sstable/src/reader.rs:83-109 | the walk with its running position finds the first entry whose last key is not below the key, or nothing where the index is cut short |
| SsTableReader.SsTableReader.SearchBlock | crates/sstable/src/reader.rs:56-66 | the loop over a block returns at a visible tombstone and otherwise the last visible value |
| SsTableReader.SsTableIter.Next | crates/sstable/src/reader.rs:121-135 | the iterator advances by exactly one entry of the data region, or stays where it fails |
| SsTableReader.SsTableIter.Drain | crates/sstable/src/reader.rs:118-135 | draining the iterator decodes the whole data region as one stream |
| SsTableTheorems.OneBlockIsEnough | crates/sstable/src/reader.rs:83-109 | over ascending entries the first block whose last key is not below the key answers for the whole list |
| SsTableTheorems.DecodeEncodedIndexEntry | crates/sstable/src/reader.rs:91-101 | an index entry reads back with its key, place and size |
| SsTableTheorems.FindBlockInIndex | crates/sstable/src/reader.rs:91-107 | walking the encoded index finds its first entry not below the key |
| SsTableTheorems.FindBlockFinds | crates/sstable/src/reader.rs:83-109 | the place and size found are those of the right block in the data region |
| SsTableTheorems.BlocksTile | crates/sstable/src/builder.rs:56-64 | blocks tile the data region in order without gaps, each slice being its block |
| SsTableTheorems.LastKeysAscend | crates/sstable/src/builder.rs:56-64 | the last keys of the blocks ascend strictly |
| SsTableTheorems.BlockGetExact | crates/sstable/src/reader.rs:56-66 | reading an encoded block is looking the key up in its entries |
| SsTableTheorems.BuiltFileOpens | crates/sstable/src/reader.rs:20-40 | every built file opens with the footer and filter written |
| SsTableTheorems.OpenExactly | crates/sstable/src/reader.rs:25-37 | any file is too small if and only if below 56 bytes and no table if and only if its last 4 bytes are not the magic number; what opens has the filter bytes that the footer points at |
| SsTableTheorems.AnyBlock | crates/sstable/src/reader.rs:56-66 | reading a block in any order and with repeated keys: nothing if a tombstone of the key is seen, otherwise the last value seen |
| SsTableTheorems.LookupIsTableGet | crates/sstable/src/reader.rs:43-109 | for every ascending entry list within the length fields, every filter, key and sequence number: a key the filter reports is answered as the list answers it, any other is absent; every slice is within bounds |
| SsTableTheorems.IterationYieldsEntries | crates/sstable/src/reader.rs:121-135 | iterating a built file yields exactly the entries added, wherever blocks were cut |
| Flush.PackedFits | crates/sstable/src/builder.rs:60-86 | a list within the length fields fits the index and footer fields whatever packed layout the builder chooses |
| Flush.EntriesAscend | crates/lsm/src/flush.rs:21 | a memtable iterates in strictly ascending key order over exactly its keys |
| Flush.EntriesLookup | crates/memtable/src/memtable.rs:101-107 | looking a key up in the flushed entries is looking it up in the memtable |
| Flush.AddEntries | crates/lsm/src/flush.rs:18-37 | every version goes to the builder in key order, and the first and last key are remembered |
| Flush.FlushToSstable | crates/lsm/src/flush.rs:9-50 | the file holds the memtable's entries, and the recorded range is its least and greatest key and bounds every key (both empty for an empty memtable) |
| Flush.FlushInvisible | crates/lsm/src/flush.rs:21-49 | the flushed file opens, answers every key at every sequence number as the memtable did, and iterates over the same entries in the same order |
| Merge.AheadIsTotal | crates/lsm/src/compaction.rs:34-40 | key first, newer first is a total preorder |
| Merge.MergeUnique | crates/lsm/src/compaction.rs:110-146 | with distinct sequence numbers per key there is only one merge |
| Merge.Prime | crates/lsm/src/compaction.rs:111-118 | the heap starts with the first entry of every non-empty input |
| Merge.Refill | crates/lsm/src/compaction.rs:129-133 | popping an entry puts the next one of the same input into the heap, and less remains to be done |
| Merge.MergeStep | crates/lsm/src/compaction.rs:128-146 | one turn of the loop keeps the invariant, whichever least entry the heap gave |
| Merge.MergeInto | crates/lsm/src/compaction.rs:110-146 | for any number of ascending inputs the loop ends and the builder has received strictly ascending keys, each key of any input once, with a highest-numbered version of it, tombstones included |
| Compaction.ManifestCell.Replace | crates/lsm/src/compaction.rs:159-174 | compacted files leave every level, missing levels are added, the new file is the last of level 1 and its id the counter |
| Compaction.BuiltTableOpens | crates/lsm/src/compaction.rs:176-178 | a built file within the length fields opens to its entries |
| Compaction.MergeToFile | crates/lsm/src/compaction.rs:110-148 | the file written holds the merge of the inputs in packed blocks |
| Compaction.Install | crates/lsm/src/compaction.rs:176-179 | the new table is put at the front of level 0 if its footer and filter open, with the entries that can be read before any error; otherwise the levels stay |
| Compaction.RunL0Compaction | crates/lsm/src/compaction.rs:73-182 | without level-0 files nothing changes; otherwise the merged file, the updated manifest and the installed table all belong to the one plan read from the levels |
| CompactionTheorems.MergedHolds | crates/lsm/src/compaction.rs:128-146 | everything merged comes from a compacted file that opened, and every version in one is matched by a merged one at least as new |
| Versions.SameNewest | crates/lsm/src/compaction.rs:136-140 | a part that matches every version of the whole by one at least as new has the same newest versions |
| Versions.SameNewestExactly | crates/lsm/src/compaction.rs:136-140 | two collections have the same newest versions if and only if each holds the newest of the other |
| CompactionTheorems.UpdatedIds | crates/lsm/src/compaction.rs:161-172 | the updated manifest lists what it listed, files added meanwhile included, except the compacted ones, and the new one |
| CompactionTheorems.UpdatedFields | crates/lsm/src/compaction.rs:161-174 | the update keeps the flushed number, takes the new id as the counter, and puts the new file last in level 1, which it makes if there is none |
| CompactionTheorems.NewestAfterExactly | crates/lsm/src/compaction.rs:99-174 | whatever opened, whatever was listed since and whatever id the new file has, the newest versions listed after a compaction are exactly the newest of what survives: the listed files it neither takes nor overwrites and the ones it takes that opened |
| CompactionTheorems.ResolutionKeptExactly | crates/lsm/src/compaction.rs:99-174 | version resolution is the same before and after if and only if every newest listed version survives and no survivor is newer than what was listed |
| CompactionTheorems.CompactionKeepsVersions | crates/lsm/src/compaction.rs:79-174 | with every planned file readable and every version in one matched by a listed one at least as new, the newest version of every key over all listed files, tombstones included, is the same before and after; planned files may have left the manifest in an earlier compaction of the process, and files may have been listed since the levels were looked at |
| CompactionTheorems.LostExactly | crates/lsm/src/compaction.rs:99-174 | with opened planned files as on disk and covered by listed versions, whether the manifest still lists them or not, resolution is kept if and only if every newest version in an unopened planned file or in the file whose id is reused also survives elsewhere |
| CompactionTheorems.LostFileExample | crates/lsm/src/compaction.rs:99-174 | a concrete directory whose one file does not open: afterwards its entry is listed nowhere |
| CompactionTheorems.IdBoundAfter | crates/lsm/src/compaction.rs:172 | the id counter bounds every id afterwards if and only if no file that stays has a larger id than the new one |
| CompactionTheorems.IdBoundKept | crates/lsm/src/compaction.rs:120-123 | with nothing added meanwhile the new id is fresh and the bound is kept |
| CompactionTheorems.OverlappingMember | crates/lsm/src/compaction.rs:91-94 | exactly the level-1 files whose range meets that of level 0 take part |
| CompactionTheorems.LevelOneStaysDisjoint | crates/lsm/src/compaction.rs:87-178 | the ranges of level 1 of the manifest stay pairwise disjoint when each of its files is in level 0 or 1 of the levels, as after earlier compactions of the process, and that is so again afterwards |
| CompactionTheorems.MergedRangeExactly | crates/lsm/src/compaction.rs:149-152 | the recorded range bounds the merged keys if and only if it bounds every input's |
| CompactionTheorems.MergedFileReads | crates/lsm/src/compaction.rs:148-177 | the merged file opens to the merged entries and answers every key as their list does |
| CompactionRuns.StepKeeps | crates/lsm/src/compaction.rs:79-178 | a new file in level 0, a compaction that looks at the levels, later takes an id, and last updates manifest and levels, and reopening, each keep the invariant, except finishing under an id given to a file since: listed and open files agree with the disk, every version ever added is matched by a listed one at least as new, and level 1 is disjoint and known |
| CompactionRuns.RunsKeepVersions | crates/lsm/src/compaction.rs:79-178 | after any number of new files, compactions and reopenings, with files added while a compaction runs, and without a clash of ids, a version is the newest of its key over the listed files if and only if it is the newest ever added |
| CompactionRuns.RunsKeepShape | crates/lsm/src/compaction.rs:120-172 | in every such run the ranges of level 1 are pairwise disjoint and the next id is one no file has |
| CompactionRuns.FinishExactly | crates/lsm/src/compaction.rs:120-174 | finishing in any reachable state, id clash or not, keeps the newest versions if and only if every one in the file whose id is reused also survives elsewhere |
| CompactionRuns.IdClashExample | crates/lsm/src/compaction.rs:120-174 | a run in which a file added between taking the id and finishing is overwritten and its entry listed nowhere |
| CompactionRuns.ReopenedExactly | crates/lsm/src/engine.rs:120-142 | from any reachable state, for every key, after a compaction and reopening: files that stay in level 0 answer first, then inside the range of the compacted level-0 files the merged table alone and outside it the files that stay in level 1; a key that was not merged reads as without the compaction |
| InstallTheorems.FoundInL0 | crates/lsm/src/engine.rs:120-130 | the merged version of a key that level 0 holds is what level 0 answered |
| InstallTheorems.FoundInL1 | crates/lsm/src/engine.rs:131-142 | the merged version of a key only level 1 holds is what level 1 answered |
| InstallTheorems.InstallInvisible | crates/lsm/src/compaction.rs:176-178 | when no version of a key is newer further down, level-1 ranges are disjoint and cover their tables and the snapshot covers everything, a lookup of it is the same before and after the merged table is put at the front of the level 0 it was planned from |
| InstallTheorems.InstallKeepsOrder | crates/lsm/src/compaction.rs:176-178 | and the same order holds again afterwards, the merged table sharing versions with the ones it was merged from |
| LateInstall.LateInstallExactly | crates/lsm/src/compaction.rs:80-178 | with any number of files added since the plan, a lookup is the same before and after installing if and only if the added files give nothing for the key, or the merged table gives nothing, or both give the same |
| LateInstall.LateOrderExactly | crates/lsm/src/compaction.rs:176-178 | and the newest-first order survives if and only if the merged table is nowhere older than an added file |
| LateInstall.LateInstallExample | crates/lsm/src/compaction.rs:80-178 | one file is planned, a newer one added, the merged table installed: a lookup gives the newer value before and the older one after, and the order is broken |
| LevelSearch.PlanExactly | crates/lsm/src/compaction.rs:76-91 | there is something to compact if and only if level 0 has a file; all of level 0 takes part, and of level 1 exactly the files whose range meets that of the plan |
| LevelSearch.PlanRange | crates/lsm/src/compaction.rs:84-86 | the range of a compaction runs from the least first key to the greatest last key of the level-0 files |
| LevelSearch.CompactedTable | crates/lsm/src/compaction.rs:149-178 | what a compaction leaves in the levels: the merged entries under the next id and with that range in front of level 0, and all other files as they were |
| LevelSearch.KeptIsSilent | crates/lsm/src/compaction.rs:91-94 | no level-1 table left out of the compaction can answer for a merged key |
| LevelSearch.RangeStaysTight | crates/lsm/src/compaction.rs:149-152 | from files whose ranges are right, the merged file's range is right if and only if the range of every merged level-1 file lies inside that of level 0 |
| LevelSearch.ReopenedReads | crates/lsm/src/engine.rs:120-142 | whatever levels the compaction found, what a lookup of any key gives once the updated manifest is reopened |
| LevelSearch.UnmergedReads | crates/lsm/src/engine.rs:120-142 | a key that was not merged reads as when the directory is reopened without the compaction |
| LevelSearch.ReopenedFindsExactly | crates/lsm/src/engine.rs:131-142 | after the first compaction of a process and reopening, for every key: a merged key inside the range of the compacted level-0 files reads as merged, tombstones included, one outside it is not found, and any other key reads as before |
| LevelSearch.LostKeyExample | crates/lsm/src/compaction.rs:149-157 | a concrete directory in which a key found before is not found after compaction and reopening |
| LevelScan.ScanTakesLast | crates/lsm/src/engine.rs:152-169 | in a scan the last table of a level that holds a key decides, which in level 0 is the oldest |
| LevelScan.FirstHoldsNewest | crates/lsm/src/levels.rs:48-53 | in a level kept newest first, a version is the newest of its key if and only if it is in the first table that holds the key |
| LevelScan.ScanRightExactly | crates/lsm/src/engine.rs:152-169 | over a visible level kept newest first, a scan gives the reading of the newest version of a key if and only if the first and the last table that hold the key read the same |
| LevelScan.ScanDisagreesExample | crates/lsm/src/engine.rs:120-169 | with a newer file in front of an older one under the same key, a lookup finds the newer value and a scan lists the older |
| LevelScan.InstallInvisibleToScans | crates/lsm/src/compaction.rs:176-178 | with level-1 ranges disjoint and covering their tables, in whatever order the tables are and whatever files were added since the plan, every scan is the same before and after the merged table is installed |
| LevelRuns.CompactionsInvisible | crates/lsm/src/compaction.rs:79-178 | over a whole process of new files and compactions, a key that no file added during a compaction holds is looked up as if there had been no compaction: the last added file with a live version answers, and otherwise the levels as opened |
| LevelRuns.CompactionInvisibleToScans | crates/lsm/src/compaction.rs:79-178 | whatever happened before in the process, a compaction changes no scan against just adding the files added meanwhile |
| LevelRuns.InstallsInvisible | crates/lsm/src/compaction.rs:79-178 | however many compactions one process has installed with no files added, every lookup and every scan of the tables is as before the first |
| SqlAtoms.StartsExactly | crates/sql/src/parser.rs:59 | a keyword is found if and only if the text begins with its letters, each in either case |
| SqlAtoms.AtomReadsBack | crates/sql/src/parser.rs:158-163 | a column name, quoted text, exact integer, decimal number or NULL reads back in front of anything that delimits it, NULL in any spelling and a number in any numeral with or without sign and fraction |
| SqlAtoms.WholeNumbersExactly | crates/sql/src/parser.rs:48-58 | a numeral is an integer if and only if it stands for a whole number below 2^63 in size |
| SqlAtoms.SixColumns | crates/sql/src/parser.rs:35-37 | the executor's six columns are names that read back |
| SqlRoundTrip.OpReadsBack | crates/sql/src/parser.rs:142-154 | no operator is split or runs into what follows |
| SqlRoundTrip.ComparisonReadsBack | crates/sql/src/parser.rs:140-156 | a comparison reads back with any white space around its operator |
| SqlRoundTrip.ConjunctionReadsBack | crates/sql/src/parser.rs:127-138 | ANDs of comparisons read back nested to the left |
| SqlRoundTrip.ConditionReadsBack | crates/sql/src/parser.rs:114-138 | every left-nested OR of left-nested ANDs of comparisons, in any layout and with AND, OR and NULL in any spelling, parses to the tree it was printed from: AND binds tighter than OR |
| SqlSelect.OrderByStops | crates/sql/src/parser.rs:114-119 | a condition in front of ORDER BY ends there, although ORDER begins with OR, in any spelling |
| SqlSelect.ClausesReadBack | crates/sql/src/parser.rs:92-96 | WHERE, ORDER BY, GROUP BY and LIMIT, each present or absent, read back in that order |
| SqlSelect.SelectReadsBack | crates/sql/src/parser.rs:87-97 | every printable SELECT reads back as it was, to the end of the text, whatever white space stands between its words, with every keyword in any spelling and ASC written or left out |
| SqlSelect.LargeLimitFails | crates/sql/src/parser.rs:182-185 | a LIMIT of 2^64 or more is not read |
| SqlSelect.ClausesReadExactly | crates/sql/src/parser.rs:92-96 | for clauses in any order and number, exactly what is read and what is left unread; nothing is left if and only if they stand in the order WHERE, ORDER BY, GROUP BY, LIMIT, each at most once |
| SqlSelect.InOrderReadsAll | crates/sql/src/parser.rs:92-97 | and then the statement has exactly the clauses written |
| SqlSelect.LateOrderByIsDropped | crates/sql/src/parser.rs:92-96 | with or without a WHERE in front, an ORDER BY behind a GROUP BY is left unread and with it everything behind it |
| SqlExecutor.GroupBy | crates/sql/src/executor.rs:208-220 | every group comes out once, as its first row with the group's total, in some order |
| SqlExecutor.DecodeAndRetain | crates/sql/src/executor.rs:87-99 | the rows that decode and satisfy the condition, in scan order; a row the condition fails on is dropped |
| SqlConditions.NumbersCompare | crates/sql/src/executor.rs:168-191 | each of the six operators between any two numbers, literals or the columns amount and created_at on either side, keeps a row if and only if the numbers stand in that relation, whole or not |
| SqlConditions.TextsCompare | crates/sql/src/executor.rs:168-191 | the same for literal texts and the four text columns, compared by their bytes, which is character by character |
| SqlConditions.OthersKeepNothing | crates/sql/src/executor.rs:152-177 | a text against a number, NULL, an unknown column or a nested comparison keeps nothing, under every operator |
| SqlConditions.ConnectivesExactly | crates/sql/src/executor.rs:139-140 | AND is conjunction, and OR disjunction if and only if the left side evaluates, as it does with known operands |
| SqlConditions.ConditionExactly | crates/sql/src/executor.rs:135-150 | every condition, however nested, keeps exactly the rows whose fields satisfy it, and fails exactly on the rows that need an operand there is not |
| SqlExecutor.FullScan | crates/sql/src/executor.rs:85-123 | the stages in the source's order, with only the order of the groups left open |
| SqlExecutor.ExecuteSelect | crates/sql/src/executor.rs:71-124 | by id through a point lookup, everything else through scan and stages, against the engine's state |
| SqlResults.SelectReturnsExactly | crates/sql/src/executor.rs:71-124 | without GROUP BY and LIMIT, on every store that inserting storable rows and deleting reach, a row comes back if and only if it is stored and its fields satisfy the condition, once, and in the order of the ids unless there is an ORDER BY |
| SqlResults.GroupByColumn | crates/sql/src/executor.rs:208-220 | GROUP BY one text column: one row for each text that a kept row has there, the first such row with the amount of all of them |
| SqlResults.OrderByExactly | crates/sql/src/executor.rs:106-116 | ORDER BY puts the rows the query may return without it in order: amounts or times rise for ASC and fall for DESC, equal ones keep their order, any other column changes nothing |
| SqlResults.LimitExactly | crates/sql/src/executor.rs:118-121 | LIMIT n returns the first n rows of what the query may return without it, or all of them |
| SqlExecutor.SetColumnsKeepsId | crates/sql/src/executor.rs:53-62 | no list of columns and values can change the row's id |
| SqlExecutor.ExecuteInsert | crates/sql/src/executor.rs:39-69 | a wrong column or type writes nothing; otherwise the engine commits the row under the key of its own id |
| SqlInserts.InsertStores | crates/sql/src/executor.rs:53-62 | for any columns and values: it fails if and only if some pair names no column or has a value of the wrong type, with the error of the first one, and otherwise each field is the value of the last pair that names it (a whole number as an amount, a number cut towards zero as a time), blank or the clock's time if none does |
| SqlInserts.InsertThenSelect | crates/sql/src/executor.rs:39-82 | whatever the engine holds, INSERT and then WHERE id = .. returns the one row with the fields that columns and values say |
| Utf8.EncodeInjective | crates/sql/src/executor.rs:64-74 | different texts are different byte strings, so different ids are different keys |
| Utf8.ByteOrder | crates/sql/src/executor.rs:170 | texts compared by their bytes stand as compared by their characters |
| RowBytes.RowRoundTrip | crates/sql/src/executor.rs:12-20 | every row whose texts and time fit their fields and whose amount its 64 bits hold exactly reads back as it was |
| RowBytes.RowsInverse | crates/sql/src/executor.rs:65-77 | so the rows' layout is a codec as the theorems below ask for, however amounts are written |
| RowBytes.DoublesAreExact | crates/sql/src/executor.rs:15 | with doubles the amounts that can be stored are the values of all finite doubles |
| RowBytes.StorableAmounts | crates/sql/src/executor.rs:15 | these are exactly m * 2^e and -m * 2^e for whole m below 2^53 and e from -1074 to 971 |
| RowBytes.FastPathForRows | crates/sql/src/executor.rs:71-124 | the agreement of the id fast path with the full scan for stores of rows in this layout, with nothing assumed of a codec |
| SqlTheorems.ModelIsStore | crates/sql/src/executor.rs:64-66 | in every store that inserting storable rows and deleting reach, every entry is a row under its own id |
| SqlTheorems.KeepsId | crates/sql/src/executor.rs:193-206 | a condition taken for an id lookup is true of exactly the rows with that id |
| SqlTheorems.IdLookupExactly | crates/sql/src/executor.rs:193-206 | a condition is taken for an id lookup if and only if it is `id = text` or `text = id` |
| SqlTheorems.NotARow | crates/sql/src/executor.rs:74-94 | bytes that are no row make a lookup by id fail and are passed over by a scan |
| SqlTheorems.FilterFindsId | crates/sql/src/executor.rs:85-99 | scanning and filtering on an id leaves the one row under it, or none |
| SqlTheorems.FastPathAgrees | crates/sql/src/executor.rs:71-124 | on every store that inserting storable rows and deleting reach, the id fast path returns what scan, filter, group, sort and limit return if and only if the row exists and LIMIT is not 0, or it does not exist and did not either when a memtable was frozen since the last restart |
| SqlTheorems.SameGroupExactly | crates/sql/src/executor.rs:211 | two rows have equal fields in all columns of a GROUP BY if and only if they share a group and every field but the last holds as many vertical bars in the one as in the other; so always for one column |
| SqlTheorems.MixedGroupExample | crates/sql/src/executor.rs:208-220 | two rows that differ in both columns come out as one group with the total of both |
| SqlTheorems.GroupTotals | crates/sql/src/executor.rs:208-220 | a group has its first row and the total amount of its rows; a key without rows is no group |
| SqlTheorems.GroupingConserves | crates/sql/src/executor.rs:208-220 | the groups together have the amount of all rows |
| SqlTheorems.SortSorts | crates/sql/src/executor.rs:106-116 | the sort returns the same rows, none before one it must follow |
| SqlTheorems.SortIsStable | crates/sql/src/executor.rs:106-116 | rows with equal values in the order column keep their order, so ordering by a text column changes nothing |

## Left out

- EngineTheorems.WholeRun: kills fall between calls; losing records over many crashes is covered by `EngineRuns.EveryRunIsGood` with cuts between records, and one crash at any byte by `EngineTheorems.TornCrash`. Runs that go on appending behind a torn tail are left out: what the log is then depends on checksum collisions (`WalLog.AppendAfterTornTail`).
- WalLog.TruncateAfter: requires a log that replays to a clean end, because on any other the source drops the error and asks again for ever (`WalLog.FailureRepeats`).
- Engine.LsmEngine.GetNow: snapshot and search in one step; the source takes the snapshot before the lock, so the state searched may be newer (`EngineReads.ReadAtSnapshot` says what is found then).
- Engine.LsmEngine.ScanPrefix: one atomic step; the source takes its snapshot before the lock (`EngineReads.ReadAtSnapshot`), and unlocks before it copies the active memtable, so a concurrent write may fall in between.
- Compaction.RunL0Compaction: nothing else touches manifest or levels meanwhile; files added in between are the subject of `LateInstall`, `LevelRuns` and `CompactionRuns`.
- CompactionRuns.Next: a table file is never written without its manifest, so a kill between the two is not a step.
- SqlExecutor.GroupBy: the order of the groups is open, as the source empties a hash map.
- CRC-32 itself: a function parameter from bytes to 32 bits.
- bincode: the header is modelled after the integer encoding of its standard configuration, whose source is not part of this model; so is the layout of rows.
- The Bloom filter library: a pair of functions; that it has no false negatives is assumed where needed, since writer and reader choose its hash keys in different places.
- File I/O: memory mapping, temporary files and renames, syncing, the JSON text of the manifest; an append that returns is durable, and only log corruption makes an operation fail.
- Tables inside the engine are lists of entries; the bytes of a table file are the subject of the table modules, and read errors of single tables during lookups, scans and merges are not modelled.
- Flush, truncation and compaction together with the engine: nothing in the source calls them from it. New files and compactions are put together to whole runs in `CompactionRuns`; flush and truncation are single calls.
- Task spawning, the semaphore and the trigger threshold of compaction: at most one compaction runs at a time.
- The registry of active snapshots, level size budgets and level 2: only declared in the source.
- File sizes, paths and lowest numbers in table metadata, and the manifest's format version and next sequence number: never read by the modelled code.
- Floating point: amounts and number literals are exact; exponents, infinities and not-a-number literals are not parsed.
- Identifiers beyond ASCII letters, digits and underscore; quotes inside SQL text, which the parser refuses.
- Parsing INSERT: the same list parsers as SELECT, so it would only add easy members; running INSERT is modelled.
- The random id and the clock of INSERT: parameters.
- The Flutter app, the FFI handle registry and the benchmarks.
