# mossdb storage layer in Dafny

This project models the storage layer of mossdb, a Bitcask-style key-value store, and proves
properties of it.

- **Segments.** Every write is appended to the newest of a sequence of segment files. A segment
  file is a run of records `key_len:u64 BE | key | value_len:u64 BE | value`. A record with an
  empty value is a tombstone.
- **Indexes.** One in-memory index per segment maps each key to the location (offset, length) of
  its newest value in that segment.
- **Lookup.** A lookup asks the indexes from the newest segment to the oldest. The first index
  that knows the key decides.
- **Rotation.** Once the active log holds at least 36 bytes, a new segment is started.
- **Compaction.** Whenever there are more than two segments, the two oldest are merged into one.
  The merge keeps only keys whose newest entry in the pair is live.

Modules, one per part of the program:

| module | file | models |
|---|---|---|
| `Wrappers` | wrappers.dfy | `Option` and `Result` |
| `LogFile` | log_file.dfy | `src/log.rs`: length prefixes, `append`, `read`, `size`, the record iterator |
| `KeyIndex` | key_index.dfy | `src/map.rs`: `Location`, `Map`; the rebuild of an index from its file |
| `Lookup` | lookup.dfy | the newest-first search of `Engine::get` over (file, index) segments |
| `Merger` | merger.dfy | `LogMerger::new` and `LogMerger::merge` |
| `StorageEngine` | engine.dfy | `src/engine.rs`: `grow`, `new_log_mono_increase`, `set`, `get`, `del`, the open |
| `SegmentNames` | segment_names.dfy | segment file names and the order segments are opened in |

Files are byte sequences and operations are pure functions from old state to new state. I/O
errors the model keeps are values of `IoError`:

- `UnexpectedEof` is a read past the end of a file.
- `InvalidLength` is a length prefix that is not 8 bytes.
- `CorruptSegment` is a file the record iterator cannot walk. The source panics there, on an
  out-of-range slice.

The compiled `LogMerger` is the copy in `src/main.rs` (lines 142-192). `src/merger.rs` holds the
same code, but that file is not a module of the crate. It calls `Engine::populate_map_from_log`,
which `src/engine.rs` does not define, so the model follows `src/main.rs`.

`Map::load_from_log` is called by the engine (`src/engine.rs:101`) and the merger
(`src/main.rs:156`), but `src/map.rs` does not define it, so the crate as it stands does not
compile. Its behaviour is inferred from those callers. It is modelled as a replay of the
iterator's records in file order, each inserting key -> (value offset, value length). A later
record for a key overwrites an earlier one.

Two indexes can describe the same segment differently:

- `del` records a deleted key as the location (0, 0).
- A rebuild of the same file records it as (offset, 0).

The engine invariant therefore asks each index to be *equivalent* to its file's rebuild: the same
keys, the same deleted keys, and the same location for every live key.

## Model

| member | source | states |
|---|---|---|
| LogFile.EncodeLenIsBigEndian | src/log.rs:153-155 | the 8-byte length encoding is the big-endian base-256 digits of the length |
| LogFile.EncodeLen | src/log.rs:153-155 | the length encoding is 8 bytes that decode back to the length |
| LogFile.FromToBigEndian | src/log.rs:150 | big-endian decoding of an encoding of `n` in `w` bytes gives `n mod 256^w` |
| LogFile.ToFromBigEndian | src/log.rs:150-154 | encoding a decoded byte string in its own width gives the bytes back |
| LogFile.DecodeLen | src/log.rs:142-151 | decoding succeeds exactly on 8-byte slices, and fails with an invalid-length error otherwise |
| LogFile.DecodeEncodeLen | src/log.rs:142-155 | decoding the encoding of any u64 gives it back |
| LogFile.EncodeDecodeLen | src/log.rs:142-155 | re-encoding a decoded 8-byte slice gives the same bytes |
| LogFile.LengthPrefix | src/log.rs:41-45 | the `len as u64` prefix is 8 bytes and decodes back to the length whenever the length fits a u64 |
| LogFile.DecodeEncodeLenOf | src/log.rs:41-45 | a length below 2^64 survives the truncating cast and the encoding |
| LogFile.Size | src/log.rs:27-29 | the size is exactly how far reads reach: every read ending within it succeeds, and a read of at least one byte that succeeds ends within it |
| LogFile.Record | src/log.rs:40-51 | a record occupies 16 bytes plus the key and value lengths |
| LogFile.Append | src/log.rs:40-51 | the file grows by one record, and the returned position is just after the value-length prefix |
| LogFile.AppendLayout | src/log.rs:40-51 | the old bytes are kept, followed by key prefix, key, value prefix, and value, with the returned offset at the value's first byte |
| LogFile.RecordLayout | src/log.rs:41-48 | the four parts of a record sit in the order they are written |
| LogFile.Read | src/log.rs:53-58 | a read of no bytes succeeds wherever it starts, since seeking past the end is allowed; any other read succeeds exactly when offset + len is inside the file, and then returns exactly those bytes; otherwise it fails with unexpected EOF |
| LogFile.ReadAppended | src/log.rs:40-58 | reading at the offset `append` returned, for the value's length, returns the value |
| LogFile.ReadStable | src/log.rs:53-58 | appending more bytes does not change any read that already succeeded |
| LogFile.Next | src/log.rs:105-131 | the iterator stops exactly at the end of the data; a yielded record lies inside the data and the next position is just after it |
| LogFile.NextEntryAt | src/log.rs:114-130 | a yielded entry is a well-formed record: its prefixes decode to its lengths, and its key and value are the bytes at its offsets |
| LogFile.TruncatedPrefixIsCorrupt | src/log.rs:114 | a partial length prefix at the end of the data is corruption (the source's slice panics) |
| LogFile.OverlongKeyIsCorrupt | src/log.rs:114-119 | a key length reaching past the end of the data is corruption |
| LogFile.ParseFrom | src/log.rs:102-132 | a walk from a position fails only with corruption, and a walk from the end yields nothing |
| LogFile.ParseFromWellFormed | src/log.rs:105-131 | every entry a successful walk yields points at its own bytes of the data, with lengths that fit a u64 |
| LogFile.NextOnLongerData | src/log.rs:105-131 | a complete record is read the same whatever follows it |
| LogFile.NextOfCompleteRecord | src/log.rs:114-131 | a record whose prefixes decode and whose bytes are all present is yielded with exactly those points |
| LogFile.NextAtAppend | src/log.rs:40-51 | the iterator reads an appended record back at the old end of the file: same key, same value, value at the returned offset |
| LogFile.ParseFromExtend | src/log.rs:102-132 | a walk over a file extended by one complete record yields the old entries and then that record |
| LogFile.ParseFromAppend | src/log.rs:102-132 | a walk over a file after an append yields the old entries and then the appended record |
| LogFile.Iterate | src/log.rs:65-73 | iterating a file fails only with corruption, yields nothing for an empty file, and yields only entries that point at their own bytes of the file |
| LogFile.IterateAppend | src/log.rs:65-73 | iterating a file after an append yields the old entries plus one entry with the key, the value and the returned offset |
| LogFile.IterateAppendAll | src/main.rs:37-52 | iterating a file built by appends lists exactly the appended records, in order, each at the offset its append returned |
| LogFile.ListsRecordsSnoc | src/main.rs:37-43 | one more append extends the record listing by that record |
| LogFile.ReadBackAppendAll | src/main.rs:37-50 | reading each record at its returned offset and value length gives the value stored |
| KeyIndex.Tombstone | src/map.rs:14-16 | the tombstone location is at offset 0 and counts as deleted |
| KeyIndex.TombstoneIffEmpty | src/map.rs:18-20 | a location is a tombstone exactly when its length is 0, whatever its offset |
| KeyIndex.Get | src/map.rs:35-37 | a lookup finds a location exactly for keys in the index, and it is the stored one |
| KeyIndex.Len | src/map.rs:48-50 | the length is 0 exactly when no key is found |
| KeyIndex.New | src/map.rs:29-33 | a new index has length 0 and finds nothing |
| KeyIndex.Insert | src/map.rs:44-46 | the key maps to the new location, every other key is unchanged, and the length grows only for a new key |
| KeyIndex.Remove | src/map.rs:40-42 | the key is gone, every other key is unchanged, and the length shrinks only if the key was present |
| KeyIndex.EquivalentRefl | src/map.rs:18-20 | every index is equivalent to itself |
| KeyIndex.InsertEquivalent | src/engine.rs:165-168 | inserting a tombstone on both sides, or the same live location, keeps two indexes equivalent |
| KeyIndex.ReplayKeys | src/engine.rs:100-102 | a rebuild knows a key exactly when some record of the file has it |
| KeyIndex.ReplayUntouched | src/engine.rs:100-102 | a key no record mentions keeps its starting location |
| KeyIndex.ReplayLastWins | src/engine.rs:100-102 | last write wins: a key's location is that of the last record for it |
| KeyIndex.ReplayInBounds | src/engine.rs:100-102 | a rebuild from records inside a file gives locations inside the file |
| KeyIndex.ReplayStorable | src/engine.rs:100-102 | a rebuild from records with u64 lengths stores only u64 lengths |
| KeyIndex.LoadFromLog | src/engine.rs:100-102 | a rebuild succeeds exactly when the iterator can walk the file; its only error is corruption |
| KeyIndex.LoadEmpty | src/engine.rs:52-54 | an empty segment rebuilds to an empty index |
| KeyIndex.LoadWellFormed | src/engine.rs:100-102 | a rebuilt index points only inside its file, and its keys and lengths fit a u64 prefix |
| KeyIndex.LoadAfterAppend | src/engine.rs:137-141 | rebuilding after an append gives the old rebuild with the key set to the location the engine inserts |
| KeyIndex.LoadReadsLastValue | src/engine.rs:100-102 | reading a key's rebuilt location gives the value of the last record written for it |
| Lookup.Get | src/engine.rs:145-155 | a key no index knows is absent; a value found is never empty; the only error is a failed read |
| Lookup.GetNewestWins | src/engine.rs:146-152 | newest wins: the lookup answers what the newest segment knowing the key answers, including a tombstone hiding older values |
| Lookup.NewestExists | src/engine.rs:146-147 | a key some segment knows has a newest such segment |
| Lookup.AddressableGetOk | src/engine.rs:151 | when every index lies inside its file, the read the source unwraps cannot fail |
| Lookup.GetSplit | src/engine.rs:146-154 | in `older + newer` the newer segments decide whenever one knows the key, otherwise the older ones do |
| Lookup.GetEquivalent | src/engine.rs:147-151 | segments with the same files and equivalent indexes answer every lookup alike |
| Lookup.GetLastAgrees | src/engine.rs:146-152 | replacing the newest segment by one answering a key alike changes no answer for that key |
| Lookup.GetOlderAgrees | src/engine.rs:146-154 | replacing the oldest segments by ones answering a key alike changes no answer for that key |
| Merger.LoadAll | src/main.rs:153-159 | the inputs load exactly when every file can be rebuilt, giving one rebuilt index per file, in order |
| Merger.New | src/main.rs:150-172 | a merger holds the input files, their rebuilt indexes, an empty merged log and an empty merged index |
| Merger.KeptUnique | src/main.rs:178-180 | a key is copied from at most one input |
| Merger.CopyOne | src/main.rs:181-184 | copying a key adds exactly that key to the merged index, and its merged location reads back the copied value |
| Merger.MergeKeys | src/main.rs:177-187 | one input's pass adds exactly the listed keys it keeps (not overwritten later, not a tombstone); it cannot fail when their locations are inside the file |
| Merger.MergeFrom | src/main.rs:176-188 | the passes over the inputs add exactly the kept keys of the remaining inputs |
| Merger.Merge | src/main.rs:174-192 | the merge adds exactly the keys kept from some input, and the inputs are left unchanged |
| Merger.MergeKeySet | src/main.rs:176-180 | with each input's keys enumerated, the merged key set is exactly the kept keys |
| Merger.CopyOnePreserves | src/main.rs:180-185 | copying a kept key keeps the merged pair consistent |
| Merger.CopyOneDescribes | src/main.rs:182-184 | after a copy the merged log still rebuilds to the merged index, with one record per key |
| Merger.CopyOneCopies | src/main.rs:181-184 | after a copy every merged key still reads back the bytes its input location holds |
| Merger.MergeKeysPreserves | src/main.rs:177-187 | one input's pass over distinct keys succeeds and keeps the merged pair consistent |
| Merger.MergeFromPreserves | src/main.rs:176-188 | the remaining passes succeed and keep the merged pair consistent |
| Merger.NewInv | src/main.rs:166-171 | a fresh merger over rebuilt inputs starts consistent |
| Merger.MergeSucceeds | src/main.rs:174-192 | merging rebuilt inputs succeeds, keeps exactly the live newest keys, and leaves a consistent merged pair |
| Merger.TombstoneNotKept | src/main.rs:178-180 | a key whose newest entry is a tombstone is absent after the merge, as in a lookup over the inputs |
| Merger.AbsentNotKept | src/main.rs:176-180 | a key no input has is absent after the merge |
| Merger.LiveKeyAgrees | src/main.rs:180-184 | a key live in its newest input reads back that input's value from the merged pair |
| Merger.MergedLookupAgrees | src/main.rs:176-188 | a consistent merged pair holding exactly the kept keys answers every lookup as the inputs do |
| Merger.MergeIsEquivalent | src/main.rs:174-192 | compaction is equivalent: the merged index holds exactly the live newest keys, the merged log rebuilds to it with one record per key, and every lookup is unchanged |
| StorageEngine.Get | src/engine.rs:145-155 | a key no index knows is absent, a value found is never empty, and the only failure is the read the source unwraps |
| StorageEngine.ConsistentWellFormed | src/engine.rs:151 | an index in step with its file points only inside it |
| StorageEngine.ValidGetOk | src/engine.rs:151 | on a valid engine the read `get` unwraps never fails |
| StorageEngine.NewLogMonoIncrease | src/engine.rs:73-88 | the new log is empty and numbered 0 when there is no log, otherwise above the latest |
| StorageEngine.Grow | src/engine.rs:91-95 | one more (log, index) pair: an empty log numbered after the newest and an empty index; the old pairs are untouched |
| StorageEngine.Rotate | src/engine.rs:112-114 | one fresh, empty segment with an empty index exactly when the active log holds at least 36 bytes; the existing segments are untouched |
| StorageEngine.GrowPreservesValid | src/engine.rs:91-95 | growing keeps the invariant, and the new number is the newest plus one |
| StorageEngine.GrowPreservesGet | src/engine.rs:91-95 | growing changes no lookup |
| StorageEngine.MergeInputs | src/engine.rs:118-123 | the merger over the two oldest files rebuilds them as the engine's pair, and any iteration order enumerates them |
| StorageEngine.MergedPair | src/engine.rs:118-124 | the merged log rebuilds to the merged index and answers every lookup as the two rebuilt oldest segments do |
| StorageEngine.MergeOldest | src/engine.rs:116-135 | the two oldest pairs become one, under the oldest log's number; the newer pairs are untouched; the merged log rebuilds to the merged index |
| StorageEngine.MergeOldestPreservesValid | src/engine.rs:128-134 | compaction keeps the invariant |
| StorageEngine.MergeOldestSegments | src/engine.rs:128-134 | after compaction the segments are the merged pair followed by the untouched newer ones |
| StorageEngine.MergeOldestPreservesGet | src/engine.rs:116-135 | compaction changes no lookup |
| StorageEngine.AppendActive | src/engine.rs:137-141 | only the active pair changes: the record is appended to its log and the location inserted in its index |
| StorageEngine.AppendActivePreservesValid | src/engine.rs:137-141 | appending and inserting the returned location, or a tombstone for an empty value, keeps the invariant |
| StorageEngine.ActiveStaysConsistent | src/engine.rs:137-141 | the active index stays equivalent to its file's rebuild |
| StorageEngine.AppendActiveSegments | src/engine.rs:137-141 | after an append the segments are the older ones unchanged plus the extended active one |
| StorageEngine.AppendActiveKeepsOthers | src/engine.rs:137-141 | an append for one key changes no other key's lookup |
| StorageEngine.SegmentKeepsOthers | src/engine.rs:137-141 | appending to a segment for one key leaves its answer for every other key |
| StorageEngine.AppendActiveGet | src/engine.rs:137-141 | after the append the key reads back the value, or is absent when the value is empty |
| StorageEngine.Prepare | src/engine.rs:112-135 | rotation then compaction: the segment count rises by one on a full log and falls by one when there were more than two |
| StorageEngine.Set | src/engine.rs:111-142 | `set` leaves one index per log with the count rule above, and the active log and index hold the new record |
| StorageEngine.Del | src/engine.rs:158-170 | `del` changes nothing for an absent key; otherwise it appends an empty value and stores a tombstone in the active index |
| StorageEngine.RotatePreservesGet | src/engine.rs:112-114 | rotation keeps the invariant, changes no lookup, and leaves the two oldest files rebuildable |
| StorageEngine.PreparePreservesGet | src/engine.rs:112-135 | rotation and compaction keep the invariant and change no lookup |
| StorageEngine.SetPreservesValid | src/engine.rs:111-142 | `set` keeps the invariant |
| StorageEngine.SetThenGet | src/engine.rs:111-155 | after `set`, `get` of the key returns the value, or nothing for an empty value |
| StorageEngine.SetKeepsOthers | src/engine.rs:111-142 | `set` changes no other key's lookup |
| StorageEngine.SetKeepsTwoSegments | src/engine.rs:112-135 | an engine with at most two segments still has one or two after `set` |
| StorageEngine.DelThenGet | src/engine.rs:158-170 | `del` keeps the invariant, the key is then absent, and no other key's lookup changes |
| StorageEngine.Open | src/engine.rs:26-57 | opening succeeds exactly when every file can be rebuilt; no files gives one empty segment numbered 0; otherwise the files are kept in the given order with their rebuilt indexes |
| StorageEngine.OpenValid | src/engine.rs:26-57 | opening files listed in increasing number gives a valid engine |
| SegmentNames.Decimal | src/engine.rs:85 | a number's decimal form is one or more digits |
| SegmentNames.ParseDecimal | src/engine.rs:84 | a digit string whose first digit is not 0 parses to a positive number |
| SegmentNames.ParseDecimalOf | src/engine.rs:77-85 | parsing a number's decimal form gives the number back |
| SegmentNames.DecimalOfParse | src/engine.rs:84-85 | a digit string without leading zeros is the decimal form of the number it parses to, so parsing and `to_string` are inverse on such names |
| SegmentNames.StemParsesBack | src/engine.rs:77-85 | the stem of segment `n`'s file name is all digits and parses to `n` |
| SegmentNames.FileName | src/engine.rs:60-62 | a segment's file name is a stem of decimal digits followed by `.log` |
| SegmentNames.FileNameInjective | src/engine.rs:62-66 | different segments have different file names |
| SegmentNames.PathOf | src/engine.rs:60-62 | a segment's path is the directory, then `/`, then the segment's file name |
| SegmentNames.PathOfInjective | src/engine.rs:60-62 | different segments have different paths |
| SegmentNames.PathLessLexicographic | src/engine.rs:41 | paths compare lexicographically: after a common prefix, the path that ends there comes first, and otherwise the first differing character decides |
| SegmentNames.PathLessIrreflexive | src/engine.rs:41 | no path sorts before itself |
| SegmentNames.PathLessTransitive | src/engine.rs:41 | the text order on paths is transitive |
| SegmentNames.PathLessTotal | src/engine.rs:41 | of two different paths, one sorts before the other |
| SegmentNames.PathLessCommonPrefix | src/engine.rs:41 | a common directory prefix does not change the order |
| SegmentNames.PathOrderIsFileNameOrder | src/engine.rs:41 | within one directory, paths sort as their file names do |
| SegmentNames.InsertBy | src/engine.rs:41 | insertion adds exactly one copy of the segment |
| SegmentNames.SortBy | src/engine.rs:41 | sorting is a permutation |
| SegmentNames.InsertByAscending | src/engine.rs:41 | inserting a segment with a new number keeps a list in order |
| SegmentNames.SortByAscending | src/engine.rs:41 | sorting segments with distinct numbers by a strict total order leaves them in that order |
| SegmentNames.PathOrderStrictTotal | src/engine.rs:41 | the path order is a strict total order on segment numbers |
| SegmentNames.ScanOrder | src/engine.rs:41 | the open order as written is a permutation of the files found |
| SegmentNames.ScanOrderSorted | src/engine.rs:41 | the open order as written lists the files by path, as text |
| SegmentNames.TenBeforeNine | src/engine.rs:41 | `10.log` sorts before `9.log` |
| SegmentNames.ScanOrderServesStaleValue | src/engine.rs:41-57 | as written, with segments 9 and 10 holding the same key, 10 is opened as the older and `get` returns 9's overwritten value |
| SegmentNames.ScanOrderRepeatsName | src/engine.rs:73-95 | as written, after opening any three parseable segments numbered 0, 9 and 10, `grow` numbers the next segment 10, which already exists |
| SegmentNames.ScanOrderOfThree | src/engine.rs:41 | segments 0, 9 and 10 come out of the text sort as 0, 10, 9 |
| SegmentNames.NumericOrder | src/engine.rs:41 | the corrected open order is a permutation of the files found |
| SegmentNames.NumericOrderIncreasing | src/engine.rs:41 | the corrected open order lists the segments in increasing number |
| SegmentNames.OpenDir | src/engine.rs:26-57 | opening a directory in number order succeeds exactly when every file can be rebuilt, failing only with corruption |
| SegmentNames.OpenDirValid | src/engine.rs:26-57 | opening a directory in number order gives a valid engine |
| SegmentNames.OpenDirServesNewest | src/engine.rs:41-57 | opened in number order, the directory of the counterexample answers segment 10's value |

## Left out

- The REPL and `main` (`src/main.rs:58-140`, `src/repl.rs`) are user interface, not storage.
- File handles, `OpenOptions` and `fs` calls (`create_new`, `rename`, `remove_file`, `metadata`,
  `seek`, `flush`) are not modelled. A file is its bytes; `size` is the byte count; a rename is a
  change of number in the engine state.
- Durability and crash consistency are not modelled: every operation happens completely or not at
  all.
- The directory scan and its `.log` extension filter (`src/engine.rs:32-39`) are left out. The
  open takes the segment files found, each as a number and its bytes. A `.log` file whose stem is
  not a number is not modelled. The source opens a directory holding one without complaint: the
  stem is parsed only when `grow` runs (`src/engine.rs:77-84`, `91-95`), and only for the last
  segment in the open order. So the source panics at the first rotation if that file sorts last,
  and never panics over it if it sorts before the numbered segments.
- Removing a stale `log.merging` before a merge (`src/main.rs:161-164`) is left out. The merged
  log simply starts empty.
- Logging (`info!`, `src/engine.rs:103-107`), the rebuild's record count, `Log::dump`,
  `Log::flush`, the unused `Log::rename` and `LogRecordLen::to_log_len_bytes`'s trait plumbing
  are diagnostics or unused code.
- `HashMap` iteration order is a parameter. Merging takes one key order per index, or a function
  from index to key order, required to list each key exactly once. Every result is proved for
  all such orders.
- Integer widths: lengths and offsets are unbounded naturals. The `as u64` cast of a length is
  written as a reduction mod 2^64 (`LogFile.LengthPrefix`). Results about record contents
  require lengths below 2^64.
- StorageEngine.NewLogMonoIncrease: does not model the u64 overflow of `num + 1` at
  `src/engine.rs:85`, because a segment number would have to reach 2^64 - 1.
- KeyIndex.LoadFromLog: `src/map.rs` does not define `Map::load_from_log`. Its behaviour is
  inferred from its callers at `src/engine.rs:101` and `src/main.rs:156` as a replay of the
  iterator's records. The engine adds its result to a record count, so its only failure is a
  panic, modelled as `CorruptSegment`.
- Panics become error values or preconditions:
  - Iterator slice panics are `CorruptSegment`.
  - The `unwrap` of the read in `get` is kept as an `Err` result, and is proved never to fail on
    a valid engine (`StorageEngine.ValidGetOk`).
  - The other engine `unwrap`s become preconditions, as in the next two lines.
- StorageEngine.Set: requires that both files compaction will read can be rebuilt.
  `LogMerger::new` discards the rebuild's result (`src/main.rs:156`), but on a corrupt file the
  iterator's slices panic (`src/log.rs:114-119`) while rebuilding. On a valid engine the
  requirement holds (`StorageEngine.RotatePreservesGet`).
- StorageEngine.Del: requires the lookup of the key to succeed, because the source unwraps its
  read. On a valid engine this holds (`StorageEngine.DelThenGet`).
- LogFile.Read: does not model the `InvalidInput` error of a seek to an offset above `i64::MAX`.
  Offsets here come from files, which never reach 2^63 bytes.
- `Map::remove` is modelled (`KeyIndex.Remove`) but the engine never calls it.

`StorageEngine.Open` takes the segments in the order it is given. Where the open order comes
from is the subject of the finding below. The open used by the rest of the model,
`SegmentNames.OpenDir`, sorts by number.

## Findings

| source | as written | input that shows it | evidently intended | confidence | as-written member | corrected member |
|---|---|---|---|---|---|---|
| src/engine.rs:41 | segments are sorted by their path strings compared as text, so `10.log` comes before `9.log` | Repeated name, reachable through the engine's own writes: once segment 9 is full, `set` creates an empty `10.log` (line 113). It then merges `0.log` and `9.log`: it deletes `0.log` (line 129), renames the merged log to `0.log` (line 132) and deletes `9.log` (line 134). An interruption after line 129 and before line 134 leaves `9.log` and an empty `10.log`, with or without `0.log`. Reopened, segment 9 is the newest, and the next `grow` numbers its segment 10 again. Creating that file fails and the source panics. Stale value: this needs `9.log` and `10.log` both holding the same key, a directory the engine does not write itself (for example, segment files copied or restored from elsewhere). Reopened, segment 10 is treated as older, and `get` returns segment 9's overwritten value. | segments opened in increasing number, as `grow` and the newest-wins lookup assume | medium; not executed | SegmentNames.ScanOrder, with SegmentNames.ScanOrderServesStaleValue and SegmentNames.ScanOrderRepeatsName | SegmentNames.NumericOrder, with SegmentNames.NumericOrderIncreasing, SegmentNames.OpenDirValid and SegmentNames.OpenDirServesNewest |
