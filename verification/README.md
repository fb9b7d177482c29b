# Verification of the ID lists, the dump format and the reference models of DLMDB

This project models parts of DLMDB, a fork of LMDB, and proves what they compute:

* **ID lists** (`midl.c`, `midl.h`): the in-place sort with its explicit stack, the backward merge, both
  binary searches, growth, and the ID2 list. (`MidlSort`, `MidlMerge`, `MidlList`, `MidlId2`)
* **The freelist report** (`mdb_stat.c`): longest run and run listing. (`FreelistStat`)
* **Dump and load** (`mdb_dump.c`, `mdb_load.c`): both encodings, the growing line buffer, the header
  parser, the batched put loop over sections and whole inputs, and the round trip of whole dumps.
  (`Encoding`, `LineReader`, `Header`, `Dump`, `Load`, `Batching`, `InputRun`, `RoundTrip`, `WholeRun`)
  What the programs print and what they make of any text is stated on its characters in `DumpLines`,
  `HeaderLines`, `RecordLines` and `InputLines`; what a section commits, in `CommitLog`; what `-N` means
  for the databases, in `KeepExisting`.
* **Reference counters and oracles** of the tests and benchmarks: range counts over a cursor, prefix
  selection, selector spacing, the rank model. (`ByteOrder`, `RangeCount`, `Selection`, `RankModel`)

How the model is laid out:

* An ID list is an array whose entry 0 is the count; the word in front of it, `ids[-1]`, is the field
  `alloc`. C integers are subset types (`CTypes`), so a value that leaves its range is a verification
  error; where the source wraps or truncates, the model does so explicitly.
* The sort keeps the boundaries ("cuts") that already separate larger from smaller entries. Every
  boundary not strictly inside a pending segment is a cut; that is what stops the insertion scan, and
  with nothing pending it is sortedness.
* A byte is a character below 256. `stdin` is a byte sequence with a position, `fgets` and `strlen`
  work on arrays as in C, NUL bytes included. A flag word is the set of its bits.
* The storage engine behind the load program is a parameter: four functions that answer from everything
  stored so far. What the program does to it is a log of events; `WholeRun.Replay` says what databases
  such a log makes. One thing is asked of the engine, and only where the program appends to a database
  with duplicates: behind an accepted append, its last key is the appended one
  (`Batching.LastIsAppended`).
* What the line buffer holds behind a line is a parameter too: it decides, for a header line without
  keyword and without `=`, whether the search for `=` finds one in older or never written bytes. All
  theorems hold for every value of it.
* `isprint`, the `%p` scan and the key comparison are parameters. Memory for an ID list may be refused
  (a parameter); a refused request leaves the list as it was.

Where code and documentation differ, the model follows the code:

* `midl.h:83-87` promises the first ID greater than or equal to the searched one; the list is descending
  and `mdb_midl_search` returns the first position whose ID is less than or equal.
* `midl.h:169-174` lists 0 and -1 as results of `mdb_mid2l_insert`; the code also returns -2 for a full
  list.
* `mdb_midl_need` computes in 32 bits and its promise fails when that wraps:
  `MidlList.NeedKeepsPromiseIffNoWrap` gives the exact condition, `MidlList.NeedBreaksPromise` requests
  that break it.
* A dumped database whose name contains a newline does not read back:
  `WholeRun.NameComesBackIffNoNewline`, `WholeRun.TwoLineName`.
* The benchmark's selectors are only well spaced below 2^32: `Selection.SelectorsAreGoodIffNoWrap`,
  `Selection.WrappedSpacing`.
* `dtlv_cmp_memn` is not an order on keys whose sizes differ by 2^31 or more:
  `ByteOrder.CmpMemnAgreesIff`, `ByteOrder.LongKeyBelowEmptyKey`.

Verify with `dafny verify dfyconfig.toml` (Dafny 4.11).

## Model

| member | source | states |
|---|---|---|
| `MidlSort.ShiftUp` | libraries/liblmdb/midl.c:240-245 | The insertion scan, guarded by `i>=1` only, never passes `l-1`: if the entry left of the segment is not smaller than the key, nothing left of `l` moves, and exactly the entries below the key move up by one. |
| `MidlSort.InsertOne` | libraries/liblmdb/midl.c:239-246 | Inserting entry `j` extends the descending run `[l, j)` to `[l, j]`, rearranging only that stretch. |
| `MidlSort.InsertionPass` | libraries/liblmdb/midl.c:238-246 | A segment whose left end is a cut becomes descending; every entry outside it keeps its place. |
| `MidlSort.MedianOfThree` | libraries/liblmdb/midl.c:251-261 | Rearranges the segment so that its ends and `l+1` hold the median and the two sentinels of the scans, without 32-bit overflow in `l + ir`. |
| `MidlSort.ScanUp` | libraries/liblmdb/midl.c:266 | The scan without bounds test stops at the first entry not above the pivot, at the sentinel at the latest. |
| `MidlSort.ScanDown` | libraries/liblmdb/midl.c:267 | The mirrored scan stops at the last entry not below the pivot, at its sentinel at the latest. |
| `MidlSort.ScanBoth` | libraries/liblmdb/midl.c:265-268 | In every round, duplicates included, the two scans stay inside `[l+1, ir]`. |
| `MidlSort.Partition` | libraries/liblmdb/midl.c:251-272 | The segment becomes: entries at least the pivot, entries equal to it, entries at most the pivot; both outer parts are non-empty and the multiset of the segment is kept. |
| `MidlSort.SegPermKeepsCut` | libraries/liblmdb/midl.c:251-272 | Rearranging a segment keeps every boundary of the list that separates larger from smaller entries and is not strictly inside the segment. |
| `MidlSort.PartitionPlacesPivots` | libraries/liblmdb/midl.c:271-283 | After a partition only the two parts are still pending: all other boundaries, the pivots' included, are final, and the pending segments stay disjoint. |
| `MidlSort.SortedSegmentIsDone` | libraries/liblmdb/midl.c:238-250 | A segment sorted in place needs no further work: only the stacked segments remain pending. |
| `MidlSort.NothingPendingMeansSorted` | libraries/liblmdb/midl.c:247 | When the stack is empty and the current segment is done, the whole list is descending. |
| `MidlSort.PushLargerKeepsHalving` | libraries/liblmdb/midl.c:274-282 | Because the larger part is pushed, segment size times 2^level stays at most `n` at every stack level, after pushes and pops. |
| `MidlSort.StackNeverOverflows` | libraries/liblmdb/midl.c:229-230 | A list of sortable length uses at most 54 of the 64 stack slots. |
| `MidlSort.PartitionShrinksWeight` | libraries/liblmdb/midl.c:237-284 | The sum of (2 * size + 1) over pending segments falls with every partition: the sort terminates. |
| `MidlSort.FinishSmall` | libraries/liblmdb/midl.c:238-249 | The insertion branch keeps the invariant over current and stacked segments, resumes the top of the stack, and leaves a sorted list when the stack is empty. |
| `MidlSort.SplitLarge` | libraries/liblmdb/midl.c:250-283 | The partition branch keeps the same invariant with the larger part stacked and the smaller one current. |
| `MidlSort.Sort` | libraries/liblmdb/midl.c:226-285 | For every list that `int` indices can sort, entries 1..ids[0] end descending and are a rearrangement of the input; the count and everything behind the list are untouched. |
| `MidlMerge.Search` | libraries/liblmdb/midl.c:40-73 | On a descending list, duplicates allowed, the returned position splits the entries: at least `id` before it, at most `id` from it on; it holds `id` exactly when the list does. |
| `MidlMerge.PlaceOld` | libraries/liblmdb/midl.c:214-215 | With all ones in entry 0 the inner scan cannot run past the first entry, and the slot it writes lies above every entry not yet moved. |
| `MidlMerge.MergeOne` | libraries/liblmdb/midl.c:212-217 | One round of the outer loop places one merge entry and all smaller destination entries at the places they have in the merge of the two lists. |
| `MidlMerge.XMerge` | libraries/liblmdb/midl.c:207-219 | In place, the entries become the merge of both lists, the count their sum; for any contents, and nothing behind the list changes. |
| `MidlMerge.MergedKeepsEntries` | libraries/liblmdb/midl.c:207-219 | The merge holds exactly the multiset union of the two lists, sorted or not. |
| `MidlMerge.MergeOfSortedLists` | libraries/liblmdb/midl.c:207-219 | Two descending lists merge into the descending list of exactly their entries. |
| `MidlMerge.DescendingIsUnique` | libraries/liblmdb/midl.h:48-54 | A descending list is determined by its entries, so sorting a concatenation and merging sorted lists give the same list. |
| `MidlList.NeedKeepsPromiseIffNoWrap` | libraries/liblmdb/midl.c:152-157 | `need` leaves room for the requested entries if and only if the room is already there or the request plus a quarter plus 258 stays below 2^32. |
| `MidlList.NeedLeavesSlack` | libraries/liblmdb/midl.c:154-157 | Despite rounding down to a multiple of 256 the new capacity is at least the N required entries plus N/4 plus 1. |
| `MidlList.NeedWordsInNumbers` | libraries/liblmdb/midl.c:155-156 | The number of words asked for is a multiple of 256 between N + N/4 + 3 and N + N/4 + 258, as long as that stays below 2^32. |
| `MidlList.NeedBreaksPromise` | libraries/liblmdb/midl.c:152-157 | Requests past the limit on an empty list: 3435973836 more entries end, with success, in room for 254; 3435973631 more make the number of words wrap to 0. |
| `MidlList.RunConcatenates` | libraries/liblmdb/midl.c:137-205 | Over every run of need, xappend, append, append_list and append_range without 32-bit wrap-around, in any mixture and with memory refused at any point, the entries fit the capacity and the contents are the old ones followed by the IDs of the operations served, in order. |
| `MidlList.GrowthIsAmortised` | libraries/liblmdb/midl.c:149-161 | Over every run of need and xappend, reallocation moves at most four times the final capacity in total. |
| `MidlList.IdList.constructor` | libraries/liblmdb/midl.c:110-118 | A new list is empty and has the requested capacity. |
| `MidlList.IdList.Realloc` | libraries/liblmdb/midl.c:137-147 | Reallocation carries over all entries that fit and counts what it moves; a refusal changes nothing. |
| `MidlList.IdList.Grow` | libraries/liblmdb/midl.c:137-147 | Growth adds exactly `num` to the capacity and keeps the contents; ENOMEM changes nothing. |
| `MidlList.IdList.Shrink` | libraries/liblmdb/midl.c:126-135 | Shrinking a list of more than 131071 slots to 131071 keeps it a valid list if and only if its entries fit, and then keeps its contents. |
| `MidlList.IdList.Need` | libraries/liblmdb/midl.c:149-161 | With 32-bit arithmetic as in C, for every request: a request that does not wrap is the `need` step of the runs above and leaves the room asked for; success exactly when no growth is needed, or it is granted and its size is not zero; a size of zero loses the list. `NeedWordsInNumbers` gives the size. |
| `MidlList.IdList.XAppend` | libraries/liblmdb/midl.h:77-81 | Appends one ID to a list with room: the `xappend` step of the runs. |
| `MidlList.IdList.Append` | libraries/liblmdb/midl.c:163-175 | One more ID behind the contents. It succeeds exactly when there is room, or the growth by 131071 is granted and allocatable; the capacity is then what it was, or 131071 more; a refusal changes nothing. |
| `MidlList.IdList.AppendList` | libraries/liblmdb/midl.c:177-189 | The entries of the second list behind the contents, also for a list appended to itself without growing. It succeeds exactly when both counts together stay below the capacity, or growing by the second count is granted and allocatable; a refusal changes nothing. |
| `MidlList.IdList.AppendRange` | libraries/liblmdb/midl.c:191-205 | The `n` consecutive IDs from `id` on behind the contents, the largest first. It succeeds exactly when there is room, or growing by `n` rounded down to a multiple of 131072, plus 131071, is granted and allocatable; a refusal changes nothing. |
| `MidlList.RangeExtendsDescending` | libraries/liblmdb/midl.c:191-205 | A range below the entries of a descending list extends it to a descending list, which stays searchable. |
| `MidlList.IdList.SortList` | libraries/liblmdb/midl.c:226-285 | Sorting a list object makes its contents descending and keeps their multiset. |
| `MidlId2.Search` | libraries/liblmdb/midl.c:287-320 | On an ascending ID2 list the result is the only position with smaller keys before it and the others from it on; it holds the key exactly when the list has it. |
| `MidlId2.OpenAndFill` | libraries/liblmdb/midl.c:344-347 | Entries from the insertion point on move up by one, the new entry takes the gap, the others keep their place. |
| `MidlId2.Insert` | libraries/liblmdb/midl.c:322-351 | Insertion refines a map update: 0 binds a new key and keeps the order, -1 exactly for a bound key, -2 exactly for a full list without it, and both change nothing. |
| `MidlId2.Append` | libraries/liblmdb/midl.c:353-362 | Whatever the order of the list, appending puts the entry at the end and binds its key; the list is ascending afterwards exactly when it was and the key is above every key of it. |
| `MidlId2.InsertionRefinesMapUpdate` | libraries/liblmdb/midl.c:343-347 | Opening the gap at the searched position keeps the keys strictly ascending and adds exactly one binding to the map. |
| `MidlId2.ListIsItsMap` | libraries/liblmdb/midl.h:154-159 | An ascending list is its finite map: same keys, same pointers, and the count is the size of the map. |
| `FreelistStat.OneTestIsEnough` | libraries/liblmdb/mdb_stat.c:192-193 | In a strictly descending list one equality test proves a whole run of consecutive pages, 64-bit wrap-around included. |
| `FreelistStat.MaxSpan` | libraries/liblmdb/mdb_stat.c:186-194 | The single pass reports the length of the longest run of consecutive pages for every strictly descending record and never less for any other, in exactly `span` inner steps; it flags a record as bad exactly when it is not strictly descending above page 1. |
| `FreelistStat.PrintOne` | libraries/liblmdb/mdb_stat.c:199-200 | One line of the listing covers the whole run that starts at its page. |
| `FreelistStat.PrintRuns` | libraries/liblmdb/mdb_stat.c:197-204 | The listing is the sequence of runs from the end of the record to its start. |
| `FreelistStat.RunsExpandToList` | libraries/liblmdb/mdb_stat.c:197-204 | The printed runs expand to exactly the reversed record. |
| `FreelistStat.RunsAreMaximal` | libraries/liblmdb/mdb_stat.c:200 | No two neighbouring lines could have been printed as one, and no line is empty. |
| `FreelistStat.PassesAgree` | libraries/liblmdb/mdb_stat.c:186-204 | For every strictly descending record the longest printed line has the length reported by the first pass. |
| `Encoding.TextRoundTrip` | libraries/liblmdb/mdb_dump.c:58-77 | Decoding a print record gives back its bytes, for every byte string and every locale. |
| `Encoding.HexRoundTrip` | libraries/liblmdb/mdb_dump.c:79-90 | Decoding a bytevalue record gives back its bytes, for every byte string. |
| `Encoding.TextDecodesIffWellFormed` | libraries/liblmdb/mdb_load.c:242-260 | A print line is accepted if and only if it is a sequence of plain bytes, doubled backslashes and two-digit hex escapes, and it stands for the bytes of these. |
| `Encoding.HexDecodesIffWellFormed` | libraries/liblmdb/mdb_load.c:261-277 | A bytevalue line is accepted if and only if it is an even number of hex digits, and it stands for the bytes that pairs of digits of either case denote, high digit first. |
| `Encoding.TextMeans` | libraries/liblmdb/mdb_load.c:242-260 | A print line stands for given bytes exactly when it is made of one unit for each of them: the byte itself, a doubled backslash, or a backslash and the two digits of the byte, in either case. |
| `Encoding.HexMeans` | libraries/liblmdb/mdb_load.c:261-277 | A bytevalue line stands for given bytes exactly when it is their two digits each, high digit first, in either case. |
| `Encoding.TextOfByte` | libraries/liblmdb/mdb_dump.c:66-74 | A printable byte is printed as it is, the backslash twice, any other byte as a backslash and two lower-case digits. |
| `Encoding.TextAppend` | libraries/liblmdb/mdb_dump.c:64-75 | The print form of a text is that of its parts, one behind the other: with `TextOfByte` this determines it. |
| `Encoding.PlainTextUnchanged` | libraries/liblmdb/mdb_dump.c:66-69 | A text of printable bytes without a backslash is printed unchanged. |
| `Encoding.TextLength` | libraries/liblmdb/mdb_dump.c:64-75 | The print form is longer than the text by one byte for each printable backslash and two for each byte that is not printable. |
| `Encoding.HexOfBytes` | libraries/liblmdb/mdb_dump.c:52-56 | The bytevalue form is two lower-case digits for each byte, high digit first. |
| `Encoding.TextIsOneLine` | libraries/liblmdb/mdb_dump.c:58-77 | A print record contains neither newline nor NUL when the locale does not count them as printable. |
| `Encoding.HexIsOneLine` | libraries/liblmdb/mdb_dump.c:79-90 | A bytevalue record contains neither newline nor NUL. |
| `Encoding.Store` | libraries/liblmdb/mdb_load.c:246-258 | The write position stays behind the read position: storing a decoded byte leaves all unread bytes of the line in place. |
| `Encoding.DecodeTextInPlace` | libraries/liblmdb/mdb_load.c:242-260 | In-place decoding of a print line yields the value of the line as it was before decoding, or fails exactly when it has none. |
| `Encoding.DecodeHexInPlace` | libraries/liblmdb/mdb_load.c:261-277 | In-place decoding of a bytevalue line yields the value of the line as it was before decoding, or fails exactly when it has none. |
| `LineReader.AssembleWholeLine` | libraries/liblmdb/mdb_load.c:216-236 | A NUL-free line of any length is reassembled whole, whatever the size of the buffer it starts in. |
| `LineReader.GrowAndRead` | libraries/liblmdb/mdb_load.c:218-235 | With `l2` below the old size, reading size+1 bytes at offset `l2` ends inside the doubled buffer, for every input; the text read so far is kept. |
| `LineReader.AssembleLine` | libraries/liblmdb/mdb_load.c:216-236 | The doubling loop assembles the line its C strings make up, for inputs with NULs too, or reports the end of the input. |
| `LineReader.ReadRecordLine` | libraries/liblmdb/mdb_load.c:175-282 | A record line of any length reads back as its value, for every size of the line buffer, and leaves the rest of the input. |
| `LineReader.ReadDataEnd` | libraries/liblmdb/mdb_load.c:187-198 | The closing line of a section ends the section without raising the end-of-file flag. |
| `RecordLines.GoodLine` | libraries/liblmdb/mdb_load.c:181-282 | With `-T` a record line starts with its first byte, without it a space comes first: a line that stands for a value is read as that value, of whatever length and for every buffer, and the rest of the input is left. |
| `RecordLines.BufferFitsLine` | libraries/liblmdb/mdb_load.c:216-236 | Reading a line doubles the buffer until it holds the line with its newline and a NUL, and no further. |
| `RecordLines.BadLine` | libraries/liblmdb/mdb_load.c:249-272 | A line that does not decode ends the input. |
| `RecordLines.CutLine` | libraries/liblmdb/mdb_load.c:228-232 | A line without newline at the end of the input is not a record: the input has ended. |
| `RecordLines.NulLine` | libraries/liblmdb/mdb_load.c:206-213 | A line that starts with a NUL ends the input. |
| `RecordLines.NulJoinsLines` | libraries/liblmdb/mdb_load.c:206-236 | A NUL inside a line hides the rest of it and its newline, so that the next line is joined to it. |
| `RecordLines.OtherLine` | libraries/liblmdb/mdb_load.c:181-198 | Without `-T` a line that does not start with a space ends the section if it starts with DATA=END, and else the input. |
| `LineReader.ReadLine` | libraries/liblmdb/mdb_load.c:175-282 | For every input, buffer size and mode: the value, the DATA=END answer or the end-of-file answer that the record grammar prescribes, with the input left at the next line. What the grammar prescribes for the lines of any text is said by `RecordLines`. |
| `Header.ScanOfDecimal` | libraries/liblmdb/mdb_load.c:113-126 | Scanning a printed number gives the number back. |
| `Header.ReadHdr` | libraries/liblmdb/mdb_load.c:64-153 | For every input the header loop ends at HEADER=END or at the end of the input with the globals that its lines prescribe, or exits on an unsupported line. What each line prescribes is said, on the text of the header, by `HeaderLines`. |
| `HeaderLines.DecimalNotation` | libraries/liblmdb/mdb_load.c:113-126 | The numbers below are written in decimal notation. |
| `HeaderLines.VersionLine` | libraries/liblmdb/mdb_load.c:71-77 | A header whose next line is `VERSION=` and a number is refused exactly when the number is above 3; other versions change nothing. |
| `HeaderLines.VersionWithoutNumber` | libraries/liblmdb/mdb_load.c:71-77 | A version that is not a number is accepted. |
| `HeaderLines.EndLine` | libraries/liblmdb/mdb_load.c:78-79 | HEADER=END completes the header, with the rest of the input left. |
| `HeaderLines.FormatLine` | libraries/liblmdb/mdb_load.c:80-87 | `format=print` sets print mode, `format=bytevalue` does not take it back, any other format is refused. |
| `HeaderLines.DatabaseLine` | libraries/liblmdb/mdb_load.c:88-92 | `database=` sets the name to the rest of the line. |
| `HeaderLines.TypeLine` | libraries/liblmdb/mdb_load.c:93-98 | Any type other than `btree` is refused. |
| `HeaderLines.MapaddrLine` | libraries/liblmdb/mdb_load.c:99-108 | An address that does not scan is refused. |
| `HeaderLines.MapsizeLineWith` | libraries/liblmdb/mdb_load.c:109-119 | A map size that starts with a number, white space, a sign and zeros allowed in front, is taken over modulo 2^64. |
| `HeaderLines.MapsizeLineWithout` | libraries/liblmdb/mdb_load.c:109-119 | A map size without a number is refused. |
| `HeaderLines.MaxreadersLineWith` | libraries/liblmdb/mdb_load.c:120-129 | A number of readers is taken over modulo 2^32. |
| `HeaderLines.MaxreadersLineWithout` | libraries/liblmdb/mdb_load.c:120-129 | A number of readers without a number is refused. |
| `HeaderLines.FlagLine` | libraries/liblmdb/mdb_load.c:130-138 | Each of the six flag names with a `=` behind it sets the bit of that flag, whatever follows. |
| `HeaderLines.UnknownLine` | libraries/liblmdb/mdb_load.c:139-150 | A line that starts with none of these texts is ignored when it holds a `=`; one without is refused, unless the search runs on into older bytes of the buffer and finds one there. |
| `RoundTrip.ParseFlagLine` | libraries/liblmdb/mdb_load.c:132-137 | The line printed for a table flag sets exactly that flag's bit. |
| `RoundTrip.ParseDuplicates` | libraries/liblmdb/mdb_load.c:139-150 | The `duplicates=1` line of a dump changes nothing when it is read. |
| `RoundTrip.WithAllFlags` | libraries/liblmdb/mdb_dump.c:124-126 | The six flag lines together carry exactly the six table bits of the flags. |
| `RoundTrip.ParseHeaderOfDump` | libraries/liblmdb/mdb_dump.c:111-129 | The header of a dump reads back: name, format, table flags, map size and reader count. |
| `WholeRun.NameComesBackIffNoNewline` | libraries/liblmdb/mdb_dump.c:113-114 | A database name that fits the line buffer comes back from the header if and only if it contains no newline. |
| `WholeRun.TwoLineName` | libraries/liblmdb/mdb_dump.c:113-114 | The name of the two lines `a` and `b` does not come back, whatever else the header holds. |
| `Dump.Dumper.Text` | libraries/liblmdb/mdb_dump.c:58-77 | Writes a space, the print form of every byte, a newline. |
| `Dump.Dumper.ByteLine` | libraries/liblmdb/mdb_dump.c:79-90 | Writes a space, each byte as two hex digits, a newline. |
| `Dump.Dumper.PutHeader` | libraries/liblmdb/mdb_dump.c:111-129 | Writes the header lines in order, the optional ones exactly when they apply. |
| `DumpLines.HeaderText` | libraries/liblmdb/mdb_dump.c:111-129 | The header of a dump as text: every line in literal characters and decimal numbers, `database=`, `mapaddr=`, `duplicates=1` and the six flag lines exactly when they apply. |
| `DumpLines.RecordText` | libraries/liblmdb/mdb_dump.c:131-147 | A record is two lines, the key and the data, each with a space in front. |
| `DumpLines.RecordsAppend` | libraries/liblmdb/mdb_dump.c:131-147 | Records follow each other. |
| `DumpLines.DumpAppend` | libraries/liblmdb/mdb_dump.c:276-306 | One more database is its header, its records and a DATA=END line behind the others. |
| `Dump.Dumper.DumpIt` | libraries/liblmdb/mdb_dump.c:93-153 | Writes header, one key line and one data line for each record in cursor order, and DATA=END. |
| `Dump.Dumper.DumpAll` | libraries/liblmdb/mdb_dump.c:276-306 | Writes the databases one after the other. |
| `Load.ReadPair` | libraries/liblmdb/mdb_load.c:441-449 | The key is read through the key buffer and the data through the data buffer; a key without data is told apart from the end of a section. |
| `Load.LoadSection` | libraries/liblmdb/mdb_load.c:416-504 | One section: what ends up committed, whether the input is used up and where it continues, for every input and every answer of the engine. What that is, is said by `Batching`, `CommitLog`, `KeepExisting` and `InputLines`. |
| `CommitLog.SectionWasGranted` | libraries/liblmdb/mdb_load.c:416-504 | For every input, engine and all options: the log of a section that succeeds is its opening and puts, each granted in the state the log had then, with a granted commit behind every hundredth put and at the end; a section that fails has changed nothing, or has left some hundreds of such puts, the last hundred committed. |
| `CommitLog.CommittedPutsHaveBits` | libraries/liblmdb/mdb_load.c:345-346 | Every put in the log of a section, for every input and engine, has bits 4 and 5 exactly with `-N`; bit 17, or 6 and 18 for duplicates of a DUPSORT database, exactly with `-a`; and no other bit. |
| `KeepExisting.LoadKeepsExisting` | libraries/liblmdb/mdb_load.c:406-513 | With `-N` and an engine that refuses bound keys under bit 4, every pair stored before a run is stored after it, for every input and however the run ends. |
| `KeepExisting.SectionAddsNewKeys` | libraries/liblmdb/mdb_load.c:464-466 | With `-N` and such an engine a section adds to its database exactly the first record of every key not bound before, and changes nothing else. |
| `KeepExisting.RefusedPutStops` | libraries/liblmdb/mdb_load.c:465-470 | Without `-N` a key reported as existing stops the section, and so does an error under any options: a section whose puts are all refused that way fails and keeps nothing. |
| `RecordLines.PlainRunStoresRecords` | libraries/liblmdb/mdb_load.c:406-513 | A `-T` run over the alternating key and data lines of any records succeeds and stores exactly these records, in order. |
| `RecordLines.KeyWithoutDataFails` | libraries/liblmdb/mdb_load.c:441-449 | A section whose last key has no data fails, whatever the engine answers. |
| `InputLines.PartOfLines` | libraries/liblmdb/mdb_load.c:406-513 | A header, the key and data lines of some records and DATA=END make up one section of the input; the next one starts from what this header has set. |
| `InputLines.EmptyHeaderInherits` | libraries/liblmdb/mdb_load.c:406-413 | A section with an empty header takes over the name and the format of the section before it, but none of its flags. |
| `InputLines.LastPartOfLines` | libraries/liblmdb/mdb_load.c:406-513 | Lines behind which the input ends make up its last section. |
| `Load.LoadInput` | libraries/liblmdb/mdb_load.c:406-513 | The section loop over the whole input, including the extra pass at its end. |
| `Batching.SectionReadsThenPuts` | libraries/liblmdb/mdb_load.c:440-497 | Reading and putting, interleaved in the loop, have the effect of reading all records first and putting them afterwards. |
| `Batching.AppendFlagsFollowRuns` | libraries/liblmdb/mdb_load.c:451-493 | In append mode on a DUPSORT database every put that a section commits, in whatever batch and with or without `-N`, is the next accepted record's, with MDB_APPEND if its key differs from the record before and MDB_CURRENT and MDB_APPENDDUP if it does not; the engine is trusted to report the key just appended as the last one. |
| `Batching.BoundaryFlagIsReadBack` | libraries/liblmdb/mdb_load.c:487-493 | Behind a batch boundary that trust is needed: the next put is flagged as a duplicate if and only if its key is the one read back. |
| `Batching.PutOneKeepsBatch` | libraries/liblmdb/mdb_load.c:464-496 | Every put keeps: committed plus pending is what the engine has accepted of the records so far, exactly the whole batches are committed, and the previous key, read back after a commit, is that of the record before. |
| `Batching.SectionIsBatchSafe` | libraries/liblmdb/mdb_load.c:427-503 | Under all options, for every input and engine: a section that succeeds has opened its database, had every record accepted or skipped and every commit granted, and has stored exactly the accepted records, in order; one that fails has such a refusal or a missing data line as its cause, and has kept nothing, or its opening and the accepted records in front of the cause up to the last multiple of 100. |
| `Batching.SectionIsPrefixSafe` | libraries/liblmdb/mdb_load.c:427-503 | If no record is skipped, for every input and engine: a section that succeeds has stored all its records in order, one that fails keeps the first 100*k of them and nothing else. |
| `InputRun.LoadIsBatchSafe` | libraries/liblmdb/mdb_load.c:406-513 | For every input, engine and all options: a run that succeeds has opened, put and committed every section and stored the accepted records of each; one that gives up has stored complete sections followed by whole batches of the one that failed, and nothing else, and there is a refused header, a missing data line or a refusal of the engine that made it give up. |
| `InputRun.LoadIsPrefixSafe` | libraries/liblmdb/mdb_load.c:406-513 | If no record is skipped, the records stored by a run over any input are a prefix of the records of all its sections, and all of them when the run succeeds. |
| `RoundTrip.ReadAllOfDump` | libraries/liblmdb/mdb_load.c:440-497 | Reading the record lines of a dumped database gives its records in order and stops behind its own DATA=END. |
| `WholeRun.LoadOfNothing` | libraries/liblmdb/mdb_load.c:406-414 | The extra pass at the end of the input only opens the last database again; it adds no record. |
| `WholeRun.LoadOfDump` | libraries/liblmdb/mdb_load.c:406-513 | Loading the dump of any sequence of databases, in either format, puts exactly their records, in order, into databases of their names and table flags. |
| `WholeRun.DumpedDatabasesComeBack` | libraries/liblmdb/mdb_load.c:406-513 | For distinct names and records in cursor order, an empty environment keyed as the engine is keyed holds afterwards exactly the dumped databases, each with exactly its records and its flags restricted to the six table bits. |
| `WholeRun.SecondDumpIsTheSame` | libraries/liblmdb/mdb_dump.c:131-149 | A cursor over a database that has come back visits the dumped records in the dumped order, so dumping it again gives the same record lines. |
| `WholeRun.OrderIsUnique` | libraries/liblmdb/mdb_dump.c:131-149 | A set of records has only one enumeration in cursor order. |
| `ByteOrder.CmpKeyLaws` | libraries/liblmdb/mtest_count.c:20-32 | `cmp_key` is a total order on all byte strings and identifies only equal keys. |
| `ByteOrder.CmpMemnAgreesIff` | libraries/liblmdb/mtest_count.c:34-47 | For sizes below 2^32, `dtlv_cmp_memn` has the sign of `cmp_key` if and only if the common bytes differ or the difference of the lengths fits an `int`. |
| `ByteOrder.LongKeyBelowEmptyKey` | libraries/liblmdb/mtest_count.c:34-47 | Keys on which they differ: `dtlv_cmp_memn` puts a key of 2^31 bytes below the empty key. |
| `ByteOrder.CmpMemnOrdersShortKeys` | libraries/liblmdb/mtest_count.c:34-47 | On keys below 2^31 bytes `dtlv_cmp_memn` is a total order, the same as `cmp_key`. |
| `ByteOrder.ModelCompareIsLex` | libraries/liblmdb/mtest_dup_projection.c:251-258 | `model_compare` is dictionary order. |
| `ByteOrder.LexMeans` | libraries/liblmdb/mtest_dup_projection.c:251-258 | Dictionary order: the strings agree up to a position where the first one ends or has the smaller byte. |
| `RangeCount.SortedMakesIntervals` | libraries/liblmdb/mtest_count.c:424-430 | In a multimap sorted by a comparison that orders its keys and the bounds, a range cuts the keys into those below, inside and above, which justifies the early break. |
| `RangeCount.SumCountsPairs` | libraries/liblmdb/mtest_count.c:511-515 | Adding up duplicate counts per key counts exactly the pairs in range. |
| `RangeCount.InRangeMeans` | libraries/liblmdb/mtest_count.c:414-430 | On keys in byte order a key is in range exactly when it lies strictly between the bounds there are, or on one that is inclusive. |
| `RangeCount.NothingBetween` | libraries/liblmdb/count_bench.c:87-91 | Reversed bounds, and equal bounds not both inclusive, select nothing. |
| `RangeCount.NaiveCount` | libraries/liblmdb/mtest_count.c:398-438 | The full scan with early break returns the number of pairs in range, for all bounds and flags. |
| `RangeCount.NaiveCountKeysOnly` | libraries/liblmdb/mtest_count.c:440-480 | The key scan returns the number of keys in range. |
| `RangeCount.NaiveCountValues` | libraries/liblmdb/mtest_count.c:482-523 | The sum of duplicate counts returns the number of pairs in range. |
| `RangeCount.BenchNaiveCount` | libraries/liblmdb/count_bench.c:33-68 | The seek-based count returns the number of pairs between two optional inclusive bounds. |
| `RangeCount.CursorCountValues` | libraries/liblmdb/count_bench.c:70-137 | The seek-based sum of duplicate counts returns the number of pairs in range, with its early answers for empty ranges. |
| `RangeCount.EitherComparisonCounts` | libraries/liblmdb/mtest_count.c:1621 | For keys and bounds below 2^31 bytes a database sorted by `dtlv_cmp_memn` is one sorted by `cmp_key`, every counter applies to both, and the number counted is the same. |
| `Selection.OraclesAgree` | libraries/liblmdb/mtest_dup_projection.c:73-85 | On every sorted duplicate list some value has a prefix if and only if the lower bound of the prefix has it, and then the lower bound is the first such value. |
| `Selection.FirstMatch` | libraries/liblmdb/mtest_dup_projection.c:293-300 | The linear scan stops at the first value with the prefix, or at the end when there is none. |
| `Selection.HasPrefixMeans` | libraries/liblmdb/mtest_dup_projection.c:74-76 | A value has a prefix exactly when it is the prefix with something behind it. |
| `Selection.RangeMatch` | libraries/liblmdb/mtest_dup_projection.c:67-85 | The range lookup with a prefix test finds a value exactly when one has the prefix, namely the first. |
| `Selection.SelectorsAreGoodIffNoWrap` | libraries/liblmdb/dup_projection_bench.c:70-71 | The selectors rise strictly within 1..dups if and only if the product of `selected` and `dups + 1` fits 32 bits. |
| `Selection.SelectorValue` | libraries/liblmdb/dup_projection_bench.c:71 | Selector `i` is the quotient of `(i + 1) * (dups + 1)` by `selected + 1`, as long as the product fits 32 bits. |
| `Selection.WrappedSpacing` | libraries/liblmdb/dup_projection_bench.c:70-71 | Arguments for which they do not: the last of 65536 selectors over 65536 duplicates is 0. |
| `Selection.MergeWalk` | libraries/liblmdb/dup_projection_bench.c:116-130 | For rising selectors within the row one pass finds every selector's duplicate: neither assertion fails and the sum is over exactly the selected duplicates. |
| `Selection.SumOfZeros` | libraries/liblmdb/dup_projection_bench.c:116-130 | Where no duplicate weighs anything, neither does the sum. |
| `Selection.SumCountsSelected` | libraries/liblmdb/dup_projection_bench.c:116-130 | Giving a duplicate a weight changes the sum by that weight if its number is among the selectors, and not at all if it is not: with `SumOfZeros` this determines the sum. |
| `Selection.FullRow` | libraries/liblmdb/dup_projection_bench.c:70-130 | With the formula's selectors, the walk over a whole row finds them all whenever the largest product fits 32 bits. |
| `RankModel.Model.Add` | libraries/liblmdb/mtest_leaf2.c:184-197 | Adding stores exactly one new pair, keeps counts and total equal to the bitmap, and is refused exactly outside the model or for a stored pair. |
| `RankModel.Model.Remove` | libraries/liblmdb/mtest_leaf2.c:199-213 | Removing takes out exactly one stored pair and keeps counts and total equal to the bitmap. |
| `RankModel.Model.ClearKey` | libraries/liblmdb/mtest_leaf2.c:215-222 | Clearing a key empties its row, no other, and keeps counts and total equal to the bitmap. |
| `RankModel.Model.CopyFrom` | libraries/liblmdb/mtest_leaf2.c:156-163 | A copy has the pairs, counts and total of its source. |
| `RankModel.Model.LowerBound` | libraries/liblmdb/mtest_leaf2.c:269-277 | The smallest stored value from a given one on, or none exactly when there is none. |
| `RankModel.Model.First` | libraries/liblmdb/mtest_leaf2.c:224-234 | The stored value of lowest rank in its row, or none exactly for an empty row. |
| `RankModel.Model.Next` | libraries/liblmdb/mtest_leaf2.c:248-256 | From a stored value to the one whose rank is one higher. |
| `RankModel.Model.Prev` | libraries/liblmdb/mtest_leaf2.c:258-267 | To the stored value whose rank is one lower. |
| `RankModel.Model.Last` | libraries/liblmdb/mtest_leaf2.c:236-246 | The stored value of highest rank in its row, or none exactly for an empty row. |
| `RankModel.Model.ForwardWalk` | libraries/liblmdb/mtest_leaf2.c:606-628 | From the first value on through the next ones: exactly the stored values of the row, rising. |
| `RankModel.Model.ReverseWalk` | libraries/liblmdb/mtest_leaf2.c:630-659 | From the last value on through the previous ones: the same sequence backwards. |
| `RankModel.RowIsRanked` | libraries/liblmdb/mtest_leaf2.c:279-291 | The value at index `i` of the walk is stored and has `i` stored pairs of its row before it. |
| `RankModel.Model.Nth` | libraries/liblmdb/mtest_leaf2.c:279-291 | Select within a row: a stored value with exactly `rank` stored values before it, for exactly the ranks below the count. |
| `RankModel.Model.PairAt` | libraries/liblmdb/mtest_leaf2.c:293-311 | Select over the model: for exactly the ranks below the total, a stored pair of that rank; the final failure is unreachable. |
| `RankModel.RankIsMonotone` | libraries/liblmdb/mtest_leaf2.c:293-311 | Ranks rise strictly with the order of stored pairs, keys first. |
| `RankModel.RankIsCount` | libraries/liblmdb/mtest_leaf2.c:293-311 | The rank of a pair is the number of stored pairs with a smaller key, or the same key and a smaller value: of the slots before `65536 * key + value`. |
| `RankModel.RankIsInjective` | libraries/liblmdb/mtest_leaf2.c:293-311 | Two stored pairs of the same rank are the same pair. |
| `RankModel.RanksStayBelowTotal` | libraries/liblmdb/mtest_leaf2.c:299-301 | Every stored pair has a rank below the total: with `PairAt`, ranks and stored pairs correspond one to one. |
| `RankModel.EncodeValue` | libraries/liblmdb/mtest_leaf2.c:340-343 | The byte loop writes the value most significant byte first, padded with zeros to the width. |
| `RankModel.EncodingMeans` | libraries/liblmdb/mtest_leaf2.c:340-343 | The bytes read as a number, the first counting most, are the value modulo 256 to the width. |
| `RankModel.EncodingPreservesOrder` | libraries/liblmdb/mtest_leaf2.c:340-343 | Byte order on encoded values is numeric order, for all values that fit the width. |
| `RankModel.ModelValuesKeepOrder` | libraries/liblmdb/mtest_leaf2.c:340-343 | For widths of at least two bytes this covers every value of the model. |

## Left out

- The storage engine `mdb.c` (B+tree, page splits, MVCC, prefix compression, reader table) is not part of this model.
- Memory refused to the line buffer of the load program, errors of opening the environment, of beginning a transaction and of opening a cursor, `mdb_env_sync`, signals, options, messages and line numbers.
- Header.ReadHdr: which older bytes lie behind a header line in the buffer is not tracked but a parameter; memory from `malloc` that was never written is among them.
- Header.ScanOfDecimal: numbers outside the range of their C type, for which `sscanf` and `atoi` are undefined, are scanned as mathematical integers.
- Load.LoadInput: the previous key of the put loop is a value here; in the source it lives in the second half of the key buffer, which growing that buffer overlaps. Reading the last key back always answers; the source does not look at the return code.
- WholeRun.DumpedDatabasesComeBack: holds for an engine that carries out every request and for names that fit the 4096-byte line buffer; names are at most as long as keys, 511 bytes by default.
- MidlMerge.XMerge: the two lists are different arrays, and entries the destination has no room for are not considered; the caller makes room.
- MidlList.IdList.AppendList: appending a list to itself is left out where it would have to grow; the source would then read freed memory.
- MidlList.IdList.Need: a request that wraps to zero words is modelled as `realloc` with size 0 in glibc, which releases the block and returns null; the caller is left with a pointer to freed memory.
- `mdb_midl_free`, the disabled `mdb_midl_insert` and the `MDB_VL32` list functions, which repeat the ID2 functions.
- RangeCount.CursorCountValues: error codes other than not-found and the null output pointer; they would only add branches that return at once.
- RankModel.EncodeValue: native integer values, whose byte layout depends on the machine.
- The PRNG, timing, reporting and the remaining benchmarks: easy members.
