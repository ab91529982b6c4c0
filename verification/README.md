# KN Diff Pool: a verified model

KN Diff Pool is a Windows kernel driver with a Go client. The driver takes snapshots of the non-paged
big pools, hashes their contents, computes the difference of two snapshots, searches pools for byte
patterns and reports page-table rights. The client fetches the results and lets a user browse, filter,
dump and export them. This project models the analysis engine of the driver and the client code that
consumes its results, and proves what they promise each other.

`dafny verify dfyconfig.toml` checks everything.

## How the program is modelled

* **Memory.** MmCopyMemory is an oracle that answers every call, identified by a tick, with a status and
  the bytes it copied. Results that name no memory hold for all oracles: memory may change between two
  calls, copies may be partial, and a failed copy may still have copied bytes. `PageMemory.Serves`
  describes the strong form: memory at rest, readable page by page, each copy transferring the longest
  readable prefix and succeeding iff that is everything.
* **Physical memory** answers the copy of a page with any status and any number of words. For a scan,
  paging and probes may differ from page to page (`Sight`).
* **Integers.** 64-bit additions wrap and are detected as in `AddUnsigned64`; counters saturate or wrap
  where the code makes them. Bit tests of page-table entries are written with division and remainder, a
  flag word is the set of its bits, and FNV-1a works on numbers with an exclusive or defined bit by bit.
* **Locks.** A critical section is one atomic step. The snapshot store and the test allocations appear
  twice: as classes whose methods are the critical sections, and as step systems in which the requests of
  any number of threads interleave. Both use the same functions for the effect of a critical section.
* **Allocation** succeeds or fails as an argument says. Pool blocks have handles that are never reused.
* **The DeviceIoControl buffer**, which request and reply share, is a request value and a reply value. Where
  the driver writes bytes behind the header in place, the model writes to an array.
* **The TUI model** is a value that `Update` replaces: its source passes the struct by value. Its fields are
  grouped into records. A message carries what the outside world answered.

| file | content |
|---|---|
| Base, Sequences, Memory, Pool, PoolAddress | words, selection from lists, pages, copies, entries, membership of addresses |
| SearchSpec, SweepMeaning, Search, SearchContent, SearchTheorems, SearchClient, SearchAndRead | the streaming search, its reads, its refinement to the naive search, the client's call, reading hits back |
| Fnv, ContentHash, HashTheorems, HashCoverage, HashDetection, HashCounting, HashStream | content hashing: injectivity, coverage, detection of changes, counts, the stream that is hashed |
| Diff, ChangeDetection, SnapshotScan, ScanTwice | the diff, the scan, and the way of a changed byte into the diff |
| SnapshotStore, SnapshotSystem, SnapshotOrder, SnapshotSize, EntryTransfer, StoreRequests | the three snapshots, their concurrent use, their age and size, fetching entries, requests on copies |
| TestLedger, BigPoolQuery | the ledger of test allocations, the growing query buffer |
| Paging, PagingMeaning, PageAccounting, PageTheorems, PteDetails | the page-table walk, the walk in bits, the page counters, the page report |
| ReadContent, PoolDump | reading pieces of a pool and dumping it |
| StableSort, FilterSort, Tui, TuiTheorems | visible lists, and the state machine of the user interface |

## Where the code differs from what one may expect

* A hash chunk that straddles into an unreadable page ends the range instead of skipping the page. Hashing
  covers all readable bytes exactly when the range starts at a multiple of 512, or with an unreadable byte, or has
  no readable byte behind an unreadable one (`RangeHashesTheReadable`). For a page-aligned pool that concerns the
  second sample window only (`WindowsAreComplete`, `AlignedPoolsHash`, `SecondWindowCanLose`).
* The content hash is the FNV-1a hash of one stream, except that it is seeded again when it comes to zero before the first
  byte of the pool (`HashIsFnvOfTheStream`). That does happen, at the pool size 0x3608874253B96BD5 (`SeededTwice`).
* A search overflows with STATUS_INTEGER_OVERFLOW exactly when a pool reaches past the end of an address space whose
  last page is readable (`SearchFindsWhatIsThere`, `SearchFailsOnlyOffTheEnd`, `TopPoolOverflows`).
* The client cuts the length of its entry buffer to 32 bits. Taken by itself, its call loses entries from a count
  of 76695845 on and is refused at some counts (`AllArriveIffNoWrap`, `RefusedCounts`, `LeastWrap`). No such count
  occurs: a query buffer of 64 MiB holds at most 2796202 pools (`ReportedCountsDoNotWrap`).
* The last byte of the address space belongs to no entry for `AddressInPoolEntry`, even when its pool reaches it
  (`MembershipIsExact`), and an empty entry contains its own address for the client only (`ClientAgrees`).
* An installed current snapshot may have an older id than the baseline (`CurrentMayBeOlderThanBaseline`). It
  is newer in every run in which no baseline begins while a current is under way and whose scans take fewer than 2^32
  ids, and the condition on baselines is exact (`DisciplinedRunsAreOrdered`, `BaselineMayBeginIff`). Once the ids wrap
  the next current is not newer (`WrappedIdsLoseOrder`).
* The diff compares hashes only of entries with the same HashedBytes, which is the number of bytes hashed. A known
  pool of which another number of bytes is hashed than before, because pages were mapped or unmapped, is therefore
  not reported, whatever changed in it (`OtherCountIsNotReported`, `RemappedPoolIsNotReported`).
* The retry limit of the big-pool query is out of reach by doubling alone, and is reached when the reported length
  creeps (`DoublingNeverRetries`, `CreepingSizesRetry`); `RetryExactly` says when.
* The counters of an entry scanned without a page table are not page counts. The page report agrees with them exactly
  when it finds no page writable or executable, and one page accessible or none as the first byte was readable or
  not (`DetailsAgreeWithFallbackIff`).
* The page walk does not distinguish canonical addresses from others (`HighBitsAreIgnored`).
* After a stop action the client resets its snapshots in the expression that also returns the model; Go leaves open
  which of the two is evaluated first. The model has both outcomes (`Message.ActionDone`).

## Model

| member | source | states |
|---|---|---|
| Base.AddUnsigned64 | src/kn-diff/kn-diff/kn-diff.cpp:215-223 | detects exactly the sums that do not fit in 64 bits |
| Memory.CopyFromVirtualAddress | src/kn-diff/kn-diff/kn-diff.cpp:391-410 | transfers exactly the copied prefix into the destination and touches nothing outside the requested part; without a length it copies nothing and succeeds |
| Memory.PageMemory.Oracle | src/kn-diff/kn-diff/kn-diff.cpp:391-410 | every memory at rest is served by some oracle, so the results about served memory are about something |
| Memory.PageMemory.RestOfPageUnreadable | src/kn-diff/kn-diff/kn-diff.cpp:1345-1354 | skipping to the next page after a failed copy skips unreadable bytes only |
| Search.AppendSearchResult | src/kn-diff/kn-diff/kn-diff.cpp:1271-1298 | a result is stored in full iff there is room; the stored ones before it stay |
| Search.PatternEquals | src/kn-diff/kn-diff/kn-diff.cpp:1266-1269 | the comparison, byte by byte, tells whether the buffer holds every byte of the pattern from the position on |
| Search.ScanWindow | src/kn-diff/kn-diff/kn-diff.cpp:1359-1386 | all matches inside prefix and chunk that end behind the prefix are recorded once, in order, until the response is full |
| Search.ReadChunk | src/kn-diff/kn-diff/kn-diff.cpp:1322-1340 | a chunk is read behind the carried prefix, which survives; prefix and chunk always fit the buffer |
| Search.CarryOver | src/kn-diff/kn-diff/kn-diff.cpp:1392-1400 | the new prefix is the tail of what was scanned, as long as an occurrence can still need |
| Search.SearchEntry | src/kn-diff/kn-diff/kn-diff.cpp:1300-1414 | for every sequence of full, partial and failed copies the response gains exactly the occurrences inside the bytes read, in order, cut at its capacity; status and counters are exact |
| SearchSpec.OccurrencesMeaning | src/kn-diff/kn-diff/kn-diff.cpp:1360-1386 | the recorded offsets are exactly the places where the whole pattern is in bytes that were read, ascending, each once, overlapping ones included |
| SweepMeaning.SweepIsItsReads | src/kn-diff/kn-diff/kn-diff.cpp:1326-1401 | however memory answers: the sweep is a chain of reads, each where the one before leads; what it sees are the bytes they brought, each where it was read, and nothing else; it fails iff a read failed and overflows iff the chain leads past the address space |
| SearchContent.Rejection | src/kn-diff/kn-diff/kn-diff.cpp:1419-1438 | which requests are turned down, and with what |
| SearchContent.Capacity | src/kn-diff/kn-diff/kn-diff.cpp:1440-1445 | the largest number of results within the output, the limit of 1024 and the number asked for |
| StoreRequests.SearchStore | src/kn-diff/kn-diff/kn-diff.cpp:1450-1477 | a search runs over a copy of the diff for target 0 and of the current snapshot for target 1, leaves the store as it was and no buffer behind; with memory at rest its results are the first matches of the naive search in that snapshot |
| SearchContent.SearchEntries | src/kn-diff/kn-diff/kn-diff.cpp:1461-1477 | the search succeeds iff no entry fails before the response is full; otherwise the status is that of the first entry that fails |
| SearchContent.HandleSearchContent | src/kn-diff/kn-diff/kn-diff.cpp:1416-1497 | the rejection of each malformed request; otherwise the first `capacity` matches over all entries, Truncated iff there are more, TotalMatches, scanned and skipped counts exact, read failures exact unless truncated and then low by at most one; a failed search has the status of the first entry that fails |
| SearchContent.MatchesAreSeen | src/kn-diff/kn-diff/kn-diff.cpp:1403-1406 | an entry with a match is never counted as skipped |
| SearchTheorems.SweepTellsTruth | src/kn-diff/kn-diff/kn-diff.cpp:1322-1401 | on memory at rest a sweep reads every readable byte of the pool and nothing else; overflow and failure are exact |
| SearchTheorems.SearchFindsWhatIsThere | src/kn-diff/kn-diff/kn-diff.cpp:1300-1414 | the chunked search finds a pattern at an offset iff memory holds it there, readable in full |
| SearchTheorems.MatchesAreNaive | src/kn-diff/kn-diff/kn-diff.cpp:1461-1477 | the matches of a whole search are those of the naive search, entry by entry |
| SearchTheorems.StatisticsCountPools | src/kn-diff/kn-diff/kn-diff.cpp:1403-1410 | EntriesSkipped counts the pools without a readable byte, ReadFailures those with an unreadable one |
| SearchTheorems.SearchFailsOnlyOffTheEnd | src/kn-diff/kn-diff/kn-diff.cpp:1330-1354 | with buffers to be had, a search fails iff it comes to a pool that runs off a readable end of the address space |
| SearchTheorems.TopPoolOverflows | src/kn-diff/kn-diff/kn-diff.cpp:1330-1334 | a pool of two pages that begins in the last page of the address space makes a search overflow |
| SearchClient.CallSearch | src/user/kn-pool-diff/internal/device/device_windows.go:198-261 | good requests are never refused as malformed nor their replies rejected; the caller gets the first matches up to the limit, or the status of the first entry that fails, or of the snapshot copy |
| SearchAndRead.ResultsAreReports | src/kn-diff/kn-diff/kn-diff.cpp:1461-1477 | a result is in the naive search of several entries iff it is an occurrence in memory in one of them |
| SearchAndRead.ReportedIsReadBack | src/kn-diff/kn-diff/kn-diff.cpp:1081-1148 | reading at a reported offset gives bytes that begin with the pattern |
| SearchAndRead.JumpShowsThePattern | src/user/kn-pool-diff/internal/tui/model.go:401-414 | the dump that a jump to a search hit asks for begins with the searched pattern |
| Fnv.MaskInjective | src/kn-diff/kn-diff/kn-diff.cpp:558-577 | the exclusive or of an FNV-1a step loses neither hash nor byte |
| Fnv.TimesPrimeInjective | src/kn-diff/kn-diff/kn-diff.cpp:22-22 | multiplication by the FNV prime is injective modulo 2^64 |
| Fnv.StepInjective | src/kn-diff/kn-diff/kn-diff.cpp:569-572 | an FNV-1a step is injective in the hash and in the byte |
| Fnv.FoldDetects | src/kn-diff/kn-diff/kn-diff.cpp:569-572 | runs that differ in exactly one byte have different hashes |
| Fnv.XorIsBitwise | src/kn-diff/kn-diff/kn-diff.cpp:570-570 | the exclusive or of two bytes has a one exactly where one of them has a one |
| Fnv.KnownHash | src/kn-diff/kn-diff/kn-diff.cpp:569-572 | the published FNV-1a hash of the letter a |
| HashStream.MixedBytesAreTheValue | src/kn-diff/kn-diff/kn-diff.cpp:590-593 | what is mixed in are eight bytes that stand for the value, lowest first |
| HashStream.HashIsFnvOfTheStream | src/kn-diff/kn-diff/kn-diff.cpp:558-596 | the hash is FNV-1a of the size and, for each chunk, its offset and its bytes, exactly when it does not come to zero before the first byte of the pool, or comes back by one coincidence |
| HashStream.SeededTwice | src/kn-diff/kn-diff/kn-diff.cpp:584-588 | a pool size at which the hash does come to zero and is seeded again, so that it is not FNV-1a of the stream |
| HashStream.HashOfIsRecorded | src/kn-diff/kn-diff/kn-diff.cpp:646-675 | the recorded hash is that of the chunks read, none of which is empty |
| ContentHash.HashPolicy.Sample | src/kn-diff/kn-diff/kn-diff.cpp:656-661 | the sample size asked for, between one page and 16 MiB |
| ContentHash.HashPolicy.Samples | src/kn-diff/kn-diff/kn-diff.cpp:663-669 | sampled are the pools above one page that exceed the sample size asked for or 16 MiB, unless the policy is to hash in full |
| ContentHash.MixContentHashValue | src/kn-diff/kn-diff/kn-diff.cpp:579-596 | folds the eight little-endian bytes of a value into the hash, seeded if nothing was hashed |
| ContentHash.UpdateContentHash | src/kn-diff/kn-diff/kn-diff.cpp:558-577 | folds bytes into the hash, seeded if nothing was hashed, and counts them with saturation |
| ContentHash.HashPoolEntryRange | src/kn-diff/kn-diff/kn-diff.cpp:598-644 | the loop absorbs exactly the chunks that the range reads, each behind its offset; it terminates for every oracle |
| ContentHash.HashPoolEntryContent | src/kn-diff/kn-diff/kn-diff.cpp:646-675 | hash, count and HASH_SAMPLED after size and one range, or size and two sample windows |
| HashTheorems.RangeInOrder | src/kn-diff/kn-diff/kn-diff.cpp:598-644 | every read lies inside the range, nonempty, behind the one before it, whatever memory answers |
| HashTheorems.ContentInOrder | src/kn-diff/kn-diff/kn-diff.cpp:670-674 | the two sample windows are disjoint and all hashed bytes lie in them |
| HashTheorems.AbsorbCounts | src/kn-diff/kn-diff/kn-diff.cpp:574-576 | HashedBytes is the number of bytes hashed, saturated at 2^32-1 |
| HashTheorems.TotalCovers | src/kn-diff/kn-diff/kn-diff.cpp:598-644 | chunks in order add up to the range iff they cover every byte of it |
| HashTheorems.SampledFlagIsExact | src/kn-diff/kn-diff/kn-diff.cpp:646-675 | HASH_SAMPLED stays clear iff every byte of the pool was hashed and the count did not saturate |
| HashCoverage.RangeTells | src/kn-diff/kn-diff/kn-diff.cpp:598-644 | on memory at rest the hashed chunks are readable memory, byte for byte |
| HashCoverage.AlignedReachesAll | src/kn-diff/kn-diff/kn-diff.cpp:598-644 | from a multiple of 512 on every readable byte of the range is hashed |
| HashCoverage.OddStartReaches | src/kn-diff/kn-diff/kn-diff.cpp:631-641 | from a readable byte off the 512 grid exactly the bytes up to the first unreadable one are hashed |
| HashCoverage.RangeReaches | src/kn-diff/kn-diff/kn-diff.cpp:598-644 | a byte of a range is hashed iff it is readable and the start of the range is on the 512 grid, or unreadable, or followed by readable bytes up to it |
| HashCoverage.RangeHashesTheReadable | src/kn-diff/kn-diff/kn-diff.cpp:598-644 | the hashed bytes are readable bytes of the range, in order and once, with that exact condition for each; all readable ones iff one of three conditions on the range holds |
| HashCoverage.ContentHashes | src/kn-diff/kn-diff/kn-diff.cpp:646-675 | the exact set of bytes of a pool that are hashed, for every policy |
| HashCoverage.WindowsAreComplete | src/kn-diff/kn-diff/kn-diff.cpp:670-674 | sampling hashes all readable bytes of both windows iff the condition holds for each of the two ranges |
| HashCoverage.AlignedPoolsHash | src/kn-diff/kn-diff/kn-diff.cpp:662-674 | for a pool on the 512 grid: every readable byte without sampling; with sampling every readable byte of the first window, and of the second what is reached from its start |
| HashCoverage.SecondWindowCanLose | src/kn-diff/kn-diff/kn-diff.cpp:670-674 | a page-aligned pool with one unmapped page of which sampling leaves readable bytes of the second window unhashed |
| HashDetection.SameReads | src/kn-diff/kn-diff/kn-diff.cpp:598-644 | equal readability gives equal chunk boundaries |
| HashDetection.AbsorbDetects | src/kn-diff/kn-diff/kn-diff.cpp:558-596 | streams of chunks of the same shape that differ in one byte have different hashes and equal counts |
| HashDetection.HashDependsOnWindowsOnly | src/kn-diff/kn-diff/kn-diff.cpp:646-675 | hash, count and flag depend on the bytes and the readability of the hashed windows only |
| HashCounting.HashedBytesCounted | src/kn-diff/kn-diff/kn-diff.cpp:574-576 | on memory at rest HashedBytes is the number of bytes of the pool that are hashed, saturated at 2^32-1 |
| HashCounting.OtherCountIsNotReported | src/kn-diff/kn-diff/kn-diff.cpp:273-280 | a known pool of which another number of bytes is hashed than at its match in the baseline is not reported |
| HashCounting.RemappedPoolIsNotReported | src/kn-diff/kn-diff/kn-diff.cpp:877-900 | two memories that differ in the number of hashed bytes of a pool give an empty diff for it, whatever else differs |
| HashDetection.OneByteChangesHashIffHashed | src/kn-diff/kn-diff/kn-diff.cpp:646-675 | a change of one byte changes the hash iff that byte was hashed, and nothing else that the diff compares |
| Diff.FindEntryByIdentity | src/kn-diff/kn-diff/kn-diff.cpp:262-271 | the first entry with the same identity, or none iff there is none |
| Diff.FirstMatchMeaning | src/kn-diff/kn-diff/kn-diff.cpp:262-271 | the match is the entry at the first position with equal address, size and tag, and none iff at every position one of them differs |
| Diff.ReportMeaning | src/kn-diff/kn-diff/kn-diff.cpp:885-899 | a current entry is reported as it is if no baseline entry has its address, size and tag; with HASH_CHANGED added if the first that has them shows as many hashed bytes, the same sampling and another hash; otherwise not at all |
| Diff.DiffMeaning | src/kn-diff/kn-diff/kn-diff.cpp:877-900 | an entry is in the diff iff it is one of these reports of some current entry |
| Diff.DiffIsPicks | src/kn-diff/kn-diff/kn-diff.cpp:877-900 | the diff reports the new and the changed entries of the current snapshot, each once, in order |
| Diff.EmptyDiff | src/kn-diff/kn-diff/kn-diff.cpp:877-900 | the diff is empty iff every current entry has a first match whose hash did not change |
| ChangeDetection.OneByteChangeIsReported | src/kn-diff/kn-diff/kn-diff.cpp:273-280 | a change of one byte since the match in the baseline puts the entry into the diff as HASH_CHANGED iff the byte was hashed |
| ChangeDetection.OneWriteIsReported | src/kn-diff/kn-diff/kn-diff.cpp:877-900 | for every memory, pool and policy: a write of another value to one byte between two scans is in the diff iff the byte is hashed; which bytes these are, told from readability and alignment, without and with sampling |
| ChangeDetection.UnchangedPoolIsNotReported | src/kn-diff/kn-diff/kn-diff.cpp:273-280 | an entry whose hashed bytes and readability did not change since its match in the baseline is not reported |
| SnapshotScan.ScanEntry | src/kn-diff/kn-diff/kn-diff.cpp:850-863 | an entry records address, size, tag, id, page counters, page flags and hash of its pool, the counters and flags of its first byte without a page table |
| SnapshotScan.ScanEntries | src/kn-diff/kn-diff/kn-diff.cpp:849-864 | the snapshot holds one such entry for each non-paged pool, in order, and nothing else |
| SnapshotScan.ByteChangeReachesTheDiff | src/kn-diff/kn-diff/kn-diff.cpp:829-900 | over two whole scans: one changed byte of a pool brings its current entry into the diff iff the byte is hashed |
| ScanTwice.QuietScansGiveEmptyDiff | src/kn-diff/kn-diff/kn-diff.cpp:829-900 | over two whole scans: if the windows of every pool are unchanged since its match in the baseline, the diff is empty |
| ScanTwice.ScanAgain | src/kn-diff/kn-diff/kn-diff.cpp:829-900 | scanning twice without a change gives an empty diff, for all pools, duplicates included |
| ScanTwice.ScanWriteScan | src/kn-diff/kn-diff/kn-diff.cpp:829-900 | scanning before and after a write to one byte: the diff reports that pool iff the byte is hashed |
| SnapshotStore.FreeSnapshot | src/kn-diff/kn-diff/kn-diff.cpp:141-149 | frees the buffer once and forgets it |
| SnapshotStore.AllocateSnapshot | src/kn-diff/kn-diff/kn-diff.cpp:151-170 | a zeroed buffer, none for zero entries, or an error |
| SnapshotStore.ReplaceSnapshot | src/kn-diff/kn-diff/kn-diff.cpp:172-179 | the old buffer is freed, the new one changes owner |
| SnapshotStore.CopySnapshot | src/kn-diff/kn-diff/kn-diff.cpp:332-362 | an owned copy of what is visible, or an error that leaves nothing |
| SnapshotStore.Store.RebuildDiffLocked | src/kn-diff/kn-diff/kn-diff.cpp:877-900 | the diff becomes DiffOf(baseline, current), or empty if its allocation failed; exactly the old diff is freed |
| SnapshotStore.Store.CommitBaseline | src/kn-diff/kn-diff/kn-diff.cpp:963-969 | the scan becomes the baseline, current and diff become empty; exactly the three old buffers are freed |
| SnapshotStore.Store.CommitCurrent | src/kn-diff/kn-diff/kn-diff.cpp:984-994 | the scan becomes current and the diff is rebuilt; current stays even if the diff fails |
| SnapshotStore.Store.ClearSnapshots | src/kn-diff/kn-diff/kn-diff.cpp:181-193 | all three become empty, their buffers are freed, the count is their sum in 32 bits |
| SnapshotStore.Store.CopySnapshotByTarget | src/kn-diff/kn-diff/kn-diff.cpp:364-389 | the reader owns a copy of the diff for target 0, of the current snapshot for target 1, and nothing for any other; the store is unchanged |
| StoreRequests.HandleGetDiffEntries | src/kn-diff/kn-diff/kn-diff.cpp:1055-1066 | replies with the entries of the diff that fit, from a copy that is freed |
| StoreRequests.HandleGetCurrentEntries | src/kn-diff/kn-diff/kn-diff.cpp:1068-1079 | the same for the current snapshot |
| SnapshotSystem.StepKeepsInv | src/kn-diff/kn-diff/kn-diff.cpp:954-997 | every step of every request keeps: one owner per buffer, freed once, consistent visible state |
| SnapshotSystem.EveryRunIsSafe | src/kn-diff/kn-diff/kn-diff.cpp:954-997 | in every interleaving diff is DiffOf(baseline, current) or empty after a failed rebuild, each snapshot has one id, the diff has that of current |
| SnapshotSystem.StepUntouched | src/kn-diff/kn-diff/kn-diff.cpp:364-389 | a step of one request leaves the buffer and phase of every other alone |
| SnapshotSystem.ReaderSeesOneSnapshot | src/kn-diff/kn-diff/kn-diff.cpp:364-389 | what a reader copied is the diff or the current snapshot as it was visible, by its target, and stays so under any steps of others; it got it iff there was memory or nothing to copy |
| SnapshotSystem.NothingLeaks | src/kn-diff/kn-diff/kn-diff.cpp:181-193 | when all requests are done and the snapshots cleared, every buffer ever allocated was freed exactly once |
| SnapshotOrder.DisciplinedRunsAreOrdered | src/kn-diff/kn-diff/kn-diff.cpp:954-997 | in every run, of any length, in which no baseline begins while a current is under way, and in which the ids taken do not wrap, every entry of the current snapshot has a larger id than every entry of the baseline |
| SnapshotOrder.CurrentMayBeOlderThanBaseline | src/kn-diff/kn-diff/kn-diff.cpp:954-997 | from any sound state with a current under way, a baseline that begins can be installed first, and the current installed then is older |
| SnapshotOrder.BaselineMayBeginIff | src/kn-diff/kn-diff/kn-diff.cpp:954-997 | a baseline may begin without putting any later run out of order, as far as the ids go, iff no current is under way |
| SnapshotOrder.WrappedIdsLoseOrder | src/kn-diff/kn-diff/kn-diff.cpp:973-978 | when the last id before the wrap is taken, the next current gets the id 0 and is not newer than the baseline |
| SnapshotSize.RunsAreBounded | src/kn-diff/kn-diff/kn-diff.cpp:834-838 | in every run whose scans read what a query can return, no visible snapshot and no buffer of a request holds more than 2796202 entries |
| SnapshotSize.CountsDoNotWrap | src/kn-diff/kn-diff/kn-diff.cpp:181-193 | no count that a request reports wraps, the sum that clearing reports included |
| EntryTransfer.CompleteEntriesResponse | src/kn-diff/kn-diff/kn-diff.cpp:1021-1053 | the longest prefix of the snapshot that fits the output, and its total |
| EntryTransfer.EntriesRequest | src/user/kn-pool-diff/internal/device/device_windows.go:113-146 | the client never rejects the reply of the driver |
| EntryTransfer.CapacityIsCount | src/user/kn-pool-diff/internal/device/device_windows.go:118-121 | the capacity is the count iff the length does not wrap |
| EntryTransfer.AllArriveIffNoWrap | src/user/kn-pool-diff/internal/device/device_windows.go:118-121 | all of the first `count` entries arrive, for every snapshot, iff 16 + 56 * count is below 2^32 |
| EntryTransfer.RefusedCounts | src/user/kn-pool-diff/internal/device/device_windows.go:118-124 | the isolated call is refused iff the count is one of two residues modulo 2^29 |
| EntryTransfer.LeastWrap | src/user/kn-pool-diff/internal/device/device_windows.go:118-124 | the least count that wraps, and what it fetches |
| EntryTransfer.ReportedCountsDoNotWrap | src/user/kn-pool-diff/internal/device/device_windows.go:93-111 | a count that the driver reports never makes the length wrap |
| EntryTransfer.TransferAcrossSteps | src/user/kn-pool-diff/internal/device/device_windows.go:93-111 | for every reachable state, with any steps of other requests between the two calls, what arrives is a prefix of one committed snapshot, of one scan, of length min(count, total) |
| TestLedger.FillTestAllocation | src/kn-diff/kn-diff/kn-diff.cpp:195-213 | the block is the pattern repeated and cut at the end; without a pattern it is unchanged |
| TestLedger.TestAllocations.TooMany | src/kn-diff/kn-diff/kn-diff.cpp:1545-1552 | the counter alone tells that the list holds as many allocations as it may |
| TestLedger.TestAllocations.Insert | src/kn-diff/kn-diff/kn-diff.cpp:1572-1584 | the second quota check, then list and counter grow together |
| TestLedger.TestAllocations.DetachAll | src/kn-diff/kn-diff/kn-diff.cpp:227-240 | list and counter become empty, the local list has the allocations in order |
| TestLedger.QuotaIsThirtyTwo | src/kn-diff/kn-diff/kn-diff.cpp:1545-1584 | both quota checks pass exactly while fewer than 32 allocations are listed; an allocation refused by the second is freed, memory first, then record |
| TestLedger.StepKeepsInv | src/kn-diff/kn-diff/kn-diff.cpp:1545-1584 | every step keeps counter, list and the place of every block consistent |
| TestLedger.EveryRunIsSafe | src/kn-diff/kn-diff/kn-diff.cpp:1505-1594 | every interleaving of allocations and free-all requests keeps the invariant |
| TestLedger.RunsAreAccountedFor | src/kn-diff/kn-diff/kn-diff.cpp:225-253 | counter equals list length and is at most 32; every block is in exactly one of listed, in flight, detached or freed; nothing is freed twice |
| TestLedger.FreeAllOfDrains | src/kn-diff/kn-diff/kn-diff.cpp:242-250 | freeing what a request holds ends with it holding nothing and disturbs no other |
| TestLedger.UnloadFreesEverything | src/kn-diff/kn-diff/kn-diff.cpp:1684-1688 | unloading after the last request leaves every block ever allocated freed, once |
| BigPoolQuery.QuerySystemBigPoolInfo | src/kn-diff/kn-diff/kn-diff.cpp:759-827 | one live buffer at a time; on success the caller owns the one of the last query, on failure none is left |
| BigPoolQuery.SizesClimb | src/kn-diff/kn-diff/kn-diff.cpp:774-818 | at most 17 queries with strictly growing sizes, none above 64 MiB, for every sequence of answers |
| BigPoolQuery.QueriesMeaning | src/kn-diff/kn-diff/kn-diff.cpp:770-818 | for every sequence of answers: each further query follows one that was too small, for the reported length if that is larger and else for twice the size, within 64 MiB; and which status ends the loop |
| BigPoolQuery.DoublingNeverRetries | src/kn-diff/kn-diff/kn-diff.cpp:796-813 | a system that never asks for more than it was given sees at most 11 queries and no STATUS_RETRY |
| BigPoolQuery.SteadySystem | src/kn-diff/kn-diff/kn-diff.cpp:784-818 | against a fixed need one retry is enough, and it fails iff the need is above 64 MiB |
| BigPoolQuery.CreepingSizesRetry | src/kn-diff/kn-diff/kn-diff.cpp:790-799 | sizes that creep by one byte make 17 queries and STATUS_RETRY |
| BigPoolQuery.RetryExactly | src/kn-diff/kn-diff/kn-diff.cpp:770-818 | against a system that says what each query needs, STATUS_RETRY iff the 17 needs climb from above the initial size and the 16th is at most 64 MiB |
| BigPoolQuery.AnswersAreBounded | src/kn-diff/kn-diff/kn-diff.cpp:784-826 | an accepted answer has room for at most 2796202 pools |
| Paging.CopyPhysicalPage | src/kn-diff/kn-diff/kn-diff.cpp:429-451 | the table of the frame, or why it could not be copied in full |
| Paging.QueryAddressPteAttributes | src/kn-diff/kn-diff/kn-diff.cpp:453-527 | the walk in one buffer equals the recursive translation: writable iff all entries allow it, executable iff none forbids it, no attributes on failure |
| PagingMeaning.WalkMeaning | src/kn-diff/kn-diff/kn-diff.cpp:453-527 | in bits, indices and frames: the one way down from the root in CR3 through four or five levels, where it ends, and what is reported; an entry at 1 GiB or 2 MiB with bit 7 set ends it, and one without does not |
| PagingMeaning.WalkIsDescent | src/kn-diff/kn-diff/kn-diff.cpp:472-520 | every walk is a descent of present entries, each from the table behind the one before it, to an end |
| PagingMeaning.OneDescent | src/kn-diff/kn-diff/kn-diff.cpp:472-520 | no other descent ends |
| Paging.LeafLevelIsLegal | src/kn-diff/kn-diff/kn-diff.cpp:498-513 | large leaves occur at 1 GiB and 2 MiB only, and every entry on the path is present |
| Paging.FailureReportsNothing | src/kn-diff/kn-diff/kn-diff.cpp:466-470 | a walk succeeds iff it reports the page present, and otherwise reports no attribute |
| Paging.WalkIsPageWide | src/kn-diff/kn-diff/kn-diff.cpp:453-527 | all addresses of a 4 KiB page get the same result, faults included |
| Paging.LargePageIsUniform | src/kn-diff/kn-diff/kn-diff.cpp:498-505 | all addresses of one large page get identical attributes |
| Paging.FiveLevelsOverFour | src/kn-diff/kn-diff/kn-diff.cpp:472-486 | a 5-level walk is the 4-level walk below its top entry, with the rights of that entry taken away; equal to it if the entry is writable and executable |
| Paging.HighBitsAreIgnored | src/kn-diff/kn-diff/kn-diff.cpp:424-427 | the 4-level walk ignores address bits 48 to 63 |
| PageAccounting.CountIsCardinality | src/kn-diff/kn-diff/kn-diff.cpp:537-556 | the count is the number of distinct pages touched, saturated at 2^32-1 |
| PageAccounting.PageVisited | src/kn-diff/kn-diff/kn-diff.cpp:692-696 | the loop never overflows and visits pages of the range, in order, each once |
| PageAccounting.AllPagesVisited | src/kn-diff/kn-diff/kn-diff.cpp:692-696 | unless saturated it visits all of them |
| PageAccounting.IsVirtualAddressReadable | src/kn-diff/kn-diff/kn-diff.cpp:529-535 | a probe of one byte |
| PageAccounting.AnnotatePage | src/kn-diff/kn-diff/kn-diff.cpp:698-724 | one round counts the page under exactly the rights seen |
| PageAccounting.AnnotatePoolEntryAttributes | src/kn-diff/kn-diff/kn-diff.cpp:677-742 | the counters are the cardinalities of the sets of pages seen with each right; each flag says exactly what its name says about those sets; the fallback without a page table |
| PageAccounting.CountsDecideFlags | src/kn-diff/kn-diff/kn-diff.cpp:727-741 | the flags computed from counters are the statements about all, some and not all pages |
| PageAccounting.FlagsMeaning | src/kn-diff/kn-diff/kn-diff.cpp:714-741 | what each of the eight page flags says about the first page or about the counters |
| PageAccounting.AnnotationBacksFlags | src/kn-diff/kn-diff/kn-diff.cpp:714-741 | every page flag of an annotated entry is backed by a positive counter |
| PageTheorems.CountersCountPages | src/kn-diff/kn-diff/kn-diff.cpp:677-742 | with paging and memory at rest each counter is the number of pages of the pool with the right |
| PageTheorems.RightsHoldThroughout | src/kn-diff/kn-diff/kn-diff.cpp:692-699 | the rights of a page hold for every address in it |
| PoolAddress.MembershipIsExact | src/kn-diff/kn-diff/kn-diff.cpp:282-290 | an address belongs to an entry iff it is a byte of its pool other than the last byte of the address space |
| PoolAddress.ClientAgrees | src/user/kn-pool-diff/internal/device/device_windows.go:533-539 | the client accepts what the driver finds, and otherwise only the start of an entry |
| PoolAddress.FindEntryByAddress | src/kn-diff/kn-diff/kn-diff.cpp:292-301 | the first entry at the address |
| PoolAddress.FindEntryContainingAddress | src/kn-diff/kn-diff/kn-diff.cpp:303-313 | the first entry that contains the address |
| PoolAddress.PreferredMeaning | src/kn-diff/kn-diff/kn-diff.cpp:316-330 | the first entry with a property in the diff, and only if the diff has none the first in the current snapshot |
| PoolAddress.FindReadableEntryByAddress | src/kn-diff/kn-diff/kn-diff.cpp:316-322 | the first entry at the address in the diff, else in the current snapshot; none iff neither has one |
| PoolAddress.FindPteEntryByAddress | src/kn-diff/kn-diff/kn-diff.cpp:324-330 | the first entry containing the address in the diff, else in the current snapshot; none iff neither has one |
| PteDetails.DescribePage | src/kn-diff/kn-diff/kn-diff.cpp:1150-1178 | a line of the report says what the walk and the probe saw of its page |
| PteDetails.HandleGetPteDetails | src/kn-diff/kn-diff/kn-diff.cpp:1180-1264 | each error case, and otherwise a truthful line for each page up to the limits, truncated iff pages are missing |
| PteDetails.PTEDetails | src/user/kn-pool-diff/internal/device/device_windows.go:298-351 | the checks of the client, range check included, never reject the reply |
| PteDetails.DetailsAgreeWithSummary | src/kn-diff/kn-diff/kn-diff.cpp:1243-1257 | under the same paging state an untruncated report has exactly as many writable, executable and accessible lines as the scan counted |
| PteDetails.DetailsAgreeWithFallbackIff | src/kn-diff/kn-diff/kn-diff.cpp:684-690 | a report agrees with an entry counted without a page table iff it finds no page writable or executable, and one accessible or none as the first byte was readable or not |
| PteDetails.AnnotateThenDescribe | src/kn-diff/kn-diff/kn-diff.cpp:1243-1257 | annotating an entry and asking for its pages, with paging and memory at rest: the untruncated report agrees, and without a page table it agrees iff that condition holds |
| PteDetails.RestGivesSameSight | src/kn-diff/kn-diff/kn-diff.cpp:1249-1252 | with paging and memory at rest two looks at an entry are the same |
| PteDetails.TruncatedIffCut | src/kn-diff/kn-diff/kn-diff.cpp:1206-1230 | a report of an annotated entry is truncated iff a limit cut it |
| ReadContent.HandleReadContent | src/kn-diff/kn-diff/kn-diff.cpp:1081-1148 | each error case, and otherwise the bytes copied, at most the four limits |
| ReadContent.ReadFails | src/kn-diff/kn-diff/kn-diff.cpp:1101-1143 | when a read fails and with what status |
| ReadContent.ReadContent | src/user/kn-pool-diff/internal/device/device_windows.go:148-196 | the client hands on exactly what the driver read; its checks never fail |
| PoolDump.ReadPoolDump | src/user/kn-pool-diff/internal/tui/model.go:1039-1079 | the longest readable prefix of the pool up to 64 MiB, byte for byte; truncated iff shorter than the pool; every read makes progress; in any system the bytes are the concatenation of what the reads brought; the error cases |
| PoolDump.DumpContinues | src/user/kn-pool-diff/internal/tui/model.go:1052-1071 | an error or an empty answer means that nothing more is readable |
| StableSort.SortOrders | src/user/kn-pool-diff/internal/tui/model.go:1922-1924 | the sorted list is ordered |
| StableSort.SortIsStable | src/user/kn-pool-diff/internal/tui/model.go:1922-1924 | equivalent elements keep their order |
| StableSort.PromiseDeterminesResult | src/user/kn-pool-diff/internal/tui/model.go:1922-1924 | an ordered and stable result is unique, so the algorithm does not matter |
| FilterSort.EntryOrderIsStrictWeak | src/user/kn-pool-diff/internal/tui/model.go:1944-1961 | entryLess is a strict weak order in both modes |
| FilterSort.SearchOrderIsStrictWeak | src/user/kn-pool-diff/internal/tui/model.go:1963-1980 | searchResultLess is a strict weak order in both modes |
| FilterSort.TiesAgree | src/user/kn-pool-diff/internal/tui/model.go:1944-1961 | two entries tie iff they agree in address, size and tag, and by pages also in the page count |
| FilterSort.ComputeVisibleEntries | src/user/kn-pool-diff/internal/tui/model.go:1914-1927 | the filter loop and the sort give the specified list |
| FilterSort.ComputeVisibleSearch | src/user/kn-pool-diff/internal/tui/model.go:1929-1942 | the filter loop and the sort over search results give the specified list |
| FilterSort.VisibleEntriesMeaning | src/user/kn-pool-diff/internal/tui/model.go:1914-1961 | the visible entries are exactly the matching ones, as often as in the source; by address, size and tag ascending, or by pages and size descending and then address and tag; ties in source order |
| FilterSort.VisibleSearchMeaning | src/user/kn-pool-diff/internal/tui/model.go:1929-1980 | the visible search results are exactly the matching ones, as often as in the source; by address, offset and tag ascending, or by pages and pool size descending and then these; ties in source order |
| FilterSort.AnyStableSortShowsTheSame | src/user/kn-pool-diff/internal/tui/model.go:1922-1924 | any ordered and stable arrangement of the matching entries is this one |
| FilterSort.FiltersReadCounters | src/user/kn-pool-diff/internal/tui/model.go:1989-2003 | on annotated entries the filters are statements about page counts |
| FilterSort.TagStringMeaning | src/user/kn-pool-diff/internal/protocol/protocol.go:288-301 | the letters of a tag are the bytes of the number, lowest first, with a dot for what cannot be shown |
| FilterSort.MatchesTagMeaning | src/user/kn-pool-diff/internal/tui/model.go:1990-1992 | a tag passes iff the filter is empty or stands somewhere in it, regardless of case |
| FilterSort.ForeignLettersMatchNothing | src/user/kn-pool-diff/internal/tui/model.go:1990-1992 | a tag filter with a letter that has no ASCII upper case matches no tag, so the upper case of such letters does not matter |
| FilterSort.DiffKeepsBacking | src/kn-diff/kn-diff/kn-diff.cpp:883-895 | entries keep their backed flags in the diff |
| FilterSort.ResultsAreTheirEntries | src/user/kn-pool-diff/internal/device/device_windows.go:541-555 | what the client makes of a search result is the entry it was found in |
| Tui.ClampSelection | src/user/kn-pool-diff/internal/tui/model.go:2157-2168 | a cursor inside its list, unchanged if it was inside |
| Tui.FindEntryIndex | src/user/kn-pool-diff/internal/tui/model.go:2177-2184 | the first entry that contains the address, else the first |
| Tui.UpdateKeepsSafe | src/user/kn-pool-diff/internal/tui/model.go:252-785 | every key and message keeps both cursors in bounds |
| TuiTheorems.CapturesAskedFor | src/user/kn-pool-diff/internal/tui/model.go:362-380 | a baseline is captured by its key, with a driver; a current snapshot only behind a baseline |
| TuiTheorems.EntriesAskedFor | src/user/kn-pool-diff/internal/tui/model.go:381-387 | entries are fetched by a key, or by turning to a current table that is not loaded |
| TuiTheorems.SearchesAskedFor | src/user/kn-pool-diff/internal/tui/model.go:276-290 | a search is asked for exactly by entering its text, with its kind and the target selected |
| TuiTheorems.MarkedEntryAskedFor | src/user/kn-pool-diff/internal/tui/model.go:468-480 | page details and saving are asked for on the entry under the cursor of the table shown |
| TuiTheorems.DumpsAskedFor | src/user/kn-pool-diff/internal/tui/model.go:388-437 | the four ways to a dump, with entry and offset |
| TuiTheorems.NextAndBack | src/user/kn-pool-diff/internal/tui/model.go:417-437 | turning to the next page of a dump and back asks for the page one came from |
| TuiTheorems.ExitsAskedFor | src/user/kn-pool-diff/internal/tui/model.go:1389-1412 | leaving unloads the driver first with the rights for it, and otherwise ends at once; an unloaded driver ends the program |
| TuiTheorems.ServiceAndFilesAskedFor | src/user/kn-pool-diff/internal/tui/model.go:337-361 | the service is managed with rights only, and files are written from what is loaded |
| TuiTheorems.DriverIsKnownFromAnswers | src/user/kn-pool-diff/internal/tui/model.go:584-625 | what is known of the driver changes by the answers about it alone |
| TuiTheorems.InputOpensAndCloses | src/user/kn-pool-diff/internal/tui/model.go:256-298 | when a text input opens and closes |
| TuiTheorems.TargetIsToggled | src/user/kn-pool-diff/internal/tui/model.go:445-453 | the search target changes between diff and current by its key alone |
| TuiTheorems.AnswersAreShown | src/user/kn-pool-diff/internal/tui/model.go:654-684 | the lists that an answer brings become the diff list and the current list, and the table shown is made from them |
| TuiTheorems.BaselineStartsAnew | src/user/kn-pool-diff/internal/tui/model.go:636-653 | a new baseline makes lists, search and panels void |
| TuiTheorems.OnlyAnswersChangeEntries | src/user/kn-pool-diff/internal/tui/model.go:252-785 | no key and no other answer changes the loaded entries or their totals, except a stop whose reset is seen |
| TuiTheorems.SwitchTurns | src/user/kn-pool-diff/internal/tui/model.go:2033-2067 | what a filter, order or table key switches, and that no other key does |
| TuiTheorems.SwitchesTurnRound | src/user/kn-pool-diff/internal/tui/model.go:2033-2067 | three presses of a filter key and two of the other switches restore the state |
| TuiTheorems.CursorsStay | src/user/kn-pool-diff/internal/tui/model.go:454-530 | after a switch the cursors stay where they are if the list reaches so far, and else go to its last row |
| TuiTheorems.EscapeClosesInnermost | src/user/kn-pool-diff/internal/tui/model.go:1479-1512 | escape closes the dump before the page report before the search, one at a time |
| Tui.EveryRunIsSafe | src/user/kn-pool-diff/internal/tui/model.go:252-785 | every sequence of keys and messages from a new session goes through with every cursor access defined |
| Tui.CommandsActOnTheMarkedEntry | src/user/kn-pool-diff/internal/tui/model.go:388-400 | dump, page and save commands act on the marked entry, which is loaded and passes the filters |
| Tui.JumpMarksTheHit | src/user/kn-pool-diff/internal/tui/model.go:401-414 | a jump dumps the hit and marks the first visible entry that contains its pool address |
| Tui.CursorMoves | src/user/kn-pool-diff/internal/tui/model.go:319-330 | up and down reach every row, one row a key, and stop at the ends |
| Tui.ResultsCycle | src/user/kn-pool-diff/internal/tui/model.go:331-336 | stepping through the results is cyclic |

## Left out

- Driver entry, device and symbolic link creation, IRP plumbing, the dispatch table and the checks for null pointers and IRQL.
- The bodies of MmCopyMemory, of the pool allocator, of the mutexes and of the reads of CR3, CR4 and CPUID: see the modelling notes above.
- The client's service control, code signing, privileges, configuration, paths, exporter, self test and command line.
- Rendering, scrolling, log lines and the text input of the user interface; parsing of a typed search pattern.
- HandleSetHashPolicy and the hash policy lock: a scan takes the policy it finds at each entry as an argument, with the driver's bounds on the sample size.
- The counts and the ping request, which copy one value.
- The validation of a test allocation's size, tag and fill before the first quota check, and its reply.
- The trimming of a typed tag: it arrives trimmed. Of upper case only what can match a tag is modelled; the rest provably does not matter.
- SnapshotSystem.EveryRunIsSafe: a block of the step system has no unused capacity behind its entries; SnapshotStore, which is proved against the same functions, has it.
- SnapshotSize.RunsAreBounded: takes it from the kernel that the number of pools in an answer fits the buffer it was written to; the driver does not check it.
- Search.SearchResponse: the results are a sequence with a capacity instead of an array behind a header in the shared buffer.
- Memory changes inside one copy: a copy is atomic, so a byte that changes while it is copied has its value before or after.
- CompleteEntriesResponse, HandleSearchContent and the other handlers as IOCTLs: buffer sizes are those of the source, but the layout of the structures inside the buffer is not modelled.
