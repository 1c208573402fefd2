# SMAP page tracking, log ring and serializer: a verified model

SMAP finds hot pages of processes and virtual machines and hands them to a migration engine. Its drivers
reduce every question about physical memory to small numbers: the index of a page on its NUMA node, the bit
of that page in a process's bitmap, the position of a record in what user space reads. This project models
that pipeline, the protocols around it, and two pieces of the surrounding framework, and proves that each
fast or incremental computation agrees with the plain meaning it stands for.

| component | modules |
|---|---|
| page index maps of local and remote memory | `Segments`, `PageIndex`, `MergeIndex`, `AcpiMem`, `IoMem`, `Translations`, `NodeCache` |
| bitmaps, export, conversion of positions to addresses | `Bitmap`, `AccessPid`, `Export`, `PosConvert`, `Pipeline` |
| scan enable/disable protocol and admission flag | `ScanProtocol`, `ScanRounds`, `ScanEnable`, `ScanBlocking`, `AdmissionFlag`, `AdmissionCycle`, `BitmapBuffer` |
| histogram windows: plan, filter, schedule, counter update | `HistPlan`, `HotFilter`, `HistSchedule`, `CompressFreq`, `RemoteList`, `HistUpdate` |
| stage-2 page-table walk | `Stage2Walk`, `Stage2Mkold`, `Stage2Path` |
| sliding-window statistics | `SlidingWindow` |
| double-buffered log | `LogRing`, `LogBuffer`, `LogPush`, `LogMachine` |
| serializer | `Serializer`, `Accepted` |

`Arith` and `Common` hold arithmetic facts and machine constants. `dafny verify dfyconfig.toml` checks
everything.

## How to read the model

- **Page indices.** The meaning of a segment list is fixed at the byte level, where nothing is rounded:
  the bytes of a node, in address order, are numbered 0, 1, 2, ... Page indices are these numbers over the
  page size. Segment lists are ascending and disjoint. Whole pages, grouped nodes and separate local and
  remote ranges are preconditions only where the code depends on them. The exact conditions under which the
  three routes agree, for segments of any length, are theorems, and grouping is what they come to for whole
  pages.
- **End to end.** `PosConvert.ScanExportConvert` composes translation, marking, export and conversion: the
  page whose frequency is shown at a position is the page that the position converts to.
  `Pipeline.ScanExportThenConvert` says the same of the imperative operations called one after the other.
- **Protocols.** `ScanProtocol` and `AdmissionFlag` are state machines whose steps are what one thread does
  between two lock operations; theorems hold for every interleaving. `ScanRounds`, `ScanEnable` and
  `AdmissionCycle` say what the protocols deliver: the rounds of a scan, what an enable call submits, which
  operation may begin when. `ScanBlocking` says who waits for whom.
- **Log.** `LogBuffer` is the log with pushes one at a time, `LogPush` the three steps of every push, and
  `LogMachine` the two together: its runs interleave the steps of any number of producers with pops and the
  stop, and are compared with runs of `LogBuffer`.
- **Direct pass.** `HistUpdate.DirectPass` composes planning, scheduling, compression and counter update.
- **Walk.** `Stage2Walk` relates the mutually recursive walk with its shared cursor to a loop of plain
  lookups; `Stage2Mkold` derives tiling, coverage and exact access-flag clearing from the plain loop, and
  `Stage2Path` says in terms of descriptor bits where a lookup ends.
  Descriptors follow section D8.3 of the Arm Architecture Reference Manual, DDI 0487.
- **Segments of memory** come from the memory affinity structures of section 5.2.16.2 of the ACPI
  Specification; the model starts after parsing.

## What the code does not guarantee

Fourteen expected properties do not hold as they stand. Each has a counterexample lemma or a proof of the failing
half, and the condition under which the property holds.

- The local full search restarts its offset whenever the node changes, so it agrees with the known-node
  search exactly when at every segment the restart leaves out nothing, or the segment with what is left out
  still fits into one page (`AcpiMem.SearchIsIndexIff`). With whole pages that is: when every node's segments
  stand together (`AcpiMem.FullSearchAgreesIffGrouped`). The node cache is right under the same condition, and
  only if no remote address is also local (`NodeCache.CacheTransparentIff`).
- Address of an index, then index of that address, gives the index back exactly when, before the first byte of the
  page, the restart of the local search leaves out nothing (`Translations.LocalRoundTripIff`), or the rounding of
  the remote search does (`Translations.RemoteRoundTripIff`, `Translations.OddBytesBreakRoundTrip`). With whole
  pages the remote round trip always holds, and the local ones and injectivity hold exactly on grouped lists
  (`Translations.LocalForwardIffGrouped`, `Translations.LocalInjectiveIffGrouped`).
- The remote translator rounds every segment down to whole pages, so merging segments that do not hold whole
  pages can shift indices; the merge keeps every index exactly when none of its joins gains a page
  (`MergeIndex.MergeAllKeepsIndexIff`, `PageIndex.UnalignedMergeShiftsIndex`).
- A disable that returns 0 keeps scans away exactly when no enable call was under way: enable sets its flag
  outside the lock under which disable decides (`ScanProtocol.DisableHoldsIff`). The comment in
  `access_tracking_disable` considers additions of pids, not a concurrent enable.
- Enable resets the round counter of a process before it waits for the old work, so a submitted process has all
  its rounds ahead exactly when the old work ended none in between (`ScanEnable.SubmittedRounds`,
  `ScanEnable.ResetLosesRound`, `ScanEnable.ResetRaceIsReachable`).
- Enable waits for running works while it holds the read lock, and the last round of a normal scan waits for the
  write lock. An enable call can end exactly when no process it has yet to submit waits there or has begun its
  only round (`ScanBlocking.EnableEndsIff`, `ScanBlocking.DeadlockIsReachable`).
- A rejected `mem_freq` read still writes the admission flag on its way out, so exclusion and stage order
  survive a `mem_freq` read exactly when it is admitted (`AdmissionFlag.FreqReadSafeIff` for exclusion,
  `AdmissionFlag.FreqReadInOrderIff` for the order of stages).
- The statistic merge expects young addresses in ascending order, but the 2M scan collects them memslot by
  memslot. The count is right exactly when the address was above all addresses collected before it
  (`SlidingWindow.CountIsYoungIff`, `SlidingWindow.UnsortedMisses`).
- A value whose encoding ends in an empty string decodes, with nothing behind it, exactly when `memcpy_s`
  accepts a destination of no bytes (`Serializer.RoundTrip`).
- The young callback is told the flags from before the run exactly when no young and valid entry maps two blocks
  of the range (`Stage2Mkold.OldFlagsIff`, `Stage2Mkold.SharedTablesExist`), and the hole callback is told the
  leaf's part of the range exactly when the leaf starts at the cursor and ends in the range
  (`Stage2Mkold.HoleIsPartIff`).
- A position past the last set bit converts to the invalid address, except the all-ones position before the first
  hit on a node that reaches the last page of the 64-bit space (`PosConvert.AllOnesBeyond`).
- Accepted bytes are the encoding of the value returned exactly when they repeat no set element and no map key
  (`Accepted.AcceptedIsEncodingIff`).
- A walk frees the bitmap buffer after it has written the flag; the buffer is safe exactly when no bitmap read is
  admitted in between (`BitmapBuffer.BufferSafeIff`).
- A log producer overtaken by a whole ring of others between taking its index and writing can overwrite a newer
  entry (`LogPush.OvertakenWriteMisplaces`). Interleaved pushes act as sequential ones exactly when the last
  write to every slot carries the entry of the slot's newest ticket (`LogPush.PushesLinearizeIff`), and the
  consumer gets the entries of the sequential log exactly when that holds at every swap
  (`LogMachine.RefinesIff`). With at most `size` pushes between swaps it always does.

## Model

| member | source | states |
|---|---|---|
| `Segments.ByteRoundTrip` | plugins/smap/src/drivers/access_acpi_mem.c:224-297 | byte to number to byte is the identity, so the numbering of a node's bytes that both translators rest on is one to one |
| `Segments.OffsetRoundTrip` | plugins/smap/src/drivers/access_acpi_mem.c:255-297 | number to byte to number is the identity on exactly [0, bytes of the node) |
| `Segments.MergeStep` | plugins/smap/src/drivers/access_acpi_mem.c:126-149 | joining two touching segments of one node keeps the list ascending and every byte's node and number |
| `Segments.SameMapInverse` | plugins/smap/src/drivers/access_acpi_mem.c:278-297 | lists that number bytes alike also invert alike |
| `PageIndex.ForwardThenInverse` | plugins/smap/src/drivers/access_acpi_mem.c:255-297 | known-node index of an address, then address of that index, is the page-aligned address |
| `PageIndex.InverseThenForward` | plugins/smap/src/drivers/access_acpi_mem.c:255-297 | address of an index, then known-node index of that address, is the same node and index; segments need not hold whole pages |
| `PageIndex.IndexRange` | plugins/smap/src/drivers/access_acpi_mem.c:207-222 | with whole pages the indices of a node are exactly [0, page count) |
| `PageIndex.IndexInjective` | plugins/smap/src/drivers/access_acpi_mem.c:255-276 | two addresses have the same node and known-node index iff they lie in the same page |
| `PageIndex.IndexBound` | plugins/smap/src/drivers/check.h:40-51 | every index the local translation gives is below the node's rounded-up page count, whole pages or not |
| `PageIndex.WholePageIndexBound` | plugins/smap/src/drivers/access_iomem.c:187-245 | the same bound for the remote translation |
| `PageIndex.PageCeilLeast` | plugins/smap/src/drivers/check.h:40-51 | the page count of a range is the least number of pages that hold it |
| `PageIndex.TranslatorsAgree` | plugins/smap/src/drivers/access_iomem.c:211-245 | with whole pages the page-counting remote search and the byte-dividing local search give the same index |
| `PageIndex.TranslatorsAgreeIff` | plugins/smap/src/drivers/access_iomem.c:211-245 | without that condition: the remote search gives every address the byte-dividing index iff behind the odd bytes left out by rounding every segment fits into one page, or none are left out |
| `PageIndex.SameMapSameIndex` | plugins/smap/src/drivers/access_acpi_mem.c:255-297 | a merge changes neither the known-node index of an address nor the inverse translation |
| `PageIndex.UnalignedMergeShiftsIndex` | plugins/smap/src/drivers/access_iomem.c:47-70 | counterexample: without whole pages a merge changes the remote index of an address |
| `MergeIndex.MergeKeepsIndexIff` | plugins/smap/src/drivers/access_iomem.c:56-66 | one join of two remote segments keeps the page index of every address iff the odd bytes of the left one and the right one make up no new page, in the right one or before a later segment of the node |
| `MergeIndex.MergeShifts` | plugins/smap/src/drivers/access_iomem.c:211-245 | how far a join moves the index of each address |
| `MergeIndex.MergeAllKeepsIndexIff` | plugins/smap/src/drivers/access_iomem.c:47-70 | the whole merge loop keeps the remote index of every address iff none of its joins gains a page; shifts never cancel |
| `MergeIndex.WholePagesNeverGain` | plugins/smap/src/drivers/access_iomem.c:47-70 | with whole pages no join of the loop gains a page |
| `MergeIndex.MergeKeepsTranslations` | plugins/smap/src/drivers/access_iomem.c:211-295 | with whole pages the merge changes the forward translation of no address; the inverse it never changes |
| `AcpiMem.SearchIsIndexIff` | plugins/smap/src/drivers/access_acpi_mem.c:224-276 | the full search, which restarts its offset on a node change, agrees with the known-node search for every address iff at every segment the restart leaves out no byte of the node, or the segment with the bytes left out still fits into the page it starts in; any ascending list |
| `AcpiMem.RestartsFitIffGrouped` | plugins/smap/src/drivers/access_acpi_mem.c:224-253 | with whole pages that condition says that each node's segments stand together |
| `AcpiMem.FullSearchAgreesIffGrouped` | plugins/smap/src/drivers/access_acpi_mem.c:224-276 | with whole pages the two searches agree for every address iff each node's segments stand together |
| `AcpiMem.UngroupedCanAgree` | plugins/smap/src/drivers/access_acpi_mem.c:224-276 | without whole pages they can agree on an ungrouped list |
| `AcpiMem.FullSearchGrouped` | plugins/smap/src/drivers/access_acpi_mem.c:224-253 | on a grouped list the full search is the page index for every address, whole pages or not |
| `AcpiMem.FullSearchBound` | plugins/smap/src/drivers/access_acpi_mem.c:224-253 | the full search never leaves the node's page count, grouped or not |
| `AcpiMem.FindSlot` | plugins/smap/src/drivers/access_acpi_mem.c:75-86 | the reverse scan finds the place with all lower starts before it and no other, for segments that overlap too |
| `AcpiMem.LocalMemory.Insert` | plugins/smap/src/drivers/access_acpi_mem.c:34-90 | linking any segment keeps the order of starts, adds exactly that segment at its place and raises the node count; a segment that overlaps none keeps the list ascending and disjoint |
| `AcpiMem.MergeKeepsSearch` | plugins/smap/src/drivers/access_acpi_mem.c:126-149 | a join changes no result of the full search, for any ascending list and any page size |
| `AcpiMem.MergeKeepsGrouped` | plugins/smap/src/drivers/access_acpi_mem.c:126-149 | nor whether the nodes stand together |
| `AcpiMem.LocalMemory.MergeSegments` | plugins/smap/src/drivers/access_acpi_mem.c:126-149 | the in-place merge keeps every byte's node and number, every result of the full search, grouping and whole pages, and leaves no two touching neighbours of one node |
| `AcpiMem.LocalMemory.IsPaddrLocal` | plugins/smap/src/drivers/access_acpi_mem.c:24-32 | true iff some segment covers the address |
| `AcpiMem.LocalMemory.GetNodeActcLen` | plugins/smap/src/drivers/access_acpi_mem.c:207-222 | sum of the rounded-up pages of the node's segments for 4K and 2M pages, 0 for other page sizes |
| `AcpiMem.LocalMemory.CalcPaddrAcidx` | plugins/smap/src/drivers/access_acpi_mem.c:224-253 | the loop computes the full search: node and restarted offset over the page size, or failure iff no segment covers the address |
| `AcpiMem.LocalMemory.CalcPaddrAcidxKnownNid` | plugins/smap/src/drivers/access_acpi_mem.c:255-276 | succeeds iff the address is on the node, with the node's page index |
| `AcpiMem.LocalMemory.CalcAcidxPaddr` | plugins/smap/src/drivers/access_acpi_mem.c:278-297 | the inverse translation, including the 64-bit wrap of the shifted index |
| `AcpiMem.WalkToByte` | plugins/smap/src/drivers/access_iomem.c:273-295 | the subtracting walk finds the byte with the given number on the node, or nothing iff there is none |
| `IoMem.MergeRamSegments` | plugins/smap/src/drivers/access_iomem.c:47-70 | merging the walked list keeps order, nodes, byte numbers and whole pages, leaves no two touching neighbours of one node, and keeps every remote index iff no join gains a page |
| `IoMem.RemoteMemory.RefreshRemoteRam` | plugins/smap/src/drivers/access_iomem.c:154-168 | the refreshed list means the same as the walked one, byte by byte, and page by page iff no join gains a page |
| `IoMem.RemoteMemory.GetNodePageCnt` | plugins/smap/src/drivers/access_iomem.c:187-208 | rounded-up pages of a remote node; 0 for local nodes and other page sizes |
| `IoMem.RemoteMemory.CalcPaddrAcidx` | plugins/smap/src/drivers/access_iomem.c:211-245 | whole pages of the node before the address; fails iff the address is uncovered or a node out of range is met on the way |
| `IoMem.RemoteMemory.CalcPaddrAcidxKnownNid` | plugins/smap/src/drivers/access_iomem.c:247-271 | succeeds iff the address is on the node, with the index of the full search |
| `IoMem.RemoteMemory.CalcAcidxPaddr` | plugins/smap/src/drivers/access_iomem.c:273-295 | the inverse translation, including the 64-bit wrap of the shifted index |
| `Translations.LocalForwardThenInverse` | plugins/smap/src/drivers/access_acpi_mem.c:224-297 | full search of an address, then address of the index, is the page-aligned address |
| `Translations.LocalInverseThenForward` | plugins/smap/src/drivers/access_acpi_mem.c:224-297 | address of an index, then full search, is the same node and index, whole pages or not, when the restarts fit |
| `Translations.LocalRoundTripIff` | plugins/smap/src/drivers/access_acpi_mem.c:224-297 | index by index, for segments of any length: it is the same index iff the restart before the page's first byte leaves out nothing |
| `Translations.LocalForwardIffGrouped` | plugins/smap/src/drivers/access_acpi_mem.c:224-297 | with whole pages every address comes back to its page iff the list is grouped |
| `Translations.LocalInjective` | plugins/smap/src/drivers/access_acpi_mem.c:224-253 | equal results of the full search mean the same page |
| `Translations.LocalInjectiveIffGrouped` | plugins/smap/src/drivers/access_acpi_mem.c:224-253 | with whole pages the full search tells all pages of a node apart iff the list is grouped |
| `Translations.LocalRange` | plugins/smap/src/drivers/access_acpi_mem.c:207-253 | the indices the full search gives on a node are exactly [0, page count) |
| `Translations.UngroupedNotInjective` | plugins/smap/src/drivers/access_acpi_mem.c:224-253 | counterexample: on an ungrouped list two pages of a node share an index |
| `Translations.RemoteForwardThenInverse` | plugins/smap/src/drivers/access_iomem.c:211-295 | remote index of an address, then address of the index, is the page-aligned address |
| `Translations.RemoteInverseThenForward` | plugins/smap/src/drivers/access_iomem.c:211-295 | address of an index, then remote index, is the same node and index, when odd bytes do not make themselves felt |
| `Translations.RemoteRoundTripIff` | plugins/smap/src/drivers/access_iomem.c:211-295 | index by index, for segments of any length: it is the same index iff rounding left out nothing before the page's first byte |
| `Translations.RemoteInjective` | plugins/smap/src/drivers/access_iomem.c:211-245 | equal remote indices mean the same page |
| `Translations.RemoteRange` | plugins/smap/src/drivers/access_iomem.c:187-245 | the indices the remote search gives on a node are exactly [0, page count) |
| `Translations.OddBytesBreakRoundTrip` | plugins/smap/src/drivers/access_iomem.c:211-295 | counterexample: with odd bytes the address of an index has another remote index |
| `NodeCache.RunIsUncached` | plugins/smap/src/drivers/accessed_bit.c:1438-1503 | for every batch of addresses and every starting node, the cached lookup gives the node and index of the uncached search |
| `NodeCache.CacheTransparentIff` | plugins/smap/src/drivers/accessed_bit.c:1438-1503 | the cache changes no result, for any start and any addresses, iff every restart of the local search fits and no remote address is also local; segments of any length |
| `NodeCache.CacheTransparentIffGrouped` | plugins/smap/src/drivers/accessed_bit.c:1438-1503 | with whole pages: iff local nodes are grouped and no remote address is also local |
| `NodeCache.LookupCached` | plugins/smap/src/drivers/accessed_bit.c:1472-1487 | one address: the lookup on the cached node, then both lists |
| `NodeCache.ProcessScanResults` | plugins/smap/src/drivers/accessed_bit.c:1451-1503 | the batch loop returns the uncached node and index of every address |
| `Bitmap.SelectRank` | plugins/smap/src/drivers/access_pid.c:247-311 | a set bit stands in the list of set bits at its rank |
| `Bitmap.RankSelect` | plugins/smap/src/drivers/access_pid.c:1303-1335 | the k-th entry of the list of set bits is a set bit of rank k |
| `Bitmap.SetOne` | plugins/smap/src/drivers/access_mmu.c:63-125 | setting a clear bit adds one to the number of set bits |
| `AccessPid.MarkKeeps` | plugins/smap/src/drivers/access_mmu.c:63-125 | an addition keeps page_num equal to the number of set bits, tracks exactly one page more, and white-lists it iff asked to |
| `AccessPid.ScanTracks` | plugins/smap/src/drivers/access_mmu.c:63-194 | after any sequence of additions from a prepared process the counts match the bitmaps, every tracked page is below its node's page count, the tracked pages are exactly the added ones and the white list exactly those added as white |
| `AccessPid.UncachedBound` | plugins/smap/src/drivers/access_mmu.c:55-61 | every index a scan computes is below its node's current page count, even when segments do not hold whole pages |
| `AccessPid.NodePosRoundTrip` | plugins/smap/src/drivers/access_acpi_mem.h:35-48 | nodes and bits of the process mask name each other; local nodes keep their number, remote ones lie behind the local range |
| `AccessPid.Process.WalkPagemapPrepare` | plugins/smap/src/drivers/access_pid.c:1187-1280 | preparation gives clear bitmaps with room for every page of every node |
| `AccessPid.Process.AddToBmPageFast` | plugins/smap/src/drivers/access_mmu.c:102-125 | status and new bitmaps of an addition with known node and index, for every failure order |
| `AccessPid.Process.AddToBmPage` | plugins/smap/src/drivers/access_mmu.c:73-100 | translates, checks and marks; in a scan with current page counts the bitmaps stay in range |
| `AccessPid.Process.AddToBmHugepage` | plugins/smap/src/drivers/access_mmu.c:170-194 | the same for huge pages, which are never white-listed |
| `AccessPid.Translate` | plugins/smap/src/drivers/access_mmu.c:55-61 | local addresses go through the ACPI list and all others through the remote list |
| `Export.FillActcDataByBitmap` | plugins/smap/src/drivers/access_pid.c:247-311 | record k of a node belongs to the k-th set bit and carries that page's counter on the node's device, its white-list bit and its priority; the number of records and the untouched rest of the buffer are exact |
| `Export.FindDev` | plugins/smap/src/drivers/access_pid.c:260-268 | the device search finds the first device of the node, and nothing iff no device has that node |
| `Export.FindDevIs` | plugins/smap/src/drivers/access_pid.c:260-268 | whichever device is the first of the node is the one found |
| `Export.RecordFields` | plugins/smap/src/drivers/access_pid.c:286-305 | a record is the device's counter, the white-list bit and the low six bits of the mapping entry, 0 where the mapping ends |
| `Export.FillPidActcData` | plugins/smap/src/drivers/access_pid.c:321-334 | every node's records lie at the sum of the page counts before it |
| `Export.ExportIsComplete` | plugins/smap/src/drivers/access_pid.c:273-281 | with a counter for every tracked page the over-range exit is not taken: as many records as page_num |
| `PosConvert.CalcAbsolutePos` | plugins/smap/src/drivers/access_pid.c:1303-1335 | the resumed scan finds the bit that a scan from the start finds for position k, from the all-ones start and for repeated positions too |
| `PosConvert.ConvertSingleAddress` | plugins/smap/src/drivers/access_pid.c:1354-1386 | one position converts to the address of its page or to the invalid address, the all-ones start position as it stands, and the resume state stays usable |
| `PosConvert.ConvertPosToPaddrSorted` | plugins/smap/src/drivers/access_pid.c:1389-1433 | in place, every position becomes the address of its page, or the invalid address past the last set bit; a position that follows a larger valid one becomes invalid; the all-ones position before the first hit is translated as it stands |
| `PosConvert.SortedNotOvertaken` | plugins/smap/src/drivers/access_pid.c:1389-1433 | ascending positions, repeated or not, are never rejected for their order |
| `PosConvert.AllOnesBeyond` | plugins/smap/src/drivers/access_pid.c:1354-1386 | the all-ones start position converts to nothing iff the node does not reach the last page of the 64-bit space |
| `PosConvert.ConvertedIsTarget` | plugins/smap/src/drivers/access_pid.c:1354-1386 | so every position converts to its own page, except the all-ones one on a node that reaches so far |
| `PosConvert.ShownIsMigrated` | plugins/smap/src/drivers/access_pid.c:247-334 | for every tracked page the record at its rank carries the counter at the page's index on the first device of the node, the page's white-list bit and priority, and the rank converts back to its aligned address |
| `PosConvert.PositionsAreDistinctPages` | plugins/smap/src/drivers/access_pid.c:1389-1433 | different positions of a node convert to different pages of that node |
| `PosConvert.ScanExportConvert` | plugins/smap/src/drivers/access_pid.c:1354-1433 | end to end: any address scanned after a prepare is exported at one position with the counter of its page on its own node's device, and converting that position gives the page back |
| `Pipeline.ScanAll` | plugins/smap/src/drivers/accessed_bit.c:1451-1503 | the 4K scan, cached lookup then fast addition: accepted are exactly the addresses on a node of the mask whose page exists, the tracked pages are exactly theirs, and white are those of white addresses |
| `Pipeline.ScanAllHuge` | plugins/smap/src/drivers/access_mmu.c:170-194 | the huge-page scan: the same, with nothing white |
| `Pipeline.PlaceOnMask` | plugins/smap/src/drivers/access_mmu.c:55-116 | a translated address passes the mask test iff a segment that covers it, a local one first, belongs to a node of the mask |
| `Pipeline.ExportThenConvert` | plugins/smap/src/drivers/access_pid.c:321-334 | after either scan, every accepted address of a node is delivered at a position whose record carries its page's counter, white-list bit and the priority at the record's own place in the mapping, and which converts to its page; every position delivers an accepted address, and different positions are different pages |
| `Pipeline.ScanExportThenConvert` | plugins/smap/src/drivers/access_pid.c:1389-1433 | the running 4K pipeline, from scan results to converted positions, accepts exactly the addresses covered by a node of the mask whose page exists, and delivers every one of them and nothing else |
| `Pipeline.HugeScanExportThenConvert` | plugins/smap/src/drivers/access_pid.c:1389-1433 | the running huge-page pipeline does too; every covered address is accepted |
| `ScanProtocol.StepKeepsBase` | plugins/smap/src/drivers/access_tracking.c:513-580 | every step of every thread keeps the listed pids distinct and every signalled completion free of queued or running work |
| `ScanProtocol.StepKeepsInv` | plugins/smap/src/drivers/access_tracking.c:286-343 | every step keeps the disabled state quiet, unless a disable takes effect under an enable call |
| `ScanProtocol.MoveKeeps` | plugins/smap/src/drivers/access_pid.c:946-990 | moving built entries to the list keeps pids distinct and queues nothing while scanning is off |
| `ScanProtocol.BuildDistinct` | plugins/smap/src/drivers/access_pid.c:992-1044 | an accepted payload names no pid twice |
| `ScanProtocol.PidsStayDistinct` | plugins/smap/src/drivers/access_pid.c:946-1044 | listed pids are pairwise distinct in every interleaving |
| `ScanProtocol.DisableQuiesces` | plugins/smap/src/drivers/access_tracking.c:305-343 | in every interleaving, once disable returned 0 with no enable call under way, no listed pid has a queued or running scan and none gets one until the next enable |
| `ScanProtocol.EnableOvertakes` | plugins/smap/src/drivers/access_tracking.c:176-189 | an enable call that has only set the flag goes on to queue work after a disable |
| `ScanProtocol.DisableHoldsIff` | plugins/smap/src/drivers/access_tracking.c:286-343 | a disable that returned 0 holds until the next enable iff no enable call was under way |
| `ScanRounds.RoundEnds` | plugins/smap/src/drivers/access_tracking.c:563-579 | a round that ends counts as one and signals completion iff the rounds asked for are over; otherwise the next one is queued |
| `ScanRounds.SignalsAfterRounds` | plugins/smap/src/drivers/access_tracking.c:513-580 | in every interleaving a queued work that is left alone signals after exactly max(1, ntimes - cur) rounds, not before and not later; where it is after each of its steps |
| `ScanRounds.BuildIs` | plugins/smap/src/drivers/access_pid.c:992-1044 | a payload is accepted iff no pid is kept twice, and the entries added are exactly those with a pid that do not repeat a listed process |
| `ScanRounds.MoveIs` | plugins/smap/src/drivers/access_pid.c:946-990 | listed processes of the payload take over its parameters and keep work and rounds, the others stay, and what is appended is exactly the new ones, queued or complete as scanning is on or off |
| `ScanEnable.HeldStep` | plugins/smap/src/drivers/access_tracking.c:176-189 | while an enable call holds the lock no step changes which processes are listed, and only the call moves on in the list |
| `ScanEnable.SubmitsEachOnce` | plugins/smap/src/drivers/access_tracking.c:176-189 | in every interleaving an enable call has submitted every listed process exactly once when it gives the lock up |
| `ScanEnable.EnableQueuesAll` | plugins/smap/src/drivers/access_tracking.c:163-189 | a whole enable call while no work runs leaves every process queued with all its rounds ahead, and is over |
| `ScanEnable.AddMovesKept` | plugins/smap/src/drivers/access_pid.c:992-1044 | a whole add call while no reader is in moves the kept entries to the list, or changes nothing |
| `ScanEnable.SubmittedRounds` | plugins/smap/src/drivers/access_tracking.c:163-189 | in every interleaving a process that is reset and then submitted has behind it the rounds that its old work ended in between; all its rounds are ahead iff there were none |
| `ScanEnable.ResetLosesRound` | plugins/smap/src/drivers/access_tracking.c:183-187 | a work in its last step when its process is reset makes the process start with one round already counted |
| `ScanEnable.ResetRaceIsReachable` | plugins/smap/src/drivers/access_tracking.c:163-189 | a run that leads there |
| `ScanBlocking.WorkWaitsIff` | plugins/smap/src/drivers/access_tracking.c:541-548 | a work on its way is held up iff it is before the write lock of its last round and a reader is in |
| `ScanBlocking.ReaderKeepsOut` | plugins/smap/src/drivers/access_tracking.c:327-340 | while a reader is in, no disable, addition or removal takes effect |
| `ScanBlocking.RunningIsNotFreed` | plugins/smap/src/drivers/access_pid.c:1090-1114 | a process goes away only when its work is off its thread |
| `ScanBlocking.RemovedIs` | plugins/smap/src/drivers/access_pid.c:1090-1114 | a removed process is no longer listed, and all others still are |
| `ScanBlocking.DeadlockIsForever` | plugins/smap/src/drivers/access_tracking.c:79-83 | an enable call that has yet to submit a process whose work waits for the write lock never ends, in any continuation |
| `ScanBlocking.EnableEndsIff` | plugins/smap/src/drivers/access_tracking.c:163-189 | an enable call can come to its end iff no process it has yet to submit waits for the write lock or has begun the only round of a normal scan |
| `ScanBlocking.DeadlockIsReachable` | plugins/smap/src/drivers/access_tracking.c:513-548 | a run that leads to such a state |
| `AdmissionFlag.RunIsGood` | plugins/smap/src/drivers/access_pid.h:147-166 | in every run without a rejected mem_freq read the flag, the thread inside and the stage reached fit together |
| `AdmissionFlag.CleanRunsAreOrdered` | plugins/smap/src/drivers/access_pid.c:1341-1433 | in such runs at most one operation is between check and write, and a conversion is admitted only after a completed bitmap read and then a successful mem_freq read that followed the latest walk |
| `AdmissionCycle.AdmittedIff` | plugins/smap/src/drivers/access_ioctl.c:548-567 | in every such run, whenever nobody is inside: a walk may always begin, a bitmap read after a successful walk or a partial read, a mem_freq read after a completed bitmap read, a conversion after a successful mem_freq read or a conversion; mem_freq reads and conversions leave both reads open, however they end; before any operation has ended only a walk may |
| `AdmissionCycle.CycleIsAdmitted` | plugins/smap/src/drivers/access_pid.c:352-404 | from every such state a walk, a bitmap read in any number of parts, a mem_freq read and a conversion, by any threads, are all admitted, and again after that |
| `AdmissionFlag.FreqReadSafeIff` | plugins/smap/src/drivers/access_pid.c:346-405 | from any state of such a run, a mem_freq read keeps exclusion for good iff it is admitted |
| `AdmissionFlag.FreqReadOrderIff` | plugins/smap/src/drivers/access_pid.c:346-405 | from any state of such a run, a mem_freq read keeps conversions for good in the last stage only iff it is admitted |
| `AdmissionFlag.FreqDoneIff` | plugins/smap/src/drivers/access_pid.c:346-405 | the last stage is reached iff a completed bitmap read and then a successful mem_freq read followed the latest walk |
| `AdmissionFlag.FreqReadInOrderIff` | plugins/smap/src/drivers/access_pid.c:346-405 | after any such run, every later conversion follows walk, completed bitmap read and successful mem_freq read in that order iff the mem_freq read at hand is admitted |
| `AdmissionFlag.RejectionBreaksExclusion` | plugins/smap/src/drivers/access_pid.c:346-405 | a rejected mem_freq read overwrites the flag, after which two walks can be inside together |
| `AdmissionFlag.RejectionSkipsStages` | plugins/smap/src/drivers/access_pid.c:346-405 | counterexample: one rejected and one admitted mem_freq read let a conversion in without any walk or bitmap read |
| `BitmapBuffer.BufferSafeIff` | plugins/smap/src/drivers/access_ioctl.c:264-282 | a walk frees the bitmap buffer after it has written the flag: in every run without a rejected mem_freq read, no bitmap read is inside while the buffer is being freed iff none is admitted between the two |
| `BitmapBuffer.WalkLeavesGap` | plugins/smap/src/drivers/access_ioctl.c:264-282 | the gap is there after every successful walk |
| `BitmapBuffer.FreesAfterWalk` | plugins/smap/src/drivers/access_ioctl.c:264-282 | in every run a thread is to free the buffer exactly after a successful walk of its own, and begins nothing before it has |
| `HistPlan.GetHistAddrShift` | plugins/smap/src/drivers/hist_ops.c:249-259 | the shift loop returns the exponent of the window size |
| `HistPlan.CalcBaTagIs` | plugins/smap/src/drivers/hist_ops.c:268-288 | the tag is that of the first BA with the address in one of its two ranges, and there is none iff no BA has it |
| `HistPlan.WindowSizesArePowers` | plugins/smap/src/drivers/hist_ops.c:239-247 | all window sizes are powers of two |
| `HistPlan.MergeApart` | plugins/smap/src/drivers/hist_ops.c:351-409 | merged segments are more than one window apart and end where the input ends |
| `HistPlan.MergeTouches` | plugins/smap/src/drivers/hist_ops.c:391-409 | merging adds no window and drops none |
| `HistPlan.MergeSegments` | plugins/smap/src/drivers/hist_ops.c:391-409 | the in-place merge leaves the merged list in front and never overwrites an unread segment |
| `HistPlan.CountNrWindows` | plugins/smap/src/drivers/hist_ops.c:362-376 | the number of windows from first to last byte of every segment |
| `HistPlan.AlignSegments` | plugins/smap/src/drivers/hist_ops.c:378-389 | every segment is rounded out to whole windows |
| `HistPlan.AlignedWindows` | plugins/smap/src/drivers/hist_ops.c:378-389 | aligning changes no window and no window count |
| `HistPlan.CutOne` | plugins/smap/src/drivers/hist_ops.c:460-487 | one segment is cut into its windows; the cut fails iff the buffer is too small, and the remaining size never underflows |
| `HistPlan.CutIntoScanWins` | plugins/smap/src/drivers/hist_ops.c:460-487 | all segments are cut into their windows; fails iff there is nothing to cut or the buffer is too small |
| `HistPlan.GenerateAlignedScanWins` | plugins/smap/src/drivers/hist_ops.c:497-536 | the plan is exactly the ascending, disjoint, aligned windows that touch a segment, each tagged with the first BA that has its start in range, as many as were counted; it fails iff there are no segments |
| `HistPlan.PlanCovers` | plugins/smap/src/drivers/hist_ops.c:497-536 | every byte of every segment lies in a planned window |
| `HotFilter.FilterHotWins` | plugins/smap/src/drivers/hist_ops.c:544-590 | the in-place filter terminates and leaves exactly the kept windows in front, in order; it fails iff there is no window or nothing to keep |
| `HotFilter.FilterLoop` | plugins/smap/src/drivers/hist_ops.c:544-590 | the loop, some of whose iterations do not advance, ends and writes only behind what it has read |
| `HotFilter.KeptPerTag` | plugins/smap/src/drivers/hist_ops.c:544-590 | for every tag exactly min(k, group size) windows are kept |
| `HotFilter.DroppedIsColder` | plugins/smap/src/drivers/hist_ops.c:333-344 | a dropped window comes after, and is no hotter than, any kept window of its tag |
| `HotFilter.KeptIsThere` | plugins/smap/src/drivers/hist_ops.c:544-590 | every window among the first k of its tag is in the result |
| `HistSchedule.PickOneSeg` | plugins/smap/src/drivers/hist_ops.c:849-865 | picks the next window of the tag after the offset; in loop mode an exhausted search starts over |
| `HistSchedule.PickRound` | plugins/smap/src/drivers/hist_ops.c:919-992 | one round picks at most one window per BA, the r-th of each |
| `HistSchedule.WhenComplete` | plugins/smap/src/drivers/hist_ops.c:867-875 | the pass is complete iff no BA has a window for the next round, and until then rounds are fewer than windows |
| `HistSchedule.ReadParal` | plugins/smap/src/drivers/hist_ops.c:895-997 | the outer loop ends, and round r submits the r-th window of every BA that has one |
| `HistSchedule.ExactlyOnce` | plugins/smap/src/drivers/hist_ops.c:895-997 | every window whose tag belongs to a BA is submitted exactly once, in the round of its rank among its BA's windows |
| `HistSchedule.ScanOrder` | plugins/smap/src/drivers/hist_ops.c:895-997 | a pass reads the results of every window exactly once |
| `HistSchedule.LoopIsCyclic` | plugins/smap/src/drivers/hist_ops.c:849-865 | in loop mode a BA cycles through its own windows in index order from wherever it resumes |
| `HistSchedule.LoopVisitsEach` | plugins/smap/src/drivers/hist_ops.c:849-865 | any as many successive scans as the BA has windows include each of them |
| `HistSchedule.LoopVisitsOnce` | plugins/smap/src/drivers/hist_ops.c:849-865 | and none twice: between two scans of a window every other window of the BA is scanned once |
| `CompressFreq.Compress` | plugins/smap/src/drivers/drv_common.h:25-36 | the bitwise loop returns the integer square root, which fits eight bits |
| `CompressFreq.ISqrtUnique` | plugins/smap/src/drivers/drv_common.h:25-36 | r*r <= n < (r+1)*(r+1) determines r |
| `HistUpdate.HistDevs.DoActcUpdate` | plugins/smap/src/drivers/hist_ops.c:656-670 | every page of the range has the rounded-down square root of its own count added, stopping at 255, and no other counter changes |
| `HistUpdate.BumpedAdds` | plugins/smap/src/drivers/hist_ops.c:656-670 | the same page by page: the new counter is old plus root when that is at most 255 and 255 otherwise, and never below the old one |
| `HistUpdate.HistDevs.UpdateSeg` | plugins/smap/src/drivers/hist_ops.c:689-746 | one segment against one window: which counters get which samples, and the page count carried to the next segment |
| `HistUpdate.NeverExceeds` | plugins/smap/src/drivers/hist_ops.c:725-737 | the counters that a segment and a window name never exceed the node's rounded-up page count, whole pages or not |
| `HistUpdate.EffectIs` | plugins/smap/src/drivers/hist_ops.c:689-746 | with a counter for every page the buffer-exceeded branch is not taken, for any segment lengths and any window of whole samples |
| `HistUpdate.HistDevs.UpdateActcDirect` | plugins/smap/src/drivers/hist_ops.c:689-746 | one window: every page in it gets its own sample and no other page changes |
| `HistUpdate.PageIsThere` | plugins/smap/src/drivers/access_iomem.c:211-245 | the counter index of a page is the index the remote translation gives for the page's address |
| `HistUpdate.ScanWindows` | plugins/smap/src/drivers/hist_ops.c:895-997 | after the first x windows of the schedule exactly the pages in them have one sample more |
| `RemoteList.RemoteNumbers` | plugins/smap/src/drivers/hist_ops.c:1229-1278 | leaving out the segments of local nodes changes no byte or page number of a remote node |
| `RemoteList.RemoteIndex` | plugins/smap/src/drivers/hist_ops.c:1229-1278 | nor the remote index of an address on one |
| `HistUpdate.DirectPass` | plugins/smap/src/drivers/hist_ops.c:895-997 | one pass that is not aborted: every remote page's counter, at the index that the remote translation of the whole list gives, is old + r when that is at most 255 and 255 otherwise, with r*r <= count < (r+1)*(r+1), and is not below the old one |
| `Stage2Walk.Walker.RangeWalker` | plugins/smap/src/drivers/kvm_pgtable.c:372-414 | the leaf callback reports the flags it saw, or the hole [addr, addr + granule) above the last two levels, and clears the access flag of a young and valid entry of the last two levels |
| `Stage2Walk.Walker.VisitLeaf` | plugins/smap/src/drivers/kvm_pgtable.c:101-164 | the callback, then the cursor moves to the end of the granule |
| `Stage2Walk.Walker.VisitEntry` | plugins/smap/src/drivers/kvm_pgtable.c:101-164 | one entry: a leaf is visited, a table is walked; the leaves visited are those a plain top-down lookup finds one after the other |
| `Stage2Walk.Walker.WalkTable` | plugins/smap/src/drivers/kvm_pgtable.c:166-192 | the mutually recursive walk of a table terminates and visits exactly the leaves of the plain walk up to the end of the table or of the range |
| `Stage2Walk.WalkPgTable` | plugins/smap/src/drivers/kvm_pgtable.c:202-225 | the whole walk is the plain walk from the top, and its error returns are exact |
| `Stage2Mkold.Tiles` | plugins/smap/src/drivers/kvm_pgtable.c:101-192 | each visited leaf starts at the previous address rounded down to its granule plus that granule, and is what a lookup of its address finds |
| `Stage2Mkold.Covers` | plugins/smap/src/drivers/kvm_pgtable.c:166-225 | every address of the range lies in a visited leaf, the one that a top-down lookup of the address finds |
| `Stage2Mkold.CoversOnce` | plugins/smap/src/drivers/kvm_pgtable.c:166-225 | and in one visited leaf only |
| `Stage2Mkold.MkoldExact` | plugins/smap/src/drivers/kvm_pgtable.c:372-414 | after a run an entry has lost its access flag iff it is a valid leaf of the last two levels that maps an address of the range; no other bit anywhere changes |
| `Stage2Mkold.ReportedFlag` | plugins/smap/src/drivers/kvm_pgtable.c:372-414 | a visit reports the old flag, cleared if an earlier visit of the run reached the same entry |
| `Stage2Mkold.VisitedTwiceIff` | plugins/smap/src/drivers/kvm_pgtable.c:372-414 | an entry of the last two levels is visited twice iff it maps two blocks of the range |
| `Stage2Mkold.OldFlagsIff` | plugins/smap/src/drivers/kvm_pgtable.c:372-414 | every visit reports the flags from before the run iff no young and valid entry maps two blocks of the range; every entry is visited at most once iff none does |
| `Stage2Mkold.SharedTablesExist` | plugins/smap/src/drivers/kvm_pgtable.c:372-414 | a concrete memory in which a young and valid entry maps two blocks of a range |
| `Stage2Mkold.HoleIsPartIff` | plugins/smap/src/drivers/kvm_pgtable.c:383-391 | the hole handed to the callback is the leaf's part of the range iff the cursor stands at the start of the leaf and the leaf ends in the range |
| `Stage2Mkold.SecondRunIsOld` | plugins/smap/src/drivers/kvm_pgtable.c:416-434 | an immediate second run over the range finds no valid leaf young |
| `Stage2Mkold.MkoldTwice` | plugins/smap/src/drivers/kvm_pgtable.c:416-434 | two runs: the second reports no valid leaf young, and the memory is as after one run |
| `Stage2Mkold.RangeEndIff` | plugins/smap/src/drivers/kvm_pgtable.c:227-247 | the walk runs to the page-rounded end unless that end leaves 64 bits; then the range is empty |
| `Stage2Mkold.MkoldRange` | plugins/smap/src/drivers/kvm_pgtable.c:416-434 | status, and on success exact clearing over the whole rounded range |
| `Stage2Path.TranslatesIff` | plugins/smap/src/drivers/kvm_pgtable.c:41-59 | the lookup that the walk is proved against ends exactly where the chain of tables does: every entry passed is above the last level, valid and has bit 1 set, and the last one is not |
| `Stage2Path.LookupPath` | plugins/smap/src/drivers/kvm_pgtable.c:41-59 | from any table the lookup follows such a chain |
| `Stage2Path.PathLookup` | plugins/smap/src/drivers/kvm_pgtable.c:101-164 | there is no other chain |
| `Stage2Path.TranslatesRangeIff` | plugins/smap/src/drivers/kvm_pgtable.c:372-414 | an entry maps an address of the range iff a chain from the top leads there at one of the last two levels |
| `Stage2Path.MkoldTranslated` | plugins/smap/src/drivers/kvm_pgtable.c:416-434 | through the entry point: exactly the valid entries of the last two levels at the end of a chain from an address of the range lose their flag, nothing else changes, and every address lies in a visited granule whose entry its own chain ends at |
| `SlidingWindow.SplitByLevel` | plugins/smap/src/drivers/accessed_bit.c:875-891 | a vector sorted by hva_cmp with distinct addresses splits at the local page count into two strictly ascending arrays |
| `SlidingWindow.MarkLevel` | plugins/smap/src/drivers/accessed_bit.c:645-695 | the two-pointer merge marks exactly the tracked addresses that it sees, for young addresses in any order |
| `SlidingWindow.SortedSeesAll` | plugins/smap/src/drivers/accessed_bit.c:645-695 | in an ascending list every young address is seen, so the merge marks exactly the common addresses |
| `SlidingWindow.Tracking.Scan` | plugins/smap/src/drivers/accessed_bit.c:626-709 | clear, mark, advance: the ring keeps the marks of the last window_num scans and every column adds up to the number of those that saw the address |
| `SlidingWindow.ScanKeepsRing` | plugins/smap/src/drivers/accessed_bit.c:697-709 | the ring holds the last scans, each in the slot of its number |
| `SlidingWindow.ScanKeepsAdds` | plugins/smap/src/drivers/accessed_bit.c:626-709 | overwriting the oldest window keeps the column sums equal to the count over the last min(n, window_num) scans |
| `SlidingWindow.CountIsYoungIff` | plugins/smap/src/drivers/accessed_bit.c:645-695 | that count is the number of scans in which the address was young iff it was above every address collected before it whenever it was young |
| `SlidingWindow.CountSorted` | plugins/smap/src/drivers/accessed_bit.c:645-695 | with ascending scans it always is |
| `SlidingWindow.ReportIsYoungIff` | plugins/smap/src/drivers/access_ioctl.c:397-424 | with fewer than 2^16 windows the 16-bit report equals the number of young scans iff each of them saw the address |
| `SlidingWindow.UnsortedMisses` | plugins/smap/src/drivers/accessed_bit.c:722-748 | counterexample: collected out of order, a young page is missed |
| `SlidingWindow.Tracking.UpdateTrackingData` | plugins/smap/src/drivers/access_ioctl.c:397-424 | the chunked 16-bit sum equals the plain sum of the windows for every page of the clipped length, and touches nothing else |
| `SlidingWindow.Tracking.GetTracking` | plugins/smap/src/drivers/access_ioctl.c:426-472 | each page is reported with the number of the last min(n, window_num) scans that saw it, modulo 2^16; below 2^16 windows that is the number in which it was young iff it was seen whenever it was young |
| `LogRing.PushKeeps` | src/log/rack_logger_ringbuffer.cpp:54-68 | a push appends and drops the oldest entry of a full ring, across the 32-bit wrap of the index when the size divides 2^32, and before it for any size |
| `LogRing.NewestFoundIff` | src/log/rack_logger_ringbuffer.cpp:54-68 | after a push the ring looks for the newest entry where it was written iff the index did not wrap or the size divides 2^32 |
| `LogRing.PopKeeps` | src/log/rack_logger_ringbuffer.cpp:70-84 | the slot at the index holds the oldest entry, marked as written, and a pop leaves the rest |
| `LogRing.RingBuffer.Push` | src/log/rack_logger_ringbuffer.cpp:54-68 | the new fields for any size, and a drop-oldest append whenever no slot is skipped |
| `LogRing.RingBuffer.Pop` | src/log/rack_logger_ringbuffer.cpp:70-84 | any ring refuses and stays as it is iff it is empty or its next slot is not filled; a read ring gives its oldest entry and never refuses unless empty; the rest stays in order whenever no slot is skipped |
| `LogRing.RingBuffer.ResetIndex` | src/log/rack_logger_ringbuffer.cpp:86-91 | the new fields for any size; a write ring becomes a read ring with the same contents unless the index wraps and the size does not divide 2^32 |
| `LogRing.RewindIndex` | src/log/rack_logger_ringbuffer.cpp:86-91 | the 32-bit steps of the rewind |
| `LogRing.RewindKeeps` | src/log/rack_logger_ringbuffer.cpp:86-91 | a rewound write ring is a read ring with the same contents, a rewound empty ring an empty write ring |
| `LogRing.SwapRings` | src/log/rack_logger_ringbuffer.cpp:46-52 | exchanges all fields of the two rings |
| `LogBuffer.Buffer.Push` | src/log/rack_logger_ringbuffer.cpp:93-101 | appends to the write side unless stopped |
| `LogBuffer.Buffer.Pop` | src/log/rack_logger_ringbuffer.cpp:103-117 | gives the oldest entry of both rings, swapping them when the read side is empty; refuses iff both are empty |
| `LogBuffer.Buffer.Exit` | src/log/rack_logger_manager.cpp:75-130 | stops, drains everything that was inside in order, and leaves both rings empty |
| `LogBuffer.OutIsSubsequence` | src/log/rack_logger_ringbuffer.cpp:93-117 | the log with pushes taken one at a time: what comes out is an ordered subsequence of what was accepted, short of exactly as many entries as pushes found the write ring full |
| `LogBuffer.NothingLostIff` | src/log/rack_logger_ringbuffer.cpp:93-117 | pushes one at a time: nothing is lost iff there were never more than size pushes between two swaps |
| `LogBuffer.AfterStop` | src/log/rack_logger_manager.cpp:75-130 | pushes one at a time: after the stop the consumer gets exactly what was inside |
| `LogPush.PushesLinearizeIff` | src/log/rack_logger_ringbuffer.cpp:54-68 | in every interleaving of index, write and count steps of any number of producers, once none is under way the ring is as if the pushes had run one by one in the order of their indices iff every slot was last written with the entry of its newest ticket |
| `LogPush.PushesLinearize` | src/log/rack_logger_ringbuffer.cpp:54-68 | which holds when no producer is overtaken by a whole ring before it writes |
| `LogPush.FewPushesWin` | src/log/rack_logger_ringbuffer.cpp:54-68 | and whenever there were no more pushes than slots |
| `LogPush.FoldHolds` | src/log/rack_logger_ringbuffer.cpp:54-68 | pushes one by one leave a drop-oldest queue in the ring |
| `LogPush.OvertakenWriteMisplaces` | src/log/rack_logger_ringbuffer.cpp:54-68 | counterexample: an overtaken producer overwrites a newer entry |
| `LogMachine.QuietSameIff` | src/log/rack_logger_ringbuffer.cpp:54-117 | a write ring with no push under way holds what sequential pushes leave iff the newest ticket won in every slot |
| `LogMachine.RefinesIff` | src/log/rack_logger_ringbuffer.cpp:54-117 | every interleaving of push steps, pops and the stop refines the log with pushes one at a time, in the order of the indices: the consumer gets the same entries iff at every swap the newest ticket had won in every slot |
| `LogMachine.OutInOrder` | src/log/rack_logger_ringbuffer.cpp:54-117 | then what comes out is an ordered subsequence of what was accepted |
| `LogMachine.NothingLostIff` | src/log/rack_logger_ringbuffer.cpp:54-117 | in every interleaving that ends with no push under way, everything accepted is kept, in order, iff there were never more than size pushes between two swaps |
| `LogMachine.PopKeepsAll` | src/log/rack_logger_ringbuffer.cpp:70-117 | a pop loses nothing and gives out an entry whenever there is one |
| `LogMachine.AfterStop` | src/log/rack_logger_manager.cpp:75-130 | after the stop every interleaving gives the consumer exactly what was inside, in order, whatever producers still try |
| `LogMachine.StopDrains` | src/log/rack_logger_manager.cpp:75-84 | a stop in any run at rest starts that draining with everything kept |
| `Serializer.RoundTrip` | src/sdk/include/turbo_serialize.h:193-414 | decoding the encoding of any value of any nested type, followed by any suffix, returns the value and leaves the suffix, except iff the encoding ends in an empty string with nothing behind it under a memcpy_s that refuses empty destinations |
| `Serializer.PrefixFails` | src/sdk/include/turbo_serialize.h:278-414 | decoding any strict prefix of an encoding ends with the flag false |
| `Accepted.AcceptedIsEncodingIff` | src/sdk/include/turbo_serialize.h:278-414 | for every type, sets and maps at any depth: accepted bytes are the encoding of the value returned iff what they spell out repeats no set element and no map key |
| `Accepted.AcceptedIsEncoding` | src/sdk/include/turbo_serialize.h:278-374 | without sets and maps accepted bytes always are the encoding |
| `Accepted.RepeatedElementAccepted` | src/sdk/include/turbo_serialize.h:376-394 | with sets, a repeated element is accepted and dropped |
| `Accepted.MapKeepsFirst` | src/sdk/include/turbo_serialize.h:312-354 | reading a map keeps, of all entries with one key, exactly the first, and keys are distinct |
| `Accepted.SetKeepsEach` | src/sdk/include/turbo_serialize.h:356-414 | reading a set keeps every element exactly once, reading a vector keeps everything in order |
| `Serializer.LeByte` | src/sdk/include/turbo_serialize.h:236-250 | byte i of a length is its i-th digit to base 256, lowest first |
| `Serializer.OutStream.Put` | src/sdk/include/turbo_serialize.h:193-276 | appends the encoding of the value, for every type |
| `Serializer.InStream.Read` | src/sdk/include/turbo_serialize.h:162-173 | copies bytes and advances, or drops the flag; a zero-byte copy at the end depends on memcpy_s |
| `Serializer.InStream.Get` | src/sdk/include/turbo_serialize.h:278-310 | decodes as the reference decoder does, or ends with the flag false exactly when it fails |
| `Serializer.InStream.GetText` | src/sdk/include/turbo_serialize.h:298-310 | a string: its length, then as many bytes |
| `Serializer.InStream.GetMany` | src/sdk/include/turbo_serialize.h:312-414 | the element loop: emplace drops what clashes, and a failure ends the loop |
| `Serializer.InStream.GetStruct` | src/sdk/include/turbo_serialize.h:278-296 | the fold over the members, which goes on after a failure without changing the outcome |
| `Serializer.InStream.Check` | src/sdk/include/turbo_serialize.h:180-183 | true iff the flag holds and nothing is left over |
| `Serializer.WriteThenRead` | src/sdk/include/turbo_serialize.h:95-189 | written and read back, the check passes iff nothing follows the value and its end was acceptable, and then the value is the same |

## Left out

- Kernel primitives (sort, bitmap search, workqueues, locks, memory walks) are taken at their documented meaning; allocation failures are not modelled.
- Parsing of the ACPI tables and the page-frame walk that fills the remote list: the model starts from the segments they produce.
- Waiting for locks other than ap_data.lock, and fairness: who waits is stated for the scan works and for enable, add, remove and disable calls, not how long.
- Levels below 0 of the page table, page sizes other than 4KiB for page tables, concurrent writers of page-table entries and the retry that follows a failed exchange.
- Priorities of exported records are taken as given; how they are computed from the VM mapping is not modelled.
- The lookup of the process in the conversion and the copies between user space and the driver.
- Aborted histogram passes, the offsets saved between passes in sequential-loop mode, hardware set-up and waiting times; window counts are unbounded where the source uses 32 bits.
- The 4K multi-granularity heat estimate that feeds the hot-window filter; the filter itself is modelled.
- HAM tracking and migration, VM priority bits, the 64KiB group heuristic, device and procfs set-up.
- Plugin loading, IPC, configuration, log files and their rotation, filtering and syslog output; rmrs, ucache and ubdma plugins.
- HistPlan.GenerateAlignedScanWins: takes segments already sorted by start, as the list they come from is.
- HistUpdate.DirectPass: takes one hardware count per page as an input, every window start in some BA range with distinct BA tags, as the hardware tables give them, and remote segments of whole pages.
- CompressFreq.Compress: sets a bit by adding it; the bit is clear when it is set.
- AcpiMem.LocalMemory.Insert: an empty segment at address 0, whose end would wrap, is not modelled.
- SlidingWindow.Tracking.Scan: one tracked process with at least one window, which a duration of 0 would not give; a reader that looks at the windows in the middle of a scan is not modelled.
- SlidingWindow.Tracking.UpdateTrackingData: does not model the wrap of the 32-bit page index, which needs more than 2^32 - 100000 pages.
- LogBuffer.Buffer.Push: whole runs of the log take ring sizes that divide 2^32, as the default of 8192 does; a size of 0 is not modelled.
- Serializer.RoundTrip: containers list their elements in iteration order and are compared as lists of distinct elements; the 2 GiB limit of memcpy_s and the counting of structure members are not modelled.
