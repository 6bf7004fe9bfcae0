# XytherOS: verified models of the kernel's memory, strings, maps, lock and pipe

This project models the parts of the XytherOS kernel (an x86-64 kernel in C) where the most state, branching and
arithmetic meet, and proves what they are for. `dafny verify dfyconfig.toml` checks all of it.

| files | source | subject |
|---|---|---|
| `WordBits`, `CString` | `src/kernel/lib/string.c` | word-at-a-time byte tests and the scans built on them |
| `Periodicity`, `MaxSuffix`, `StringSearch` | `src/kernel/lib/string.c` | `strstr` with the two-way algorithm: maximal suffixes, critical factorisation, the shift tables and the memory |
| `MemMove` | `src/kernel/lib/string.c` | `memmove` in place, by words and bytes, in both directions |
| `RegionMap`, `AddressSpace` | `src/kernel/mm/mmap.c` | the region list of an address space: a doubly linked list in the heap, against address-by-address meaning |
| `CopyOnWrite`, `ForkedMemory` | `src/kernel/arch/x86_64/paging.c`, `src/kernel/arch/pagefault.c` | fork with shared frames, against a machine that copies at once |
| `PageTables`, `TableCopy`, `ForkedTables` | `src/kernel/arch/x86_64/paging.c` | four-level page tables in physical frames, against a flat map, the fork loops over them, and these with their page references against the machine of `ForkedMemory` |
| `SearchTree`, `BinaryTree` | `src/kernel/ds/btree/btree.c` | the search tree whose deletion grafts orphan subtrees from the root |
| `HashChains`, `HashMap` | `src/kernel/ds/hashMap.c` | the hash map over that tree, against one queue of values per key |
| `RingBuffer`, `Pipe` | `src/kernel/ds/ringbuf.c`, `src/kernel/fs/pipefs/pipefs.c` | the byte ring, and any interleaving of readers and writers of a pipe |
| `RwLock` | `src/kernel/sync/rwlock.c` | the readers-writer lock under any interleaving |
| `Kernel`, `Arithmetic`, `FiniteSets`, `Seals` | | error codes, constants and shared helpers |

Conventions. Pointers into flat memory are indices; nodes of the search tree, hash entries, table frames and physical
frames are records in a map from addresses, updated in place; the region list is made of heap objects. 64-bit arithmetic
is written out wherever it can wrap. What the allocator, the file system and the page tables answer is a parameter
(`canAlloc`, `tries`, `avail`, `noMount`, `env`, `arch`, `failAt`). A *sealed* predicate or function (module `Seals`) recurses through a few
constructors to its meaning, so that proofs open it only where a lemma asks for it.

Where a natural property of the code does not hold, the exact condition is proved:

- A fixed mapping whose address plus length passes 2^64 gets through the checks of `mmap_map_region` and leaves a region
  whose end is below its start; the list stays ordered exactly when that does not happen (`AddressSpace.Mmap.MapRegion`,
  `AddressSpace.Mmap.Step`; an input is in `AddressSpace.WrappingMap`).
- `mmap_unmap` drops the error of `vmr_split`. Its loop ends exactly when some call of `vmr_alloc` succeeds or no region
  holds the first address of the range strictly inside (`AddressSpace.Mmap.UnmapLoop`); otherwise the runs of the loop are
  exactly those in which nothing ever changes (`RegionMap.UnmapNeverEnds`, with an input in `AddressSpace.StuckUnmap`). A
  call that does not return has the result `None`.
- `mmap_protect` with a wrapping length changes the whole region (`ProtectedFrom`, `ProtectedTo`), and always drops the
  flags beside read, write and execute (`ProtFlags`).
- `mmap_find_hole` from the end misses only a hole of one address at address 0 (`RegionMap.OnlyOverlooked`).
- `x86_64_mprotect` keeps forked memory private exactly when it does not make an entry writable while its frame is shared
  (`ForkedMemory.ProtectKeeps`); otherwise a store shows up on another page (`ForkedMemory.SharedStoreLeaks`, with a run
  in `ForkedMemory.LeakingStore`).
- A fork takes PTE_W from all user pages of both sides (`ForkedMemory.ForkCloses`). The fault handler gives it back by a
  copy, but not in a shared region and not at address 0, whose entry it does not find. There, in every run, a store to a
  page that was present before the fork fails with EFAULT exactly when the page has no PTE_W, and so unless a step since
  the fork took the page away, made it writable from outside or stored to it elsewhere (`ForkedMemory.StoreAfterFork`).
  `ForkedMemory.ZeroStore` is a run in which the store at address 0 fails and the one at address 1 succeeds.
- A page that could be had but not entered, for want of a page table, loses a frame, or a reference if it is a page of a
  file, exactly then (`ForkedMemory.Memory.MapOwn`, `ForkedMemory.Memory.MapCached`, with a run in
  `ForkedMemory.LostFrame`).
- A failed fork gives back every reference exactly when no page-cache page had been copied yet
  (`ForkedMemory.FailedForkBalance`; `ForkedMemory.LostReference` loses one).
- A byte written to a ring replaces one that is still buffered exactly when the write index has wrapped past 2^64, the
  read index has not, and at least as many bytes as the remainder of 2^64 by the size are buffered
  (`RingBuffer.SameSlot`); that never happens exactly for the sizes that divide 2^64 (`RingBuffer.NeverClashes`).
  `ringbuf_available` is right exactly while the write index has not wrapped past the read index
  (`RingBuffer.Ring.Available`).
- A writer woken by a release gets the readers-writer lock exactly when it was the only waiting writer; otherwise it goes
  back to sleep with the lock free (`RwLock.WokenWriter`). So a release leaves the lock stuck exactly when two writers or
  more wait (`RwLock.ReleaseSticks`), and from there no step but a spurious wakeup lets anyone in (`RwLock.StuckForever`).

Two statements of `mmap.c` are modelled by their evident intent: inserting before the head also sets the old head's back
link (lines 188-192), and `vmr_split` stores the new region only when the caller passes a place for it (lines 1329 and
1352). In `strstr_twoway` the initial `ip = (size_t)-1` is -1, and the look-ahead `l | 63` is written with remainders.

## Model

| member | source | states |
|---|---|---|
| WordBits.ZeroTest | src/kernel/lib/string.c:9-15 | the word test is non-zero exactly when one of the eight loaded bytes is zero |
| WordBits.ByteTest | src/kernel/lib/string.c:9-39 | the test on the word xor the broadcast byte is non-zero exactly when one of the eight bytes equals it |
| CString.Memcmp | src/kernel/lib/string.c:17-23 | zero exactly when the blocks agree, else the difference at the first disagreement |
| CString.Memchr | src/kernel/lib/string.c:25-39 | the first occurrence at every alignment, or none exactly when there is none; a length beyond the memory is fine if the byte occurs before |
| CString.Strlen | src/kernel/lib/string.c:92-105 | the length of the string at every alignment |
| CString.Strchrnul | src/kernel/lib/string.c:159-180 | the first occurrence or the terminator, with nothing before it |
| CString.Strchr | src/kernel/lib/string.c:182-185 | the first occurrence, the terminator for a zero byte, or none |
| Periodicity.CriticalFactorisation | src/kernel/lib/string.c:250-307 | where the larger of the two maximal suffixes starts, every local repetition is at least the period |
| Periodicity.NoSmallerPeriod | src/kernel/lib/string.c:309-317 | no period of the needle is below that of its maximal suffix |
| Periodicity.ShortPeriodIsSuffixPeriod | src/kernel/lib/string.c:309-317 | a short period of the whole needle is the period of its maximal suffix |
| MaxSuffix.MaximalSuffixScan | src/kernel/lib/string.c:250-301 | the loop finds the maximal suffix for the order or its reverse, and its period |
| MaxSuffix.CriticalPosition | src/kernel/lib/string.c:250-307 | the two scans together give a critical position |
| MaxSuffix.Factorise | src/kernel/lib/string.c:250-317 | the memcmp test decides periodicity, and the shift it fixes is safe in both cases |
| StringSearch.FillTables | src/kernel/lib/string.c:240-248 | the byte set and shift table say of every byte whether and where it last occurs in the needle; stops when the haystack is shorter |
| StringSearch.TableShiftSafe | src/kernel/lib/string.c:340-355 | no occurrence is skipped by a shift by the last-byte table |
| StringSearch.RightShiftSafe | src/kernel/lib/string.c:357-364 | no occurrence is skipped after a mismatch in the right half |
| StringSearch.LeftShiftSafe | src/kernel/lib/string.c:365-372 | no occurrence is skipped after a mismatch in the left half |
| StringSearch.MemoryShiftSafe | src/kernel/lib/string.c:342-348 | the memory may cut a table shift short without losing an occurrence |
| StringSearch.Remembered | src/kernel/lib/string.c:371-372 | after a shift by the period the remembered prefix matches |
| StringSearch.Refill | src/kernel/lib/string.c:324-338 | the look-ahead finds the end of the haystack in time, and says when too little is left |
| StringSearch.TwowayLoop | src/kernel/lib/string.c:317-374 | the leftmost occurrence, or none exactly when there is none |
| StringSearch.StrstrTwoway | src/kernel/lib/string.c:233-374 | the same for needles of five bytes and more |
| StringSearch.Strstr2b | src/kernel/lib/string.c:209-215 | the same for two bytes through a rolling 16-bit window |
| StringSearch.Strstr3b | src/kernel/lib/string.c:217-223 | the same for three bytes |
| StringSearch.Strstr4b | src/kernel/lib/string.c:225-231 | the same for four bytes |
| StringSearch.Strstr | src/kernel/lib/string.c:376-403 | for every haystack and needle: the leftmost occurrence, or NULL exactly when the needle does not occur |
| MemMove.Memcpy | src/kernel/lib/string.c:52-58 | blocks that do not overlap are copied and nothing else changes |
| MemMove.Memmove | src/kernel/lib/string.c:503-551 | for every overlap and alignment the memory is what copying through a snapshot gives |
| MemMove.SnapshotSlices | src/kernel/lib/string.c:503-551 | what a snapshot is: the old bytes before, the old source block, the old bytes after |
| RegionMap.HoleIsFree | src/kernel/mm/mmap.c:434-462 | from a free address to the next region nothing is mapped |
| RegionMap.InsertOrdered | src/kernel/mm/mmap.c:163-223 | inserting a region into a free stretch keeps the list ordered and disjoint |
| RegionMap.InsertMaps | src/kernel/mm/mmap.c:163-223 | and maps exactly its addresses |
| RegionMap.SplitKeeps | src/kernel/mm/mmap.c:1321-1356 | splitting a region changes no address |
| RegionMap.RangeCleared | src/kernel/mm/mmap.c:464-515 | the turns of the unmap loop together clear exactly the range |
| RegionMap.FirstGapLowest | src/kernel/mm/mmap.c:517-588 | the first gap that is large enough starts at the lowest address that fits |
| RegionMap.LastGapHighest | src/kernel/mm/mmap.c:517-588 | the last one ends at the highest |
| RegionMap.NoGapNoFit | src/kernel/mm/mmap.c:517-588 | no large enough gap means that no address fits |
| RegionMap.OnlyOverlooked | src/kernel/mm/mmap.c:556-584 | the search from the end misses a fit exactly for one address at address 0 |
| RegionMap.ResizeRegion | src/kernel/mm/mmap.c:830-911 | moving a region's bounds over free addresses keeps order and maps exactly the new addresses |
| AddressSpace.Mmap.Contains | src/kernel/mm/mmap.c:240-253 | whether the node is in the list |
| AddressSpace.Mmap.Find | src/kernel/mm/mmap.c:315-328 | the region that holds an address, or none exactly when it is not covered |
| AddressSpace.Mmap.FindExact | src/kernel/mm/mmap.c:349-364 | the region with these bounds, or none |
| AddressSpace.Mmap.FindNext | src/kernel/mm/mmap.c:366-390 | the region that holds the address and the first that starts after it |
| AddressSpace.Mmap.FindPrev | src/kernel/mm/mmap.c:392-415 | the region that holds the address and the last that ends before it |
| AddressSpace.Mmap.GetHoleSize | src/kernel/mm/mmap.c:434-462 | the free stretch from the address to the next region or the limit |
| AddressSpace.Mmap.CheckMapIn | src/kernel/mm/mmap.c:123-161 | the result of the checks, with the overlap check exact for every range that does not wrap |
| AddressSpace.Mmap.MapIn | src/kernel/mm/mmap.c:123-223 | every link, and the ordered list with the region inserted; unchanged on error |
| AddressSpace.Mmap.ForcedMapIn | src/kernel/mm/mmap.c:225-238 | the range is cleared first, so that afterwards exactly it maps to the region; does not return exactly when the clearing does not |
| AddressSpace.Mmap.Remove | src/kernel/mm/mmap.c:255-313 | the node leaves the list with every link mended, or ENOENT |
| AddressSpace.Mmap.Split | src/kernel/mm/mmap.c:1321-1356 | EINVAL exactly for an address that is not strictly inside, ENOMEM when the allocation fails, and else the region keeps the front and a new one takes the rest |
| AddressSpace.Mmap.UnmapLoop | src/kernel/mm/mmap.c:478-512 | the loop ends exactly when some allocation for the split succeeds, however many fail before, or no region holds the first address strictly inside; then an address is covered exactly when it was and lies outside the range, with unchanged permissions, and otherwise nothing changes |
| RegionMap.UnmapNeverEnds | src/kernel/mm/mmap.c:478-512 | in the other case the runs of the loop, of any length, are exactly those in which no turn stops it or changes anything |
| AddressSpace.Mmap.Unmap | src/kernel/mm/mmap.c:464-515 | the result for all arguments, including that the call does not return |
| AddressSpace.Mmap.FindHoleUp | src/kernel/mm/mmap.c:517-555 | the lowest address that fits, or ENOMEM exactly when none does |
| AddressSpace.Mmap.FindHoleDown | src/kernel/mm/mmap.c:556-588 | the highest address that fits, or ENOMEM exactly when none does but the overlooked one |
| AddressSpace.Mmap.FindHoleAtUp | src/kernel/mm/mmap.c:590-647 | an address that fits, at the hint if the hint fits and the lowest without a hint, or ENOMEM exactly when none does |
| AddressSpace.Mmap.FindHoleAtDown | src/kernel/mm/mmap.c:590-690 | an address that fits, the highest without a hint, or ENOMEM exactly when none does but the overlooked one; a hint only says where the search begins |
| AddressSpace.Mmap.MapRegion | src/kernel/mm/mmap.c:692-773 | the result for all arguments, including that the call does not return; exactly the new range maps to the new region, which is in the list and has read, write, execute, shared, zero-fill, growth and expansion as asked for, flag by flag; a placed mapping lies at a hint that fits, or without a hint lowest, or for a stack highest, and never fails the overlap check; ordered exactly when a fixed range does not wrap |
| AddressSpace.MapExactly | src/kernel/mm/mmap.c:692-773 | what a mapping needs, condition by condition: a length, exactly one of private and shared, alignment and permissions for stacks, alignment and the limit for fixed ranges; then it succeeds exactly when some place fits or the fixed range can be cleared |
| AddressSpace.Mmap.Expand | src/kernel/mm/mmap.c:830-911 | the result for all increments, and exactly the resized region changes: its size by exactly the increment, with the other edge fixed; a region outside the list changes only itself |
| AddressSpace.ExpandExactly | src/kernel/mm/mmap.c:830-911 | a region that may expand grows exactly when the addresses beyond its edge are free and within the limit, and shrinks exactly by up to its size |
| AddressSpace.Mmap.Carve | src/kernel/mm/mmap.c:966-1022 | cutting a region to the range changes no address; unchanged when an allocation fails |
| AddressSpace.Mmap.Protect | src/kernel/mm/mmap.c:913-1040 | the result for all arguments; exactly the range gets read, write and execute exactly as asked for, bit by bit, and every other address keeps its bits |
| AddressSpace.ProtectExactly | src/kernel/mm/mmap.c:913-1040 | a range inside one region is changed, given memory for the splits, exactly when the region does not grow down, the bits differ, write and execute are not asked for together, and neither is asked for where the region has the other; and else the exact result |
| AddressSpace.ProtectKeepsCoverage | src/kernel/mm/mmap.c:913-1040 | protection never maps or unmaps an address |
| AddressSpace.WrappedUnordered | src/kernel/mm/mmap.c:732-769 | a wrapped region breaks the order |
| AddressSpace.WrappingMap | src/kernel/mm/mmap.c:692-773 | a fixed, page-aligned mapping that succeeds and leaves the list out of order |
| AddressSpace.StuckUnmap | src/kernel/mm/mmap.c:464-515 | a mapping and a range inside it that is never unmapped |
| AddressSpace.CallExclusive | src/kernel/mm/mmap.c:913-1040 | by what the calls do to addresses, no address becomes writable and executable unless a mapping asks for both |
| AddressSpace.Mmap.Step | src/kernel/mm/mmap.c:255-1040 | every call has the result and the effect on every address that CallEffect spells out, including that it does not return; the list stays linked, and ordered exactly unless a fixed mapping wraps |
| AddressSpace.Mmap.Run | src/kernel/mm/mmap.c:255-1040 | over every run of mappings, unmaps, removals, expansions and protections: each call has its result and effect on what the calls before it left, and the list stays linked, ordered, disjoint and within the limit, up to the end, a call that does not return or a wrapping mapping that succeeds; never writable and executable at once unless it was so before or a mapping asked for it |
| CopyOnWrite.DropIsolated | src/kernel/arch/x86_64/paging.c:286-312 | dropping an entry with its reference keeps the counts exact and private pages apart |
| CopyOnWrite.UnmapGood | src/kernel/arch/x86_64/paging.c:286-312 | unmapping removes exactly one page from what programs see |
| CopyOnWrite.LendGood | src/kernel/arch/x86_64/paging.c:556-580 | sharing a frame read-only keeps the counts exact and private pages apart |
| CopyOnWrite.LendView | src/kernel/arch/x86_64/paging.c:556-580 | and looks like a copy |
| CopyOnWrite.SetWritable | src/kernel/arch/pagefault.c:60-68 | a change of the write bit is invisible, and safe exactly when the frame is not shared |
| CopyOnWrite.StoreView | src/kernel/arch/pagefault.c:227-240 | a store through a writable entry changes one private page or one page-cache object |
| ForkedMemory.Memory.Unmap | src/kernel/arch/x86_64/paging.c:286-312 | one page goes, and a page-cache frame keeps its count |
| ForkedMemory.Memory.UnmapFull | src/kernel/arch/x86_64/paging.c:417-440 | exactly the user pages of the space go |
| ForkedMemory.Memory.CopyPages | src/kernel/arch/x86_64/paging.c:498-589 | after n pages of the copy loop the destination has them with the same frames, neither side has PTE_W on them, every other entry is untouched, programs see a copy, and no frame's surplus of references changes |
| ForkedMemory.FailedForkBalance | src/kernel/arch/x86_64/paging.c:594-599 | after a failure every frame is as before exactly when only own pages had been copied, and the source lost PTE_W on exactly the pages before the failure |
| ForkedMemory.Memory.LazyCopy | src/kernel/arch/x86_64/paging.c:474-599 | success looks like a full copy with PTE_W gone on both sides, failure like nothing happened |
| ForkedMemory.Memory.Fork | src/kernel/arch/x86_64/paging.c:474-599 | the same for a new address space: the result for every place of failure, the entries and the view |
| ForkedMemory.ForkMove | src/kernel/arch/x86_64/paging.c:474-599 | a fork fails exactly when a place of failure is given; success takes PTE_W from both sides; a failure keeps every entry but for PTE_W on exactly the pages before it, and leaves the frames as they were exactly when all of those were private |
| ForkedMemory.ForkCopies | src/kernel/arch/x86_64/paging.c:474-599 | after a fork the new space has exactly the user pages of the source, and both sides read the bytes from before, page by page and byte by byte |
| ForkedMemory.UnmapMove | src/kernel/arch/x86_64/paging.c:286-312 | an unmap takes one page and an exit the user pages of one space, and every byte elsewhere stays |
| ForkedMemory.LostReference | src/kernel/arch/x86_64/paging.c:594-599 | a run with a fork that fails behind a page-cache page and does not give its reference back |
| ForkedMemory.ForkCloses | src/kernel/arch/x86_64/paging.c:562-570 | every user page of both sides is without PTE_W after a fork |
| ForkedMemory.StaysClosed | src/kernel/arch/pagefault.c:227-240 | over every run a page without PTE_W stays one until a step reopens it |
| ForkedMemory.StoreAfterFork | src/kernel/arch/pagefault.c:227-240 | in every run, after a fork, a store in a writable shared region or at address 0 to a page of either side that was there fails with EFAULT exactly when the page has no PTE_W, and so unless a step since the fork reopened it |
| ForkedMemory.ZeroStore | src/kernel/arch/pagefault.c:227-240 | a run in which the store at address 0 fails with room to spare, and the one at address 1 succeeds |
| ForkedMemory.Memory.MapOwn | src/kernel/arch/pagefault.c:112-134 | a fresh page, or the same entries, frames and view with the exact error; a frame is lost exactly when only the tables are wanting |
| ForkedMemory.Memory.MapCached | src/kernel/arch/pagefault.c:92-112 | a page-cache page with one more reference, or the exact error; when only the tables are wanting the page is in the cache with one reference too many |
| ForkedMemory.LostFrame | src/kernel/arch/pagefault.c:92-134 | a run with two such failures: a file's page keeps a reference and a frame is lost |
| ForkedMemory.Memory.CopyPage | src/kernel/arch/pagefault.c:23-58 | a writable copy with the old bytes; each of the three failures restores frames and entries |
| ForkedMemory.Memory.CowFault | src/kernel/arch/pagefault.c:137-155 | the page becomes writable and looks the same; copied only while shared; the zero-count branch is never taken |
| ForkedMemory.Memory.WriteFault | src/kernel/arch/pagefault.c:227-240 | the result in every case, address 0 included; after success the entry is there, writable and private if it was there without PTE_W; every other entry stays; what a failure loses |
| ForkedMemory.Memory.ReadFault | src/kernel/arch/pagefault.c:242-258 | the result in every case, for present pages and empty files too; what a failure loses |
| ForkedMemory.Memory.Load | src/kernel/arch/pagefault.c:260-281 | returns the byte that the machine that copies at once holds, and fails exactly when that machine does |
| ForkedMemory.Memory.Store | src/kernel/arch/pagefault.c:260-281 | has the effect that the store has on the machine that copies at once, with the exact result, the entries and what a failure loses; spelled out in StoreMove, TouchMove and StoreWrites |
| ForkedMemory.StoreMove | src/kernel/arch/pagefault.c:227-240 | a store to a page that is there, in any reachable state: it succeeds through a writable entry; without PTE_W it fails with EACCES in a region that is not writable, with EFAULT in a shared one or at address 0, and else succeeds exactly when the frame is not shared or a frame, a mount and the put are to be had; no other entry changes |
| ForkedMemory.TouchMove | src/kernel/arch/pagefault.c:70-135 | a first access fails exactly when the region forbids it, the file is empty, or memory, the read or the tables are wanting; the errors; a first load returns the byte of the file, of the cache or of the fill |
| ForkedMemory.StoreWrites | src/kernel/arch/pagefault.c:260-281 | a successful store writes its byte; the rest of its page, every other private page and the pages of other file pages keep theirs, and pages of the same file page see it exactly when it is stored there |
| ForkedMemory.LoadMove | src/kernel/arch/pagefault.c:260-281 | a load of a page that is there returns the byte of its frame |
| ForkedMemory.Memory.Protect | src/kernel/arch/x86_64/paging.c:338-364 | the result for every range and flags, and exactly the present pages of the range get or lose PTE_W; spelled out in ProtectMove |
| ForkedMemory.ProtectMove | src/kernel/arch/x86_64/paging.c:338-364 | in any reachable state: EINVAL exactly for address 0 or flags without PTE_P, and then nothing changes; else the pages of the range that are there get the write bit asked for, all others keep theirs, frames and bytes stay, and a private page that is then writable is alone on its frame |
| ForkedMemory.StoreAfterProtect | src/kernel/arch/x86_64/paging.c:338-364 | in every run, a store in a region that is not writable to a page that a protection closed fails with EACCES unless a step since then reopened the page; right after a protection that gives PTE_W it succeeds |
| ForkedMemory.ProtectKeeps | src/kernel/arch/x86_64/paging.c:338-364 | protection is invisible and keeps the counts; private pages stay apart exactly when no shared frame is made writable |
| ForkedMemory.SharedStoreLeaks | src/kernel/arch/x86_64/paging.c:338-364 | otherwise every store that changes a byte changes another page |
| ForkedMemory.LeakingStore | src/kernel/arch/x86_64/paging.c:338-364 | a run of a store and a fork after which a protection exposes the page, and a store through it changes the page of the other address space |
| ForkedMemory.Memory.Step | src/kernel/arch/x86_64/paging.c:474-599 | each step is one of the machine that copies at once, fails only as that machine may, and leaves an entry without PTE_W so exactly when it does not reopen it; stores, forks and losses are exact |
| ForkedMemory.Memory.Run | src/kernel/arch/x86_64/paging.c:474-599 | every run of loads, stores, forks, unmaps, exits and protections, up to one that makes a shared frame writable, is a run of the machine that copies at once, state by state; loads, first stores, forks and protections fail exactly when that machine does, later stores only for a forbidden or shared region, at address 0 or for want of room; what failures lose is exact |
| PageTables.IndexRoundTrip | src/kernel/include/arch/x86_64/paging.h:81-93 | the indices of every address of a page are those of the page, whose addresses are canonical |
| PageTables.AddressRoundTrip | src/kernel/include/arch/x86_64/paging.h:81-93 | the address of the indices of a canonical address is that of its page |
| PageTables.IndexSteps | src/kernel/include/arch/x86_64/paging.h:81-93 | one step of each index in bytes, and the first and the last page of the address space |
| PageTables.LookupAt | src/kernel/arch/x86_64/paging.c:660-685 | the hardware walk finds the table that hangs at the indices |
| PageTables.HangLookup | src/kernel/arch/x86_64/paging.c:228-256 | hanging an empty table translates nothing anew |
| PageTables.HangTake | src/kernel/arch/x86_64/paging.c:270-283 | taking an empty table away again restores every frame |
| PageTables.LeafLookup | src/kernel/arch/x86_64/paging.c:258-261 | storing a leaf entry changes one translation |
| PageTables.PageMap.MapPt | src/kernel/arch/x86_64/paging.c:92-143 | EINVAL for an index out of range, ENOTSUP for huge pages, and else all tables on the way, taking exactly the missing ones, or exactly the old tables when frames run out |
| PageTables.PageMap.Map | src/kernel/arch/x86_64/paging.c:214-284 | the result for all arguments; only its own entry changes, and then to the address with exactly the flags of the request, and not even that when present without remap; each new table hangs writable, with the flags of the request; a failure restores every table |
| PageTables.MissingCount | src/kernel/arch/x86_64/paging.c:92-143 | a mapping takes exactly as many frames as tables are missing on its path |
| PageTables.PageMap.GetMapping | src/kernel/arch/x86_64/paging.c:660-685 | the entry of the flat map, ENOENT exactly when it is not present, EINVAL for address 0 |
| PageTables.PageMap.Unmap | src/kernel/arch/x86_64/paging.c:286-312 | one translation goes; its frame is freed exactly when it was allocated for the entry |
| PageTables.PageMap.MapThenUnmap | src/kernel/arch/x86_64/paging.c:214-312 | mapping a page that is not there and unmapping it again restores every translation, and frees exactly the frame that was mapped, exactly when it was mapped as present and allocated |
| PageTables.PageMap.Clear | src/kernel/arch/x86_64/paging.c:417-440 | a subtree goes with each allocated leaf and each table freed once |
| PageTables.PageMap.UnmapFull | src/kernel/arch/x86_64/paging.c:417-440 | no user translation is left, the kernel half is untouched, each allocated user leaf and each user table is freed exactly once |
| TableCopy.CopyResult | src/kernel/arch/x86_64/paging.c:498-599 | what the loops copied, read through translation alone: the copy is read-only on both sides, and the kernel half is untouched |
| TableCopy.CopySlot | src/kernel/arch/x86_64/paging.c:498-589 | one slot at any level: every present leaf below it is copied once, and exactly the source's tables are taken, until one finds no frame or cannot be mounted |
| TableCopy.CopyUser | src/kernel/arch/x86_64/paging.c:498-589 | the nested loops succeed exactly when there are as many free frames as the source has user tables and each of these can be mounted |
| TableCopy.TablesCopied | src/kernel/arch/x86_64/paging.c:498-549 | after the loops both sides have user tables at exactly the same places, and each table of the copy hangs as the one of the source does |
| TableCopy.LazyCopy | src/kernel/arch/x86_64/paging.c:474-599 | success is a read-only copy of the user half in tables at the same places, each hanging writable with the allocation and flag bits of the source; failure leaves no user table and gives back exactly the references of allocated leaves |
| ForkedTables.Numbered | src/kernel/include/arch/x86_64/paging.h:81-93 | a user page's number leads back to its four indices |
| ForkedTables.LendPage | src/kernel/arch/x86_64/paging.c:556-580 | one leaf of the copy loop with its reference is one page of the fork: counts exact, private pages apart, the view one copy richer |
| ForkedTables.LentIsFork | src/kernel/arch/x86_64/paging.c:498-589 | when all user leaves were copied, entries and view are exactly those of a fork of all user pages |
| ForkedTables.Undone | src/kernel/arch/x86_64/paging.c:594-599 | giving back everything that was lent leaves the entries without PTE_W and is invisible |
| ForkedTables.Fork | src/kernel/arch/x86_64/paging.c:474-599 | the nested loops over the tables with every page reference are the fork of the flat machine: a success is a full copy to programs, a failure invisible, the counts exact in both, the tables of both sides translate exactly the flat entries, and other address spaces keep theirs |
| ForkedTables.Exit | src/kernel/arch/x86_64/paging.c:417-440 | emptying the tables with every page reference removes exactly the user pages of the address space and keeps the counts exact |
| SearchTree.GraftReturns | src/kernel/ds/btree/btree.c:65-104 | a key of a subtree leads from the root back to its old place |
| SearchTree.GraftFind | src/kernel/ds/btree/btree.c:65-104 | grafting a subtree whose keys lie in one gap adds exactly its keys |
| SearchTree.DeleteFind | src/kernel/ds/btree/btree.c:106-140 | deletion removes one key, and every other key keeps its data |
| SearchTree.DeleteKeeps | src/kernel/ds/btree/btree.c:106-140 | deletion keeps the order and counts one node less |
| BinaryTree.ChildSet | src/kernel/ds/btree/btree.c:90-97 | storing one child link replaces exactly one subtree, with all parent links in place |
| BinaryTree.Btree.Lookup | src/kernel/ds/btree/btree.c:181-197 | the node of the key, or NULL exactly when it is absent |
| BinaryTree.Btree.Search | src/kernel/ds/btree/btree.c:173-179 | the data of the key, or ENOENT exactly when it is absent |
| BinaryTree.Btree.InsertNode | src/kernel/ds/btree/btree.c:65-104 | a whole subtree is grafted where the search ends; EEXIST exactly for a present key |
| BinaryTree.Btree.Insert | src/kernel/ds/btree/btree.c:199-221 | one key more, every other key unchanged; unchanged on error |
| BinaryTree.Btree.DeleteNode | src/kernel/ds/btree/btree.c:106-140 | the node goes, its subtrees hang in its place, links, order and count hold, and no node is lost |
| BinaryTree.Btree.Delete | src/kernel/ds/btree/btree.c:166-171 | exactly one key goes and every other pair stays |
| BinaryTree.Btree.FlushNode | src/kernel/ds/btree/btree.c:293-304 | exactly the subtree goes, although each deletion relinks nodes |
| BinaryTree.Btree.Flush | src/kernel/ds/btree/btree.c:306-311 | nothing is left |
| HashChains.QueueDrop | src/kernel/ds/hashMap.c:334-387 | dropping the first item of a key drops the oldest of its queue and touches no other |
| HashChains.QueueUpdate | src/kernel/ds/hashMap.c:252-267 | replacing the first item of a key replaces the oldest value |
| HashMap.HashTable.InsertEntry | src/kernel/ds/hashMap.c:124-149 | the entry ends its chain, or starts one in the tree |
| HashMap.HashTable.Insert | src/kernel/ds/hashMap.c:151-170 | the value joins the end of its key's queue and no other queue changes, for any hash function |
| HashMap.HashTable.LookupEntry | src/kernel/ds/hashMap.c:172-199 | the first entry of the key, or ENOENT exactly for an empty queue |
| HashMap.HashTable.Lookup | src/kernel/ds/hashMap.c:201-218 | the oldest value |
| HashMap.HashTable.Update | src/kernel/ds/hashMap.c:252-267 | the oldest value is replaced |
| HashMap.HashTable.RemoveMatch | src/kernel/ds/hashMap.c:334-387 | the first match leaves its chain, and the tree node with the last one |
| HashMap.HashTable.Remove | src/kernel/ds/hashMap.c:407-414 | the oldest value goes and no other queue changes |
| HashMap.HashTable.SizeIsTotal | src/kernel/ds/hashMap.c:416-419 | the size is the sum of the lengths of the queues of all keys that have values |
| HashMap.HashTable.FlushNode | src/kernel/ds/hashMap.c:477-499 | the subtree goes with all its entries while the callback deletes the node that is visited |
| HashMap.HashTable.Flush | src/kernel/ds/hashMap.c:520-528 | size 0, an empty tree and no entry left |
| HashMap.HashTable.Clone | src/kernel/ds/hashMap.c:297-323 | the same queues and the same size, when allocations succeed |
| RingBuffer.SameSlot | src/kernel/ds/ringbuf.c:76-105 | for every size the slot of the next byte is in use exactly in a clash, and then by exactly one byte |
| RingBuffer.NeverClashes | src/kernel/ds/ringbuf.c:76-105 | no state of a ring can clash exactly when its size divides 2^64 |
| RingBuffer.PushedInOrder | src/kernel/ds/ringbuf.c:91-105 | a write is first in, first out exactly unless a clash replaces an older byte by another one |
| RingBuffer.WrittenClean | src/kernel/ds/ringbuf.c:91-105 | a run of writes without a clash appends exactly the bytes written |
| RingBuffer.Ring.Read | src/kernel/ds/ringbuf.c:76-89 | as many bytes as wanted and buffered, from the front, for every size and across the wrap |
| RingBuffer.Ring.Write | src/kernel/ds/ringbuf.c:91-105 | as many bytes as given and fitting, for every size; at the back and in order when no clash is met, and otherwise with exactly the replacements that clashes make |
| RingBuffer.Ring.Available | src/kernel/ds/ringbuf.c:107-113 | the number of buffered bytes exactly while the indices have not wrapped apart, for every size |
| Pipe.Shared.ReadTurn | src/kernel/fs/pipefs/pipefs.c:227-249 | a turn of the read loop over the ring is that of the queue, in every state, with progress when bytes are buffered |
| Pipe.Shared.WriteTurn | src/kernel/fs/pipefs/pipefs.c:263-285 | a turn of the write loop over the ring is that of the queue, in every state, with progress when there is room |
| Pipe.ReaderTurns | src/kernel/fs/pipefs/pipefs.c:219-253 | a reader on an open pipe ends with all it wants, waits on an empty pipe, and else takes bytes from the front until it has all or nothing is left |
| Pipe.WriterTurns | src/kernel/fs/pipefs/pipefs.c:255-289 | a writer on an open pipe ends when all is sent, waits on a full pipe, and else puts in the next bytes until all are sent or there is no room |
| Pipe.ReadEndCloses | src/kernel/fs/pipefs/pipefs.c:171-253 | closing the read end ends a reader that wants more with what it has, or EPIPE without any, and writers do not notice |
| Pipe.WriteEndCloses | src/kernel/fs/pipefs/pipefs.c:171-289 | closing the write end ends a writer with bytes left with what it sent, or EPIPE without any, and readers do not notice |
| Pipe.Shared.Run | src/kernel/fs/pipefs/pipefs.c:171-289 | every interleaving is the run of a queue with flags and calls; taken and then buffered bytes are the bytes put in, in order; each call that ends returns exactly the bytes it moved, or EPIPE only without any; never more than 4096 bytes are buffered |
| RwLock.StepSafe | src/kernel/sync/rwlock.c:23-145 | every step keeps counters, queues and exclusion; what each step does is spelled out in the five rows below |
| RwLock.ReaderEnters | src/kernel/sync/rwlock.c:23-62 | a reader that comes, tries or was woken gets in exactly when no writer is inside or waiting; else it goes to the end of the queue, or stays outside when it only tries |
| RwLock.WriterEnters | src/kernel/sync/rwlock.c:84-125 | a writer gets in exactly when nobody is inside and no writer waits |
| RwLock.ReaderLeaves | src/kernel/sync/rwlock.c:64-82 | a reader that leaves wakes the first waiting writer exactly when it was the last one inside, and nobody else |
| RwLock.WriterLeaves | src/kernel/sync/rwlock.c:127-145 | a writer that leaves wakes the first waiting writer, or, when none waits, every waiting reader |
| RwLock.SpuriouslyWoken | src/kernel/sync/rwlock.c:23-105 | a wakeup out of turn takes one sleeper out of its queue and touches nobody else |
| RwLock.MutualExclusion | src/kernel/sync/rwlock.c:23-145 | in every interleaving a writer is alone, and the counters are the numbers of threads inside |
| RwLock.WokenWriter | src/kernel/sync/rwlock.c:84-145 | a woken writer gets the lock exactly when no other writer waits |
| RwLock.ReleaseSticks | src/kernel/sync/rwlock.c:64-145 | the last release leaves a free lock with sleeping writers exactly when two or more wait |
| RwLock.StuckForever | src/kernel/sync/rwlock.c:23-145 | over every run without spurious wakeups nobody enters such a lock again |
| RwLock.StuckReachable | src/kernel/sync/rwlock.c:84-145 | three writers and one release get there |
| RwLock.RunKeepsSafe | src/kernel/sync/rwlock.c:23-145 | over every run the counters count the threads inside, the queues hold the threads asleep, and a writer is alone |

## Left out

- Intrusive queues, bitmaps, number printing and parsing: their laws would add easier members of kinds already here.
- `refs`, `used_space`, `file_pos`, `vflags` and backing files of regions: regions are intervals with flags.
- Page-table work inside the region functions (`arch_unmap_n`, `arch_mprotect`): the result of `arch_mprotect` is a parameter.
- mmap_clean, mmap_copy, mmap_clone and the argument vectors of new programs.
- ForkedMemory.Memory.Protect: of the permission bits only PTE_W is kept apart, since PTE_R and PTE_X are PTE_P, and PTE_U is set on every user page; the flags that `mmap_protect` drops from a region do not reach this machine.
- ForkedMemory.Memory.Run: leaves out memory-mapped devices, whose frames are not counted, and frames that the physical allocator does not know.
- TableCopy.LazyCopy: the frames of the two address spaces are drawn apart, and a failing `__page_get`, which stops the kernel, is not modelled.
- ForkedTables.Fork: joins tables and references for fork and exit; page faults stay on the flat machine of `ForkedMemory`.
- ForkedMemory.Memory.MapCached: eviction from the page cache, and `page_get` or `page_get_address` failing on a page that the cache just gave out, are not modelled.
- PageTables.PageMap.Map: the self-map slot of the top-level table, TLB shootdown and temporary mounts are not modelled.
- x86_64_map_n and x86_64_map_i over several pages: only the one-page steps are modelled.
- HashMap.HashTable.Clone: allocation failure during the copy is not modelled, since the traversal drops the errors of subtrees.
- hashMap_migrate_entry and custom key comparison: keys are compared for equality.
- Pipe.Shared.Run: safety only; the wakeups that the calls send are replaced by wakeups at any time.
- Drivers, boot, traps, scheduling, the file systems and the system-call layer.
