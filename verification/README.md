# Verified model of memchk

memchk replaces `malloc`, `free` and their relatives, keeps a record of every heap block, surrounds each
block with red zones, holds freed blocks back in a quarantine, and compares the heap with snapshots of
itself. This project models the linked, in-place data structures that do this work and proves what they
compute.

| files | part of memchk |
|---|---|
| `Blocks`, `Chains`, `PtrTable`, `CallstackTable` | block records, the two chained hash tables, interned call stacks |
| `Groups`, `Tally`, `Cancelling`, `Snapshot`, `Report`, `Compare`, `Copies`, `Commands` | snapshots: copying, offsetting, which blocks cancel, the report per call stack |
| `Bits`, `PageRegions`, `PageIndex`, `PageMemory`, `VmAreas`, `HeapUsage` | the index of heap pages, its finger, and the address-space areas |
| `Buffers`, `Registry`, `RegistryRuns`, `Hooks` | red zones, the registry with its quarantine, `malloc`, `free`, `realloc` |
| `PoolBitmap`, `Pools`, `PoolRuns` | the page-wise pool allocator for the checker's own records |
| `HookGuard` | the counter and recursive mutex that switch hooking off |

How the source's terms appear in the model:

- A hash table, a group list or a page list is an object whose links are changed in place, as in the C
  code. Ghost fields (`chains`, `nodes`, `groups`, `regions`, `quarantine`, `taken`) say what the links
  stand for, and `Valid()` ties the two together.
- A node given back to its pool gets `live == false` and arbitrary links. The code reads the links of
  blocks, and the fields of page regions, through accessors that require `live` (`HashNext`, `GroupNext`,
  `GroupPrev`; `Start`, `End`, `Next`). That a loop written with them verifies is the proof that it never
  follows a link of a node already given back, although offsetting and destroying remove blocks from the
  very table they walk over. The pool's reuse of a node's memory appears as a new object.
- The snapshot difference is stated per kind of block. A kind is an allocating call stack with a user
  size; call stacks are interned, so one object stands for one trace. Which blocks of a kind are left
  is stated as well (`Cancelling.After`): partners are sought by pointer first, so that nothing that is
  still allocated is reported as gone (`Cancelling.NoTwinLeft`). The converse fails, as an older block can
  be reported in a newer one's place (`Cancelling.OlderTakenForNew`).
- The page index refines `PageRegions.Insert`, a search from the head of a list of regions. All its own
  properties (gapped, exactly the pages touched, independent of order) are proved of that function.
- The registry refines `RegistryRuns.Step`, whose runs carry logs of all blocks registered, freed and
  handed back, and a pool family refines `PoolRuns.Step`. A run of the registry also has writes of the
  program and checks among its steps.
- The underlying `malloc`, `mmap` and `backtrace` are inputs: a buffer that overlaps none still held,
  pages on which there is no pool, an arbitrary trace.
- Addresses and sizes are natural numbers. The masks (`& ~(PAGE_SIZE - 1)` and the like) are computed bit
  by bit, bitmap words are 64 booleans, and the call-stack hash wraps at 64 bits.

One place where the code does less than it seems to, the finger of the page index:

- The absorbing merge (`memchk_virtmem.c:94-101`) can give the region `pageregion_cand` points at back to
  its pool, and the next call reads it (`memchk_virtmem.c:66`). `PageRegions.FingerLostIff` is the exact
  condition for one step and `PageRegions.SafeIffNeverBridged` the one for whole runs.
- It happens with blocks that do not overlap, in the order in which the table is walked
  (`PageRegions.FingerCanDangle`): (address, size) = (0xcb980, 4000), (0x1fd270, 64), (0x131a20, 64),
  (0xcd8c0, 409888), (0x134a20, 64). `HeapUsage.LostRunOccurs` gives the table of live blocks that leads
  to this run.
- `PageMemory` follows the code on raw memory, where a freed slot keeps its fields and is the next to be
  handed out. On this run 104 pages are counted where 105 are touched (`PageMemory.LostSize`): the last
  region is put into the very slot its stale predecessor names, and becomes its own successor. A later
  block above it makes the search run for ever (`PageMemory.NeverEnds`), which a sixth live block in the
  same table does (`HeapUsage.LostRunOccurs`).
- Whenever the finger is on the list, or is not used, a step is right (`PageMemory.RegisteredIn`). When it
  is on a freed slot and used, `PageMemory.StaleStepIff` says exactly when the step is right and when the
  block is lost. A run counts right as long as no block starts above the end of a freed slot that the
  finger is on (`PageMemory.SizeUnlessHarmed`).
- Registering blocks in order of address never loses the finger (`PageRegions.AscendingRunIsSafe`), and
  `prev_pageregion_cand` is overwritten before it is used as long as the finger is on the list
  (`PageIndex.Index.Place`).

The search for the lowest free slot of a pool needs care in another way. `__get_lowest_bit` ignores that
`ffs` may answer 0 for the third word; with exactly 192 slots, all taken, it would answer 127
(`PoolBitmap.FullLooksFree`). No slot size gives exactly 192 slots (`Pools.NeverExactlyFull`), and with
fewer the bits above the slot count, which are never cleared, make the answer right
(`PoolBitmap.LowestBitNeedsRoom`).

## Model

| member | source | states |
|---|---|---|
| PtrHashtable.PtrTable.Add | memchk_hashtable.c:54-64 | The block goes to the front of its own hash's chain; the table holds one block more, chains stay acyclic and disjoint, each node in its hash's bucket |
| PtrHashtable.PtrTable.Find | memchk_hashtable.c:139-156 | A block with the pointer if and only if the table holds one; null means no block has it |
| PtrHashtable.PtrTable.Remove | memchk_hashtable.c:78-109 | As find, and exactly that node leaves its chain; all other chains and positions, and the link of the removed node, stay |
| PtrHashtable.AddIsUpdate | memchk_hashtable.c:54-64 | Adding a block with a new pointer is a map update |
| PtrHashtable.RemoveIsDelete | memchk_hashtable.c:78-109 | Removing a block deletes its pointer from the map and leaves pointers distinct |
| PtrHashtable.FoundIsLookup | memchk_hashtable.c:139-156 | What find returns is what the map holds at the pointer, null for a missing key |
| PtrHashtable.ShapeRemove | memchk_hashtable.c:97-104 | Bypassing one node keeps every remaining node once, in its own hash's chain |
| PtrHashtable.PtrTable.CountNodes | memchk_snapshot.c:110-116 | Counting along the buckets gives the number of blocks in the table |
| Chains.PassOne | memchk_hashtable.h:7-9 | Each step of a bucket-by-bucket walk passes one node of the table, for the first time |
| Chains.PassRow | memchk_hashtable.h:7-9 | Going from the end of one bucket to the start of the next passes nothing |
| CallstackHashtable.CalcCallstackHash | memchk_hashtable.c:23-32 | The wrapped 64-bit sum of the used return addresses modulo the table size: a function of the trace's used part alone |
| CallstackHashtable.CallstackTable.Find | memchk_hashtable.c:158-175 | A record with equal depth and equal trace if and only if there is one, despite hash collisions |
| CallstackHashtable.CallstackTable.Add | memchk_hashtable.c:66-76 | A call stack not in the table is added and interning is kept |
| CallstackHashtable.CallstackTable.GetCallstack | memchk_callstack.c:24-56 | The same object for two requests exactly when depth and trace agree; a new record, with empty group heads, exactly when no equal one was there |
| CallstackHashtable.CallstackTable.ResetGroups | memchk_callstack.c:111-124 | The heads of one link index are emptied in every call stack, those of the other stay |
| CallstackGroups.LinkFront | memchk_callstack.c:58-65 | The block becomes the first of a doubly linked list whose links agree both ways |
| CallstackGroups.UnlinkFrom | memchk_callstack.c:76-87 | Exactly the block leaves the list, from the front, the middle or the end; links agree both ways |
| CallstackGroups.GroupLists.Link | memchk_callstack.c:67-74 | Every block is in its own allocator's list, once; only that list grows, at the front, and the other link index is untouched |
| CallstackGroups.GroupLists.Unlink | memchk_callstack.c:89-96 | Exactly the block leaves its allocator's list, whose other blocks keep their order; all other lists and the other link index are untouched |
| CallstackGroups.LinkSameCallstackGroup | memchk_callstack.c:98-109 | From empty heads, the lists come to hold exactly the table's blocks, each list in the reverse of the walk's order, and lists of the other kind stay intact |
| CallstackGroups.GroupShapeRemove | memchk_callstack.c:76-96 | Taking one block out of its list keeps every other block in its allocator's list |
| Tally.CancelPair | memchk_snapshot.c:122-137 | Cancelling a current against a snapshot block of the same kind keeps, for every kind, the excess of one side over the other, and for every call stack the difference in bytes |
| Tally.NetAll | memchk_snapshot.c:224-241 | The net sizes of all call stacks add up to the overall change in bytes |
| Tally.NetOnly | memchk_snapshot.c:225-226 | Call stacks of net size zero can be left out of the sum |
| Tally.BytesOfList | memchk_snapshot.c:229-239 | Adding up sizes along a list without repeats gives the bytes of the set of blocks |
| Snapshot.Comparison.FindSnapshotFor | memchk_snapshot.c:70-99 | A snapshot block of the same allocator and size if and only if there is one: the one with the same pointer if that is among them, else the first of its size in the allocator's list |
| Snapshot.Comparison.OffsetOne | memchk_snapshot.c:121-141 | One round: either no snapshot block is of this kind and nothing changes, or one pair of one kind leaves both tables and both kinds of lists; a snapshot block with the pointer and kind of the current one is the partner; the node can still be followed |
| Snapshot.Comparison.Visit | memchk_snapshot.c:121-141 | After each round: what has been passed has no partner left, every block met is counted once, the pair taken out is still live, the partner is the snapshot block of the same pointer and kind if there is one, and what is left is what the walk so far leaves |
| Snapshot.Comparison.GiveBack | memchk_snapshot.c:119-120 | The pair of the round before is given back and only then; the walk's position is unaffected |
| Snapshot.Comparison.Offset | memchk_snapshot.c:101-145 | Every block there at the start is met exactly once, in the order of the buckets; what is left is exactly what cancelling partners in that order leaves; no kind is left on both sides; the balance of every kind and the net bytes of every call stack are those from before; both counts are the sizes of the tables; exactly the removed blocks are given back |
| Snapshot.AccountCancelled | memchk_snapshot.c:122-137 | Removing the node the walk stands on loses no block ahead and repeats none behind |
| Cancelling.PartnerIs | memchk_snapshot.c:70-99 | The partner is a snapshot block of the same kind, and the one with the same pointer whenever it is left |
| Cancelling.NoTwinLeft | memchk_snapshot.c:101-145 | No snapshot block is left whose pointer and kind a current block has: what is still allocated is never taken for gone |
| Cancelling.TwinsCancel | memchk_snapshot.c:101-145 | If every current block of a kind has a snapshot block of its pointer, no current block of the kind is left, and exactly those snapshot blocks of it whose pointer no current block has |
| Cancelling.AllTwinned | memchk_snapshot.c:101-145 | If every current block has a snapshot block of its pointer and kind, the snapshot blocks left are exactly those whose pointer no current block has |
| Cancelling.OlderTakenForNew | memchk_snapshot.c:76-96 | The converse fails: a block that was in the snapshot is left as new when a new block of its kind is met first |
| Cancelling.PlannedCancelled | memchk_snapshot.c:122-137 | Cancelling a pair leaves every group list what is left of it, in order, and the walk ahead as planned |
| Compare.LeftoversFrom | memchk_snapshot.c:101-145 | What is left is the two-sided multiset difference: for every kind with c current and s snapshot blocks, max(0, c - s) and max(0, s - c) |
| Compare.LinkBoth | memchk_snapshot.c:193-194 | From empty heads both tables are linked, each under its own index; the lists' order is that of the tables' walks turned around |
| Compare.NothingLeft | memchk_snapshot.c:198-201 | When nothing is left in either table all group heads are empty, so the early return leaves none behind |
| Compare.CompareTables | memchk_snapshot.c:147-184 | The tables keep exactly the difference, and of the blocks exactly those that cancelling by pointer, then by list, leaves; no snapshot block left has a current block of its pointer and kind; the counts are the tables' sizes, and group heads are empty again |
| Compare.ComparePerCallstack | memchk_snapshot.c:187-276 | As above on both ways out; the report lists exactly the call stacks of which some size has become more or less frequent, each once with its net bytes from before offsetting, and its totals add up to the change in bytes |
| Compare.GoodFrom | memchk_snapshot.c:212-241 | A report filled from the leftovers is right about the blocks as they were before offsetting |
| Compare.LeftIffChanged | memchk_snapshot.c:225-226 | A call stack keeps a block on either side if and only if one of its sizes has become more or less frequent |
| Report.CountChanged | memchk_snapshot.c:212-216 | The number of call stacks with a block left on either side |
| Report.SumUp | memchk_snapshot.c:228-239 | The total of a call stack is its bytes in the current leftovers less those in the snapshot's |
| Report.FillReport | memchk_snapshot.c:218-241 | The array sized by the counting pass is filled exactly, with each changed call stack once and its net size |
| Report.RoomLeft | memchk_snapshot.c:218-240 | There is a free place in the array whenever the second pass stores an entry |
| Report.TotalIsNetSum | memchk_snapshot.c:224-241 | The reported totals add up to the sum of the net sizes |
| Copies.DuplicateAll | memchk_snapshot.c:21-42 | A fresh copy of every block, one to one, with the same record and allocator; the source table stays intact; in an empty table of the same size every chain is the source's turned around |
| Copies.CopiesTally | memchk_snapshot.c:10-19 | Copies count and weigh the same as the originals, per kind, per call stack and overall |
| Copies.DestroyAll | memchk_snapshot.c:44-62 | Every block is given back, each one round late and once, and the table is empty |
| Commands.CreateSnapshot | memchk_manage_memblk.c:450-454 | The snapshot's blocks are fresh copies with the records and allocators of the live ones, which stay as they are; the old snapshot's blocks are all given back |
| Commands.CompareWithSnapshotPerCallstack | memchk_manage_memblk.c:481-504 | The comparison says what ComparePerCallstack says about the live blocks and the snapshot themselves, leaves both untouched, and leaves the copies' tables empty and every copy given back; no live block is reported as gone |
| Commands.TwinsOfCopies | memchk_manage_memblk.c:481-497 | What cancelling by pointer leaves of the copies says the same about the originals |
| Commands.NoBlockChanged | memchk_snapshot.c:198-201 | Comparing with a snapshot of the very same blocks finds nothing on either side |
| Bits.MaskRoundsDown | memchk_virtmem.c:50-51 | Masking with the complement of a power of two less one rounds down to its multiple |
| PageRegions.BlockPages | memchk_virtmem.c:50-51 | The masked bounds of a block are page-aligned and hold exactly the pages the block touches |
| PageRegions.AbsorbIs | memchk_virtmem.c:88-104 | Absorbing a run of following regions keeps the list gapped and covers exactly the old addresses and the new ones |
| PageRegions.InsertIs | memchk_virtmem.c:74-114 | All branches (insert, extend, absorb, append) keep the list gapped and add exactly the new addresses |
| PageRegions.Unique | memchk_virtmem.c:44-117 | A set of addresses has only one gapped list |
| PageRegions.InsertAllIs | memchk_virtmem.c:258-264 | After any sequence of blocks the list covers exactly the pages some block touches |
| PageRegions.OrderIrrelevant | memchk_virtmem.c:258-264 | Two sequences that touch the same pages give the same list, whatever their order and repetitions |
| PageRegions.CountedSize | memchk_virtmem.c:191-202 | The size counted is 4096 times the number of distinct pages touched |
| PageRegions.FingerLostIff | memchk_virtmem.c:66-101 | A step leaves the finger on a freed region if and only if the block reaches both the finger's region and the one before it |
| PageRegions.FingerOnList | memchk_virtmem.c:74-114 | Otherwise the finger is on a region of the new list |
| PageRegions.SafeIffNeverBridged | memchk_virtmem.c:66-101 | A run never consults a freed region if and only if no block but the last bridges the gap in front of the finger's region |
| PageRegions.FingerCanDangle | memchk_virtmem.c:66-101 | A run of five blocks that consults a freed region, though the blocks are disjoint and come in bucket order |
| PageRegions.LostRegions | memchk_virtmem.c:44-117 | The three regions that these five blocks ought to give |
| HeapUsage.LostRunOccurs | memchk_virtmem.c:258-264 | A table of the code's size with five plain, disjoint live blocks gives exactly this run; with a sixth, the walk ends after no number of rounds |
| PageMemory.RegisteredIn | memchk_virtmem.c:44-117 | On raw memory, with a finger that is on the list or not used, a step ends, makes the list that of the search from its head, and moves the finger as stated |
| PageMemory.AbsorbedIn | memchk_virtmem.c:92-101 | The absorbing loop ends, and frees exactly the slots of the following regions that begin at or before the end |
| PageMemory.HarmlessStep | memchk_virtmem.c:66-117 | A step whose block does not start above the end of the freed slot the finger is on is right, and says where the finger is afterwards |
| PageMemory.SizeUnlessHarmed | memchk_virtmem.c:258-274 | A run of such steps on raw memory counts 4096 times the number of pages touched |
| PageMemory.SafeIsHarmless | memchk_virtmem.c:66-72 | Runs that never consult a freed region are among these |
| PageMemory.StaleStepIff | memchk_virtmem.c:66-114 | For every memory in which the finger is on a freed slot that ends below the block and still leads to a region of the list, none behind the place of the block: the list becomes the right one if and only if the search passes a region or merges; otherwise it stays as it was and none of the block's addresses is on it |
| HeapUsage.CountedUnlessHarmed | memchk_virtmem.c:253-274 | The same for the pages of a table of live blocks, in the order of the walk |
| PageMemory.SizeUnlessBridged | memchk_virtmem.c:258-274 | A run on raw memory without a bridging block before the last counts 4096 times the number of pages touched |
| PageMemory.LostSize | memchk_virtmem.c:74-110 | The five blocks touch 105 pages and 104 are counted |
| PageMemory.NeverEnds | memchk_virtmem.c:74-110 | After them, for a block above the lost region the search ends after no number of rounds |
| PageRegions.AscendingRunIsSafe | memchk_virtmem.c:258-264 | Runs in order of address never do |
| PageRegions.InsertAt | memchk_virtmem.c:74-114 | Inserting changes the list only from the place where the search stops |
| PageIndex.Index.RegisterBlock | memchk_virtmem.c:44-117 | With the finger on a live region the result is that of the search from the head, and the finger moves as stated; no freed region is read |
| PageIndex.Index.Place | memchk_virtmem.c:74-117 | Starting anywhere at or before the place where the search stops gives the list the head-started search gives; the remembered predecessor need not be right |
| PageIndex.Index.AbsorbRun | memchk_virtmem.c:92-101 | Exactly the following regions that begin at or before the end are given back, and none is read afterwards |
| PageIndex.Index.Merge | memchk_virtmem.c:87-106 | The region and the run behind it become one region, everything else stays |
| PageIndex.Index.FreeAllPageregions | memchk_virtmem.c:234-244 | Every region is given back and the list is empty |
| PageIndex.Index.CountVirtualMemorySize | memchk_virtmem.c:191-202 | The total size of the regions, and each area has grown by its share of every region |
| HeapUsage.OrderDisjoint | memchk_virtmem.c:258-264 | Live blocks whose buffers are held are met without overlap |
| HeapUsage.CopyIsWalked | memchk_virtmem.c:253-259 | A walk along the copy meets the live blocks chain by chain, every chain turned around |
| HeapUsage.OrderPages | memchk_virtmem.c:258-264 | The pages touched on that walk are exactly those of the live blocks |
| HeapUsage.LivePagesAre | memchk_virtmem.c:50-51 | The pages counted are those that some block's buffer meets, 4096 bytes each |
| HeapUsage.GetVirtualMemoryUsage | memchk_virtmem.c:246-279 | 4096 times the number of pages the live blocks touch; no area is used beyond its size; list and copy are empty again, their regions and blocks all given back, and the live table is as it was |
| VmAreas.RegisterPageregion | memchk_virtmem.c:165-184 | Each area grows by exactly its overlap with the longest prefix of the region that the areas cover without a hole |
| VmAreas.ReachIs | memchk_virtmem.c:171-181 | That prefix is covered throughout and ends at the region's end or at an address no area holds |
| VmAreas.PrefixConserved | memchk_virtmem.c:165-184 | The areas' shares add up to the length of the covered prefix |
| VmAreas.RegionConserved | memchk_virtmem.c:165-184 | A fully covered region adds its whole size to the total usage |
| VmAreas.ShareFits | memchk_virtmem.c:191-202 | Of any gapped regions an area gets no more than its own size |
| Buffers.SetAllocatedBuffer | memchk_buffer.c:6-20 | Every byte around the user area is a red-zone byte, the user area is filled only on request, no byte outside the buffer changes |
| Buffers.CheckAllocatedBuffer | memchk_buffer.c:22-93 | 0 if and only if both red zones are intact; the reported distances are those of the damaged bytes farthest from the user area |
| Buffers.SetFreedBuffer | memchk_buffer.c:95-100 | Exactly the buffer is poisoned |
| Buffers.CheckFreedBuffer | memchk_buffer.c:102-147 | 0 if and only if the whole buffer is poisoned; otherwise the offset of the first byte written |
| Buffers.UserWritesAreSafe | memchk_buffer.c:34-63 | Writes confined to the user area never cause a report |
| Buffers.AlignedBlockIs | memchk_hook.c:149-170 | The user pointer is the least multiple of the alignment at or above buf + 16; both red zones have 16 to 16 + a - 1 bytes, together 31 + a, and lie in the buffer with the user area between them |
| Buffers.PlainBlockIs | memchk_hook.c:35-53 | A plain block has exactly 16 bytes of red zone before the user area and exactly 16 behind it |
| Registry.BinFromIs | memchk_manage_memblk.c:47-68 | A size is in the bin of its power-of-4 range, the first and last being open-ended |
| Registry.BinIs | memchk_manage_memblk.c:47-68 | Ten bins: up to 4 bytes, above 4 up to 16, and so on by powers of 4; above 4 to the 9th all sizes share the last |
| Registry.UpdateHistogram | memchk_manage_memblk.c:47-68 | Exactly that bin changes, by one |
| Registry.CountedAdd | memchk_manage_memblk.c:135-140 | The counters' meaning survives registering a block |
| Registry.CountedRemove | memchk_manage_memblk.c:193-197 | The counters' meaning survives freeing a block |
| Registry.RingPush | memchk_manage_memblk.c:199-203 | Overwriting the next slot of the ring is a push on a queue of at most 128 that evicts the oldest |
| Registry.PushedElements | memchk_manage_memblk.c:199-217 | Ring and table of freed blocks hold the same blocks, before and after |
| Registry.Registry.Register | memchk_manage_memblk.c:110-143 | One more tracked block, laid out with red zones and initial pattern; buffers do not overlap; table, quarantine, histogram and counters still agree |
| Registry.Registry.Unregister | memchk_manage_memblk.c:145-222 | An untracked pointer is rejected and nothing changes; it is a double free if and only if it is in quarantine, and then the record found is that of the accepted free. Otherwise the block is checked, poisoned and quarantined with the call stacks of its allocation and of this free, and the block handed back in exchange is the oldest of a full quarantine, checked as it was before the call |
| Registry.Registry.Release | memchk_manage_memblk.c:161-222 | The accepted part of a free: the invariants hold again with the block in quarantine, under the call stacks of its allocation and of this free, and the counters down by one |
| Registry.Registry.Retire | memchk_manage_memblk.c:170-187 | The record of a freed block has its layout and names its allocating and its freeing call stack; the buffer is poisoned |
| Registry.Registry.Exchange | memchk_manage_memblk.c:198-219 | Ring, table of freed blocks and queue agree; the evicted block's poison verdict and buffer are the oldest block's |
| Registry.Registry.CheckAllMemblk | memchk_manage_memblk.c:236-264 | 0 if and only if every red zone and freed buffer is intact; afterwards all are, so that a second check gives 0, and no other byte has changed |
| Registry.RepairTracked | memchk_manage_memblk.c:247-250 | Laying one block's red zones again repairs it and damages nothing repaired or intact elsewhere |
| Registry.SeenAsBefore | memchk_manage_memblk.c:245-259 | A block not reached yet is found as it was at the start, whatever has been repaired |
| Registry.UserBytesKept | memchk_manage_memblk.c:236-264 | No byte of a tracked block's user area is changed by a check |
| RegistryRuns.StepGood | memchk_manage_memblk.c:110-222 | Every register and free keeps the accounts of a run |
| RegistryRuns.RunGood | memchk_manage_memblk.c:110-222 | In every run a registered block is tracked, in quarantine or handed back, in exactly one of these as often as it was registered, and blocks are handed back in the order of freeing |
| RegistryRuns.HandedBackWhen | memchk_manage_memblk.c:198-219 | A freed block has been handed back if and only if 128 further frees have succeeded |
| RegistryRuns.HandsBackOldest | memchk_manage_memblk.c:206-217 | A successful free hands back the block freed 128 successful frees before, if there is one |
| RegistryRuns.Perform | memchk_manage_memblk.c:110-264 | The registry carries out a step of a run, with the run's records, call stacks, counters and handed-back buffer; a check reports damage if and only if there is any, a free if and only if the block's red zones or the oldest quarantined block are damaged, and a rejected double free names the stacks of the allocation and of the accepted free; nothing is damaged by a write to a tracked block's user area |
| RegistryRuns.PerformAll | memchk_manage_memblk.c:110-264 | It carries out whole runs, hands back exactly the buffers the run logs, in that order, and reports every double free with the two call stacks the run logs; if all writes go to user areas of tracked blocks, no free and no check of the run reports anything |
| RegistryRuns.RightReport | memchk_manage_memblk.c:88-96 | The quarantined record found for a pointer names the call stacks logged for the free that put it there |
| RegistryRuns.WholeRun | memchk_manage_memblk.c:110-264 | The same for a registry of its own from the start, whose run is good |
| RegistryRuns.CleanFree | memchk_manage_memblk.c:161-217 | Freeing an undamaged block leaves every red zone and every freed buffer intact |
| RegistryRuns.CleanWrite | memchk_buffer.c:34-63 | A write to a tracked block's user area leaves every red zone and every freed buffer intact |
| RegistryRuns.StartRepresented | memchk_manage_memblk.c:110-222 | A new registry represents the start of every run |
| Hooks.Malloc | memchk_hook.c:32-57 | Null and no change if the underlying malloc fails; otherwise a pointer 16 bytes into a buffer of 32 bytes more than asked for, 16 of them behind the user area, tracked under the interned call stack of the caller, laid out byte by byte |
| Hooks.LiveIsComparable | memchk_manage_memblk.c:481-497 | Every tracked block's allocator being interned, the registry's own table can be compared with a snapshot |
| Hooks.AlignedAllocator | memchk_hook.c:156-170 | As malloc, with the pointer at the least multiple of the alignment that leaves 16 bytes in front, in a buffer of 31 + a bytes more than asked for |
| Hooks.Free | memchk_hook.c:59-79 | Null is ignored; an untracked pointer changes nothing, and a double free finds the record of the accepted one; otherwise exactly that block goes from tracked to quarantine, with the call stacks of its allocation and of this free, and what comes out of a full quarantine is handed back |
| Hooks.HandleReallocMemblk | memchk_manage_memblk.c:224-234 | The user size of the tracked block, or nothing if and only if the pointer is not tracked |
| Hooks.MovedBy | memchk_hook.c:112-116 | Copying before the old block is poisoned preserves its contents in the new one |
| Hooks.Realloc | memchk_hook.c:81-119 | The old contents survive up to the lesser size and fresh bytes follow; the old block is quarantined; null is malloc, size 0 is free; an untracked pointer and a failed malloc change neither tables nor memory, and with size 0 an untracked one is rejected, as a double free if and only if it is in quarantine; the free in it hands back the oldest buffer of a full quarantine |
| PoolBitmap.LowestBitIs | memchk_allocator.c:80-110 | With fewer than 192 slots: the least free slot, or -1 if and only if none is free, despite the stray bits |
| PoolBitmap.LowestBitNeedsRoom | memchk_allocator.c:93-97 | With a third word in use, this holds for all bitmaps if and only if there are fewer than 192 slots |
| PoolBitmap.FullLooksFree | memchk_allocator.c:93-97 | With 192 slots, all taken, the answer would be 127 |
| Pools.NeverExactlyFull | memchk_allocator.c:25-26 | No slot size gives 192 slots in a page |
| PoolBitmap.WriteBit | memchk_allocator.c:60-78 | Exactly the named bit of the 192 changes |
| PoolBitmap.TakeOne | memchk_allocator.c:159-160 | Clearing a set bit takes exactly that slot from the free ones |
| PoolBitmap.WriteBack | memchk_allocator.c:178-179 | Clearing a bit and setting it again restores the bitmap |
| Pools.GetAlignedSize | memchk_alloc.h:8-15 | The least positive multiple of the alignment that is large enough |
| Pools.FewEnoughSlotsIff | memchk_allocator.c:25-26 | A page holds fewer than 192 slots if and only if a slot has at least 21 bytes |
| Pools.SlotsFit | memchk_allocator.c:25-26 | A page of 4096 bytes with an 80-byte header holds as many slots as fit |
| Pools.PoolFamily.RoomUsed | memchk_allocator.c:25-26 | So does every pool of a family |
| Pools.PoolFamily.FullHasNoRoom | memchk_allocator.c:134-151 | When all pools from the one last aimed at on are full, every slot that would fit in one of their pages is handed out |
| Pools.SlotIs | memchk_allocator.c:50-58 | A slot lies in its page behind the header; the page mask gives the header back and the index computation inverts the address computation |
| Pools.SlotsApart | memchk_allocator.c:55-58 | Different slots do not overlap, in one pool or across pools |
| Pools.PoolFamily.InitHeader | memchk_allocator.c:23-48 | The chain grows at its tail by one pool with all slots free, links agree both ways, and the search is aimed at it |
| Pools.PoolFamily.Grow | memchk_allocator.c:139-151 | Four fresh pools more at the tail, on the four pages given and no others; the first is the one to allocate from |
| Pools.PoolFamily.GetLowestBit | memchk_allocator.c:80-110 | -1 exactly when the pool's count of free slots is 0, else its least free slot |
| Pools.PoolFamily.SearchChain | memchk_allocator.c:134-137 | The first pool with room from the one last aimed at; null exactly when that one and all behind it are full, and then the last pool of the chain is known |
| Pools.PoolFamily.Alloc | memchk_allocator.c:119-167 | A slot not handed out before, within its page and behind the header, the least free one of the first pool with room from the one last aimed at; four fresh pools on the pages given are added exactly when the pool last aimed at and all behind it are full, and then no slot that fits in their pages is free; null exactly when pages were needed and not given |
| Pools.PoolFamily.Free | memchk_allocator.c:169-189 | From the address alone the slot's own pool and bit are found; exactly that slot becomes free again, and the search is aimed at the pool if it now has more room |
| Pools.PoolFamily.OutstandingApart | memchk_allocator.c:119-189 | Slots handed out overlap neither each other nor any pool's header |
| PoolRuns.StepGood | memchk_allocator.c:119-189 | A request is answered with an address not outstanding, or null exactly if all pools from the one aimed at on are full and no pages are given; a return takes out exactly its address; the chain grows by four exactly if they are full and pages are given |
| PoolRuns.RunGood | memchk_allocator.c:119-189 | Over every run the addresses outstanding are exactly those answered and not returned since, and none is handed out twice |
| PoolRuns.Perform | memchk_allocator.c:119-189 | A family carries out a step of a run: the same answer, slots, pools and aim |
| PoolRuns.PerformAll | memchk_allocator.c:119-189 | It carries out whole runs |
| PoolRuns.WholeRun | memchk_allocator.c:112-189 | The same for a family of its own from its first page, with the answers' ledger |
| PoolRuns.FreeCount | memchk_allocator.c:160-179 | A pool's free count is the number of its slots not handed out |
| HookGuard.StepInv | memchk_hook.c:20-30 | Every statement of every thread keeps: counter and lock depth are those of the owner, and no other thread is in a section |
| HookGuard.BypassIffInside | memchk_hook.c:39-46 | In every interleaving the counter is the number of open sections of the mutex owner and 0 while the mutex is free, and a thread bypasses tracking if and only if it is itself inside a section |
| HookGuard.CheckGoesThrough | memchk_hook.c:37-46 | In every reachable state a thread inside its own section, and any thread while nobody is inside, can take both lock steps of a check, which decides to bypass if and only if it is inside, and can leave again with nothing changed |
| HookGuard.DisableGoesThrough | memchk_hook.c:20-24 | Such a thread can open one more section |
| HookGuard.EnableGoesThrough | memchk_hook.c:26-30 | And close the one it is in |
| HookGuard.CheckDecides | memchk_hook.c:39-46 | Whatever step a checking thread takes, it decides to bypass if and only if it is inside a section |
| HookGuard.MutualExclusion | memchk_hook.c:13-30 | No two threads are in disable sections, or between the guard's statements, at once |

## Left out

- PageIndex.Index.RegisterBlock: requires the finger to be on a live region when the list is not empty; the code does not ensure that. What happens otherwise is modelled in `PageMemory`, on memory as a value, since the loops need not end.
- HeapUsage.GetVirtualMemoryUsage: takes the areas as an input, in place of reading `/proc`; requires a walk on which no block but the last bridges the gap in front of the finger's region. On others the command can be wrong, as `PageMemory.LostSize` shows, or still right (`HeapUsage.CountedUnlessHarmed`).
- PageMemory.RegisteredIn: the pool of regions is one page of slots, enough for 167 regions at once; the chain of further pages is modelled in `Pools` only.
- Pools.PoolFamily.constructor: requires fewer than 192 slots in a page; which of memchk's records meet that is not computed from the C structures.
- HookGuard.StepInv: a thread leaves only disable sections it has entered. An unbalanced `mc_enable_hook` is not modelled.
- Hooks.Realloc: tracking is on (`do_not_hook` is 0), as for all hooks; the guard is modelled on its own in `HookGuard`.
- `calloc`, `posix_memalign`, `memalign`, `aligned_alloc`, `valloc`, `pvalloc`: thin wrappers around the members modelled here.
- Locks of the tables, the registry and the allocator: calls are atomic, so that counters lagging behind the tables in mid-call are not seen.
- Failed allocations of the checker's own records, and overflow in sizes and addresses: buffers lie in memory and sizes are unbounded.
- `seqno` of pools as a meaningful value and `usage` of call stacks: nothing reads them.
- Reuse of a pool's memory for another record: a given-back node stays dead and a new one is a new object.
- The trace of the freeing call stack is an input of a free, as is that of the allocating one.
- `mc_remove_callstack_hashtable`: nothing calls it.
- `mc_compare_with_snapshot` and `mc_destroy_snapshot` as commands: they combine members modelled here in the way of the command per call stack.
- `memchk_sort.c`: the order of the report. Its comparators truncate to `int`.
- `memchk_log.c`, `memchk_symbol.c`, `memchk_filemap.c`, `memchk_util.c` and all printing: input, output and foreign libraries.
- `memchk_init.c`, `memchk_client.c`, `memchk_signal.c`: start-up, the command mailbox, signals and threads.
