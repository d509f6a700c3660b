# Verified model of the kernel's memory management, virtqueue, text output and PCI code

A Dafny model of the parts of this AArch64 kernel that have the most state, and proofs about it.
`dafny verify dfyconfig.toml` checks all of it.

## What is modelled

**Page tables (`mmu/mmu.c`, `mmu/mmu.h`).** The code builds a four-level, 4 KB-granule translation
tree (VMSAv8-64, section D8.3 of the Arm Architecture Reference Manual, DDI 0487) while that very tree
is in use. `Words.dfy` has addresses and table words, both bijective with the 64-bit numbers.
`PageTable.dfy` has the walk that the hardware does (`TableAt`, `Translate`) and what one table write
does to it. `Machine.dfy` has the C functions as functions on a machine state. Every load and store in
them goes through `Resolve`: with the MMU off the address is physical, with the MMU on it is walked
through the current tables, and an access that does not translate makes the machine `stuck` for good,
because the kernel cannot recover from it. So "not stuck" is "no fault", at every single access. A flag
`astray` records any access that went to a page other than the one it named; that it stays clear is part of
what the calls promise.
`Kernel.dfy` has the same code as a class whose methods change memory, `current_free` and the MMU
mode in place; each method is proved to do exactly what the function does.

The invariant `Handover.Inv` is what holds between two calls: the reachable tables form a tree; each of
them is mapped to itself as normal memory and lies between the start of RAM and `current_free`; the
temporary tables are mapped and linked nowhere; the heap from `current_free` on is unmapped and zero, and
its windows that `current_free` has not reached have no tables; descriptors have the attributes of their
level. `Handover.dfy`, `Alloc.dfy`, `Mapping4K.dfy`, `MapPages.dfy`, `Ranges.dfy` and
`RangeConditions.dfy` prove that the calls keep it and say all that they change; `Exactness.dfy`,
`UpperExactness.dfy` and `Spoiled.dfy` say exactly when they do not; `Boot.dfy` proves that `init_mmu`
establishes it; `System.dfy`, `Runs.dfy` and `History.dfy` add `kalloc`, whole runs and what they leave behind.
Between the calls of a run nothing is mapped but heap pages in use, as normal memory, and registered device
pages (`Runs.Accounted`).

Two defects of the code decide when a call succeeds, and the condition that rules both out is proved
exact for every state between calls (`UpperExactness.MapExact`).

* `palloc_continuous_block` compares bytes with pages (`page_allocator/page_bump_allocator.c:31-37`), so a
  block of four table pages may run over the end of a 2 MB window (`PageAllocator.NeverSkips`). If the
  window of its first page has no table yet, the tree is broken (`Exactness.AllocExact`).
* `slot = map_page_for_pagetable() | ...` (`mmu/mmu.c:213`, `223`, `235`) overwrites what the call itself put
  into that slot. If the page to map and the new block lie in one 2 MB window without a table, the new
  table loses its own mapping, and with the MMU on the next access to it faults
  (`Exactness.SharedFails`). `Mapping4K.EnsureSlotRepaired`, labelled as not being in the source, reads
  the slot again after the allocation and does not need this condition.

Device ranges outside the heap's gigabyte never meet either condition (`RangeConditions.DeviceMappable`),
and in the states that runs reach the next block can always be placed, so that a single mapping call fails
there only for a shared window (`Runs.MapExactInRuns`); `UpperExactness.UpperFails` is about states of the
invariant that no run reaches. `kalloc` moves `current_free` before it maps, and for it the condition is
`FirstGapFree`: the first page of the new range whose window has no table must not share its window with
the next free page, and the block for it must fit. If the condition holds, `kalloc` keeps all its
promises; if it does not, `kalloc` faults or returns with a broken tree, because no later turn of its
loops repairs it (`System.KallocExact`). An allocation of less than 2 MB that starts a window always
faults with the MMU on (`System.FreshWindowFails`), and two calls after boot are enough to get there
(`Boot.SecondWindowFaults`). So allocations below 2 MB never get past the window they began in unless a device
mapping moves the pointer on (`History.SmallRunStays`, `Boot.SmallAllocationsStay`). The end of the kernel
image has to respect the same condition: from any other place `init_mmu` does not establish the invariant
(`Boot.BootExact`). The conditions are not empty: `Boot.InitMmuKeeps` reaches the invariant from
zero RAM, and `Boot.FirstAllocation` gives allocations that succeed from there.

`FlatMemory.dfy` covers `map_page_for_pagetable` with the MMU off and a block anywhere in memory, where the
recursion can enter at any of its three levels; `UpperLevels.dfy` shows what the two upper levels do with
the MMU on: they fault, or write a table into a page that an earlier call left behind in the temporary
one. `Wounds.dfy` shows that with the MMU off a broken tree stays broken. `DeviceLoop.dfy` has the 64-bit
wrap-around of the mapping loops. `PageAllocator.dfy` has the bump allocator in bytes, and, labelled as not being in the
source, `PallocContinuousRepaired`: the same procedure with the space left counted in pages.

**Virtqueue submission (`virtio_gpu_driver/virtio_gpu_driver.cpp`).** `Virtqueue.dfy` is an interleaving of
driver steps and device steps (VIRTIO 1.2, sections 2.7.5, 2.7.6, 2.7.8, 2.7.13). Each descriptor
write, each part of the command, the ring slot, `avail->idx`, the notification, each turn of the wait
loop and the read of the response are separate steps, in the order in which each submitter has them.
The device fetches the head, reads the descriptors one by one, writes a reply of its choice, writes the
used element and bumps `used->idx`, with any number of other steps in between, whether or not it was notified.

**Text output (`std/formating.c`, `terminal/terminal.cpp`, drawing functions of the GPU driver).**
`Numerals.dfy` and `Formatting.dfy` have the printing loops over arrays, against an ideal formatter.
`Raster.dfy` has the rasteriser over the flat frame buffer, `TerminalRing.dfy` and `Terminals.dfy` the ring
of lines, with C's truncating remainder, and the complete contents of the screen after a call.
`format_string` writes nothing at all for an empty format, not even a terminator, so its caller
`kernel_logger::vlog` (`kernel_logs/kernel_logger.cpp:8-14`) then sends whatever its buffer on the stack held.

**PCI (`pci_driver/pci_driver.c`).** `Ecam.dfy` has ECAM addressing (PCI Express Base Specification,
section 7.2.2), `Bars.dfy` BAR sizing against registers with hard-wired bits (PCI Local Bus 3.0, section
6.2.5.1) and the prefetchable 64-bit path of `alloc_bar_memory`, `BarMemory.dfy` the memory it maps. That path
works for registers from 4 KB to 2 GB only (`BarMemory.RegisterUsable`). Below, the request is not a whole
number of pages and never returns (`Bars.SmallestHangs`). From 4 GB on, `register_device_memory` takes its
size as a 32-bit number (`mmu/mmu.c:454`), which is 0 then, so the address is returned unmapped; and for 2^63
the register does not even decode it (`Bars.DecodesThere`).

## Assumptions

* RAM at and above `kernel_heap_start` is zero at boot; `map_page_for_pagetable` never clears the page it
  returns (`mmu/mmu.c:317-358`).
* The heap stays below `0x50000000` (`linker.ld:26-27`). `palloc` does not check this, so every call has a
  precondition that there is room, always as a number of table blocks that the caller can bound.
* Addresses passed to the mapping functions are page aligned. The only call with another address is the one that
  `alloc_bar_memory` makes for a register below 4 KB, and it never ends (`Bars.PlacedExactly`).
* Callers do not map pages of the unallocated heap, and addresses lie below 2^40, the size of the address
  space that `T0SZ` sets (`mmu/init_mmu.S:22`). The modelled walk takes all 48 bits; with the MMU on the
  hardware rejects the addresses from 2^40 on. RAM, the UART, the configuration window and the window for
  prefetchable registers all lie below.
* The virtqueue memory is sequentially consistent, and the queue size divides 2^16 and is at least 4.
* A format is well formed if it has no lone `%` at its end and a suitable argument for each conversion;
  after a lone `%` the code runs past the terminator (`std/formating.c:70-78`). The stack buffers of the
  number conversions hold the 11 and 19 bytes that the helpers write, instead of 10 and 18
  (`std/formating.c:31`, `42`, `54`).
* Text that is drawn consists of characters below 128, because the font has 128 entries.

Where comments and code differ, the model follows the code. `register_device_memory` says that it uses
1 GB, 2 MB or 4 KB mappings (`mmu/mmu.c:448`); it uses 4 KB mappings only. `palloc_continuous_block` says
that its block lies in one level 3 table (`page_allocator/page_bump_allocator.c:24`); it need not.
`map_page_for_table_h` says that the new level 2 table is mapped when it is cleared (`mmu/mmu.c:412`);
with the MMU on it is not.
`terminal::printf` draws all 80 characters of a row, also those that an older and longer line left
behind the terminator of a newer one (`terminal/terminal.cpp:32-39`); the theorem about the screen says so.

## Model

| member | source | states |
|---|---|---|
| Words.DecodeEncode | mmu/mmu.c:218-234 | taking a table word apart into valid bit, frame and attributes gives back what was put together |
| Words.EncodeDecode | mmu/mmu.c:218-234 | every 64-bit number is the word of its fields, so the model loses no bits |
| Words.AttributeWords | mmu/mmu.h:5-8 | the modelled attributes are the three constants of the header, bit for bit |
| PageTable.LinkEffect | mmu/mmu.c:209-236 | writing a table word changes the position of exactly one table and no translation outside its 2 MB window |
| PageTable.LeafEffect | mmu/mmu.c:241-264 | writing a page word moves no table and changes exactly one translation |
| PageTable.TreeGrows | mmu/mmu.c:209-236 | linking a page that was no table keeps one parent slot per table |
| Handover.ZeroPageEffect | mmu/mmu.c:516-520 | clearing a mapped page that is not in the tree faults nowhere, zeroes all 512 words and changes no other page |
| Handover.HandoverEffect | mmu/mmu.c:421-432 | the hand-over faults nowhere; it leaves the temporary table linked in place of the new one, all other translations as they were, and a new level 3 table that maps exactly itself and the new page |
| Handover.HandoverIdentity | mmu/mmu.c:421-432 | each access of the hand-over, every one of the 512 clearing writes included, goes to the page it names in the state in which it is made |
| Handover.SwapEffect | mmu/mmu.c:346-351 | putting the finished table in place of the temporary one and clearing the first temporary table faults nowhere, leaves exactly the two new mappings and the first temporary table zero |
| Handover.MissingEffect | mmu/mmu.c:344-352 | the whole missing-slot branch on a live tree: no fault, no access to a page other than the one named, one new table, two new self-mappings, nothing else |
| Alloc.AllocTail | mmu/mmu.c:325-345 | with the heap's upper tables present only the missing-slot and leaf branches can run |
| Alloc.PresentEffect | mmu/mmu.c:353-358 | the leaf branch: no fault, no access to a page other than the one named, exactly the new page becomes mapped, to itself |
| Alloc.AllocKeeps | mmu/mmu.c:317-360 | a placeable block keeps the invariant; exactly the promised table and mappings appear and pages outside the tree keep their contents |
| Exactness.AllocExact | mmu/mmu.c:317-360 | map_page_for_pagetable succeeds if and only if its window has a table or the block fits into it |
| Exactness.NextWindowBare | mmu/mmu.c:317-360 | a block that runs over the end of a window without a table always runs into another window without a table |
| Exactness.StraddleIntoGap | mmu/mmu.c:344-351 | a block that runs into a window without a table leaves the temporary table linked for good |
| Mapping4K.EnsureFills | mmu/mmu.c:209-236 | filling a missing slot keeps the invariant and adds exactly one table at that slot |
| Mapping4K.DescendKeeps | mmu/mmu.c:209-239 | one level of the descent ends at the table of that level, allocating only if it was missing |
| Mapping4K.RepairedFills | mmu/mmu.c:209-236 | not in the source: reading the slot again after the allocation removes the shared-slot condition and changes nothing where the original works |
| MapPages.WalkKeeps | mmu/mmu.c:202-239 | the three descents reach the level 3 table of the address with four pages for each missing level |
| MapPages.MapKeeps | mmu/mmu.c:202-267 | an unmapped page gets exactly (pa, attribute), a mapped one keeps its translation; all other changes are self-mappings of fresh table pages; no access faults and each goes to the page it names; the invariant holds again |
| Exactness.SharedFails | mmu/mmu.c:213-235 | if the block shares the missing window the call faults with the MMU on and breaks the tree with it off |
| Exactness.StraddleBreaks | mmu/mmu.c:202-267 | if the block runs into a window without a table the call faults or breaks the invariant; with the MMU on it faults if the page to map lies where the block starts |
| UpperExactness.UpperFails | mmu/mmu.c:202-267 | if an upper table is missing and the first block straddles two windows, no later step of the call repairs the tree; runs reach no such state (Runs.MapExactInRuns) |
| UpperExactness.MapExact | mmu/mmu.c:202-267 | on every state between calls, with the MMU on or off, mmu_map_4kb succeeds if and only if the window has a table or its block can be placed elsewhere |
| Ranges.GapsSpent | mmu/mmu.c:209-239 | a table once made is never missing again, so each allocation uses up one window |
| Ranges.RangeKeeps | mmu/mmu.c:273-284 | a range is mapped page by page to itself, earlier translations stay, and current_free moves by four pages for each of at most as many windows as were missing |
| RangeConditions.DeviceMappable | mmu/mmu.c:454-461 | outside the heap's gigabyte mapping a range needs no condition but room for its tables |
| RangeConditions.HeapMappable | mmu/mmu.c:273-284 | for heap pages the condition on the first gap is enough for the whole loop |
| Spoiled.RangeFails | mmu/mmu.c:273-284 | after the first page of a range that cannot be mapped, no later turn of the loop repairs the tree: it faults or a table of the heap stays unusable |
| Spoiled.HeapRangeExact | mmu/mmu.c:273-284 | mapping a range of allocated heap pages ends without a fault and with the invariant intact if and only if its first gap is free |
| Wounds.WoundMap | mmu/mmu.c:202-267 | with the MMU off, mapping a page outside the heap's gigabyte does not repair a broken tree, whatever blocks it allocates |
| DeviceLoop.LoopEnds | mmu/mmu.c:454-461 | the wrapping loop ends exactly for multiples of the page size, after size/4096 turns; otherwise the remainder stays for ever |
| PageAllocator.AlignUpIsNext | page_allocator/page_bump_allocator.c:52-58 | allign_addr gives the least page-aligned address that is not below the pointer |
| PageAllocator.RoundSizeIsNext | page_allocator/page_bump_allocator.c:59-65 | allign gives the least multiple of the page size that is not below the size |
| PageAllocator.NeverSkips | page_allocator/page_bump_allocator.c:28-45 | up to 4096 pages the skip branch is dead, so the block lies in one window if and only if the window has room; above, nothing is allocated |
| PageAllocator.RepairedFits | page_allocator/page_bump_allocator.c:24-45 | with the space counted in pages the block always lies in one window, above earlier blocks, and is the same block whenever that one fitted |
| System.ClearEffect | kernel_allocator/kernel_allocator.c:20-23 | clearing mapped data pages faults nowhere, zeroes them and leaves tree and other pages alone |
| System.ScarStays | kernel_allocator/kernel_allocator.c:20-23 | clearing a range that could not be mapped does not repair the tree, although with the MMU on its pages may translate to one of the new tables |
| System.KallocKeeps | kernel_allocator/kernel_allocator.c:16-25 | the whole rounded size is mapped to itself as normal memory, zero, and holds no table; the invariant holds; other pages keep their contents |
| System.KallocExact | kernel_allocator/kernel_allocator.c:16-25 | kalloc ends without a fault, with the invariant and with its whole block mapped and zero if and only if its first gap is free; otherwise it faults or leaves a broken tree |
| System.FreshWindowFails | kernel_allocator/kernel_allocator.c:16-25 | with the MMU on, less than 2 MB at the start of a window faults |
| Runs.AllocateKeeps | kernel_allocator/kernel_allocator.c:16-25 | in any reachable state a new block is zero, mapped, apart from all earlier blocks and from all tables, and earlier blocks keep their contents |
| Runs.AllocateExact | kernel_allocator/kernel_allocator.c:16-25 | in any reachable state with enough heap, an allocation leads to a reachable state if and only if its first gap is free |
| Runs.MapExactInRuns | mmu/mmu.c:202-267 | in any reachable state mmu_map_4kb succeeds if and only if the window has a table or is not the window of the next free page |
| Runs.MapDeviceKeeps | mmu/mmu.c:454-461 | in any reachable state register_device_memory maps every page of its range to itself as device memory and touches no block of kalloc |
| Runs.WriteDataKeeps | kernel_allocator/kernel_allocator.c:16-25 | writing into an allocated block changes that word only and cannot disturb the tree |
| Runs.RunKeeps | mmu/mmu.c:202-461 | over every run of allocations, device mappings and writes the invariant holds, no access faults or goes to another page than the one it names, blocks stay disjoint and mapped, no translation or table ever changes, and nothing gets mapped but heap pages in use and the device ranges of the run |
| History.RunContents | kernel_allocator/kernel_allocator.c:16-25 | at the end of every run each page of each block holds what it held before, zeros if the block is new, changed by exactly the writes of the run to that page |
| History.SmallExact | kernel_allocator/kernel_allocator.c:16-25 | with a table in the window of the next free page, an allocation below 2 MB meets the condition of kalloc if and only if it ends inside that window |
| History.SmallRunStays | kernel_allocator/kernel_allocator.c:16-25 | without device mappings, no run of allocations below 2 MB gets past the end of the window in which it began |
| Boot.InitTablesEffect | mmu/mmu.c:42-67 | the first four tables hold exactly the path to the window at 0x40000000 and its seven page words |
| Boot.BootInv | mmu/mmu.c:42-71 | these tables satisfy the invariant |
| Boot.InitMmuKeeps | mmu/mmu.c:39-91 | from zero heap RAM init_mmu ends with the MMU on and the invariant true; every page from 0x40000000 to the end of the kernel, boot tables and image without a gap, is mapped to itself as normal memory and 0x9000000 as device memory, for a bounded number of table pages, and nothing else but heap pages in use; the boot tables are where the linker script has them |
| Boot.InitMmuInNumbers | linker.ld:3-12 | the same stated in page numbers and attribute words only, for the addresses of the linker script and of the UART |
| Boot.BootExact | mmu/mmu.c:73-75 | init_mmu establishes the invariant, with image and UART mapped, if and only if the image ends in the first 2 MB, or past the second and not in the last three pages of a window |
| Boot.FirstAllocation | kernel_allocator/kernel_allocator.c:12-25 | right after boot any allocation that ends in the first 2 MB meets the condition of kalloc and costs no tables |
| Boot.SecondWindowFaults | kernel_allocator/kernel_allocator.c:12-25 | after boot, an allocation that uses up the first 2 MB succeeds and the next one, of any size below 2 MB, faults |
| Boot.BootRunKeeps | mmu/mmu.c:39-91 | from boot, every run keeps the invariant and every mapping that init_mmu made, and its device memory is the UART and the ranges that it registers |
| Boot.BootRunContents | kernel_allocator/kernel_allocator.c:16-25 | from boot, after any run, every page of every block is zero but for the writes of the run to that page |
| Boot.SmallAllocationsStay | kernel_allocator/kernel_allocator.c:16-25 | from boot without device mappings, allocations below 2 MB never get out of the first 2 MB of RAM |
| FlatMemory.Level3 | mmu/mmu.c:421-432 | on flat memory level 3 prepares the new level 3 table and touches only the parent slot and the temporary table |
| FlatMemory.Level2 | mmu/mmu.c:402-416 | the same for level 2: the new level 2 table holds exactly the link to the new level 3 table, which maps it |
| FlatMemory.Level1 | mmu/mmu.c:382-397 | the same for level 1, with all three new tables |
| UpperLevels.UpperLevelsFault | mmu/mmu.c:382-416 | with the MMU on, an upper table of the block missing and no old entry for the new level 2 table in the temporary level 3 table, the procedure faults when it clears the new level 2 table |
| UpperLevels.Level2Exact | mmu/mmu.c:402-416 | with the MMU on level 2 faults if and only if the temporary level 3 table holds no old entry for the new level 2 table, or one that names a table on the way to it; with any other old entry the page of that entry is cleared and linked instead and the new table stays as it was |
| FlatMemory.FlatAlloc | mmu/mmu.c:317-360 | whichever levels are missing: they become pages of the block, each mapped to itself like the new page, the tree stays a tree, no temporary table is reachable, the first two are zero, earlier translations stay |
| Kernel.Mmu.ZeroOutPage | mmu/mmu.c:516-520 | the loop over one page |
| Kernel.Mmu.PallocPages | page_allocator/page_bump_allocator.c:17-23 | returns the old aligned pointer and moves current_free by the rounded size |
| Kernel.Mmu.PallocContinuousBlock | page_allocator/page_bump_allocator.c:28-45 | all three branches, on current_free in bytes |
| Kernel.Mmu.MapPageForTableH | mmu/mmu.c:375-438 | the recursion in place does exactly what MapForTable does |
| Kernel.Mmu.MapPageForPagetable | mmu/mmu.c:317-360 | the procedure in place does exactly what AllocTable does and returns the first page of the block |
| Kernel.Mmu.Descend | mmu/mmu.c:209-217 | filling an empty slot and following it, in place, does exactly what Descend does |
| Kernel.Mmu.MmuMap4kb | mmu/mmu.c:202-267 | the procedure in place does exactly what MapPage does; between calls it keeps its promise if and only if the page is mappable |
| Kernel.Mmu.MapAddr | mmu/mmu.c:273-312 | the guard returns without effect, the loop does exactly what MapRange does |
| Kernel.Mmu.RegisterDeviceMemory | mmu/mmu.c:454-461 | the loop with device attributes; it ends if and only if the size is a multiple of the page size, and then does exactly what MapRange does |
| Kernel.Mmu.InitTables | mmu/mmu.c:42-67 | the writes before the first call of map_addr |
| Kernel.Mmu.InitMmu | mmu/mmu.c:39-91 | the whole initialisation in place; from zero heap RAM it keeps the promise of InitMmuKeeps if and only if the kernel ends in one of the places of BootPlaced |
| Kernel.Mmu.Kalloc | kernel_allocator/kernel_allocator.c:16-25 | allocation, mapping and clearing in place; the result is the old current_free; between calls it keeps its promise if and only if the first gap is free |
| Ecam.EcamBijection | pci_driver/pci_driver.c:8-16 | coordinates and addresses of the 256 MB window correspond one to one, in both directions: bus, device, function and offset are the fields that the specification lays down |
| Ecam.InitPciKeeps | pci_driver/pci_driver.c:18-20 | with 129 table blocks of heap left init_pci_driver maps every configuration address to itself as device memory, on any reachable state |
| Ecam.InitPciFromBoot | pci_driver/pci_driver.c:18-20 | the same from boot and after any run, without a condition on what is mapped: every address from 0x4010000000 on for 256 MB |
| Bars.Sizing32 | pci_driver/pci_driver.c:99-105 | the probe of a 32-bit memory register returns its size 2^k; an unimplemented register reads as 2^32 |
| Bars.Sizing64 | pci_driver/pci_driver.c:107-117 | the probe of a 64-bit pair returns its size 2^k for every k from 4 to 63, on either side of the 32-bit boundary |
| Bars.Registers.BarSize | pci_driver/pci_driver.c:92-124 | returns the size for either kind and 0 for any other register, restores all registers, and writes them only while address decoding is off |
| Bars.Registers.AllocPrefetchable | pci_driver/pci_driver.c:161-204 | the prefetchable 64-bit path: when an address is returned, which one it is and what both registers then hold, what is asked of register_device_memory, and for which sizes that call never ends |
| Bars.AcceptedExactly | pci_driver/pci_driver.c:189-189 | the bounds check admits sizes up to 2^37, which then lie in the window, and 2^63, where the sum wraps around |
| Bars.PlacedExactly | pci_driver/pci_driver.c:187-195 | an address is returned exactly for the admitted sizes from 4 KB on; for the smaller ones the call of register_device_memory never ends |
| Bars.SmallestHangs | pci_driver/pci_driver.c:189-190 | an input with which it never ends: a register of 16 bytes, whose request starts 16 bytes into a page |
| Bars.DecodesThere | pci_driver/pci_driver.c:191-194 | of the admitted sizes exactly those from 2^12 to 2^37 get an address returned that the pair then decodes and that is a multiple of the size; the smaller ones are never returned, 2^63 decodes elsewhere |
| Bars.MappedSize | pci_driver/pci_driver.c:190-190 | the 32-bit size parameter is the size below 4 GB and 0 from there on; it is a multiple of the page size exactly from 4 KB on |
| BarMemory.PrefetchableMapped | pci_driver/pci_driver.c:187-195 | for sizes from 4 KB to 2 GB mapping the register's pages succeeds in any reachable state with room, and every byte ends up mapped to itself as device memory |
| BarMemory.RegisterUsable | pci_driver/pci_driver.c:187-195 | of the admitted registers for which no range was registered before, exactly those from 4 KB to 2 GB end up with an address at which every byte is mapped to itself; from 4 GB on the address returned is not mapped |
| Virtqueue.Positions | virtio_gpu_driver/virtio_gpu_driver.cpp:219-258 | each submission program holds each of its steps exactly once, at the place the proofs use |
| Virtqueue.Apart | virtio_gpu_driver/virtio_gpu_driver.cpp:347-351 | the descriptors that successive calls of get_next_descriptor give to one chain are different entries |
| Virtqueue.RingSlot | virtio_gpu_driver/virtio_gpu_driver.cpp:335-335 | the 16-bit index modulo the queue size is the unbounded count modulo the queue size |
| Virtqueue.SlotIsCount | virtio_gpu_driver/virtio_gpu_driver.cpp:335-336 | the slot written is the number of earlier submissions modulo the queue size, also for the constants of the constructor |
| Virtqueue.WaitKeeps | virtio_gpu_driver/virtio_gpu_driver.cpp:338-338 | the wait ends exactly when the device has returned this chain, across the wrap of the index |
| Virtqueue.StepKeeps | virtio_gpu_driver/virtio_gpu_driver.cpp:300-338 | every driver step and every device step keeps the invariant |
| Virtqueue.NoOverwrite | virtio_gpu_driver/virtio_gpu_driver.cpp:323-338 | while a chain is outstanding no step changes descriptors, ring or index, or any buffer but the reply |
| Virtqueue.UsedElement | virtio_gpu_driver/virtio_gpu_driver.cpp:257-262 | the used element names the published chain, in the slot of its number |
| Virtqueue.PublishedChain | virtio_gpu_driver/virtio_gpu_driver.cpp:384-407 | an outstanding chain, followed from its ring slot, has two or three different descriptors, all readable but the last, which is writable and ends it |
| Virtqueue.DeviceProgress | virtio_gpu_driver/virtio_gpu_driver.cpp:338-338 | while the driver waits the device can move, each move leaves one fewer to do, and the driver cannot add any |
| Virtqueue.RunRefines | virtio_gpu_driver/virtio_gpu_driver.cpp:300-564 | in any run the device executes exactly the commands called for, in order and once each; each response read was written for that command; at most one is outstanding; no chain is malformed |
| Virtqueue.RunHeads | virtio_gpu_driver/virtio_gpu_driver.cpp:347-351 | in any run each call starts at the descriptor whose number is the count of descriptors that all earlier calls took, modulo the queue size; its ring slot gets that number, and the next call starts where it ends |
| Virtqueue.RunChain | virtio_gpu_driver/virtio_gpu_driver.cpp:300-336 | the chain that the device finds from the ring slot of an outstanding call is exactly the next parts + 1 entries from there |
| Numerals.DecimalParses | std/formating.c:149-167 | the decimal text of a number parses back to it and has no leading zero |
| Numerals.DecimalUnique | std/formating.c:149-167 | every digit string without leading zero is the decimal text of its value |
| Numerals.IntDigits | std/formating.c:149-150 | an int has at most ten digits |
| Numerals.IntToStr | std/formating.c:149-167 | collecting digits and reversing them leaves the decimal text and its terminator, nothing for negative numbers, and no other byte changes |
| Numerals.HexParses | std/formating.c:101-147 | the n hexadecimal digits of a number of that width parse back to it |
| Numerals.HexDigitAt | std/formating.c:106-109 | the digit at each place is the one that shift and mask select |
| Numerals.NibbleAt | std/formating.c:101-108 | the same, with the character taken from the table in the source |
| Numerals.ToHex | std/formating.c:101-147 | the four helpers leave '0', 'x', exactly n digits and the terminator |
| Numerals.IntToHexString | std/formating.c:83-97 | dispatch on the object size; other sizes write nothing |
| Formatting.Copy | std/formating.c:15-18 | the copying loops stop at the end of the argument or of the output, whichever comes first |
| Formatting.FormatString | std/formating.c:4-81 | exactly the longest prefix of the ideal rendering that fits, then the terminator, and every other byte as before; nothing is written for an empty format or max of at most 1 |
| Formatting.Leaves | std/formating.c:8-80 | the whole text and its terminator if there is room for both, otherwise all but the last place filled with the start of the text, and the bytes behind it as before |
| Formatting.Appended | std/formating.c:8-80 | formats one after the other print one after the other, each with its own arguments; with the following rows this says what every format prints |
| Formatting.PrintsHex | std/formating.c:40-50 | "%x" leaves '0', 'x' and the eight hexadecimal digits of the argument modulo 2^32, the highest first |
| Formatting.PrintsPointer | std/formating.c:52-62 | "%p" leaves '0', 'x' and sixteen hexadecimal digits that read as the pointer |
| Formatting.PrintsNumber | std/formating.c:29-38 | "%u" leaves decimal digits without a leading zero that read as the number, and nothing for a negative one |
| Formatting.PrintsChar | std/formating.c:21-27 | "%c" leaves the character, or nothing for the number 0 |
| Formatting.PrintsString | std/formating.c:12-19 | "%s" leaves its string up to the terminator |
| Formatting.PrintsNoArgument | std/formating.c:63-72 | "%%" leaves a percent sign, "%" and any other character leave nothing and take no argument |
| Formatting.NeverLonger | std/formating.c:63-72 | formatting without arguments shortens every text that holds a percent sign |
| Formatting.SecondPass | kernel_logs/kernel_logger.cpp:8-14 | text that a call with a non-empty format left in a buffer arrives in any buffer as the argument of "%s"; used as a format it arrives if and only if it holds no percent sign and, when it is empty, the buffer held no text before |
| Formatting.SecondPassAnywhere | std/formating.c:4-81 | used as a format, the text arrives in every buffer if and only if it is not empty and holds no percent sign |
| Formatting.NegativeUnsigned | std/formating.c:29-38 | an input on which it does not: "%u" of a negative number leaves the empty text, and the empty text as a format leaves the old contents of the buffer |
| Raster.Screen.DrawPixel | virtio_gpu_driver/virtio_gpu_driver.cpp:567-569 | changes exactly entry y * 1280 + x of the frame buffer |
| Raster.Screen.DrawLetter | virtio_gpu_driver/virtio_gpu_driver.cpp:580-593 | each pixel of the cell is the color if bit j / size of row i / size of the glyph is set, bit 0 being the leftmost, and black otherwise; all others stay |
| Raster.InkIsBit | virtio_gpu_driver/virtio_gpu_driver.cpp:584-584 | the shift and mask of draw_letter select bit j / size, counted from the least significant one, of row i / size |
| Raster.StripWidth | virtio_gpu_driver/virtio_gpu_driver.cpp:595-599 | the strip of n characters is exactly the rectangle 8 s n wide and 8 s high |
| Raster.InCell | virtio_gpu_driver/virtio_gpu_driver.cpp:597-597 | a pixel belongs to the character whose number is its offset divided by the cell width |
| Raster.Screen.DrawText | virtio_gpu_driver/virtio_gpu_driver.cpp:595-599 | each pixel of the strip shows the bit of its glyph, quotient and remainder by the cell's width giving the character and the column; every other pixel of the frame buffer stays |
| Raster.Screen.ClearScreen | virtio_gpu_driver/virtio_gpu_driver.cpp:601-607 | every pixel is black |
| TerminalRing.AfterCalls | terminal/terminal.cpp:22-30 | after n calls head is n mod 40 and tail is min(max(n - 20, 0), 19) |
| TerminalRing.RowDrawn | terminal/terminal.cpp:31-40 | the redraw loop takes n turns up to 20 calls, 20 turns up to 39, max(0, n mod 40 - 19) afterwards, and turn i draws the row of the i-th oldest of the latest calls |
| Terminals.LatestLines | terminal/terminal.cpp:20-40 | each row drawn begins with the line that its call wrote, terminated |
| Terminals.Terminal.WriteLine | terminal/terminal.cpp:20-20 | format_string into the head row changes no other row; an empty format leaves the old line |
| Terminals.Terminal.Redraw | terminal/terminal.cpp:31-40 | the redraw loop on a black screen shows exactly the latest rows; each of the 1280 * 800 entries of the frame buffer is white or black according to a bit of the font, named by quotients and remainders of its index |
| Terminals.Terminal.Printf | terminal/terminal.cpp:15-40 | after a call the new line is in the ring and every entry of the frame buffer is determined in that way by the rows of the latest calls |

## Left out

- System.KallocKeeps: the clearing loop of kalloc is modelled one 8-byte word at a time, not byte by byte.
- FlatMemory.FlatAlloc: MMU off only; with the MMU on the level 1 and 2 branches do not work (UpperLevels.UpperLevelsFault, UpperLevels.Level2Exact), but inside the heap bounds they cannot run (Alloc.AllocTail).
- Kernel.Mmu.RegisterDeviceMemory: for a size that is not a multiple of the page size it says only that the loop never ends (DeviceLoop.LoopEnds), not what the turns write until the heap is used up.
- Bars.Registers.AllocPrefetchable: only the prefetchable 64-bit path; the other paths apply the BAR index twice and scale the returned pointer, so they have no sound end-to-end meaning.
- Virtqueue.RunRefines: the driver is a state machine on values, so that the device can act between its writes, not a method that updates the rings in place; a descriptor is written and read in one step each; lengths, the payload fields, memory barriers and the notification register are not modelled, and the commands are abstract.
- Raster.Screen.DrawLetter: scales of at least 1 and characters below 128; font contents are a parameter.
- Terminals.Terminal.Printf: the transfer and flush commands at the end are the submissions of Virtqueue, not part of the screen contents.
- TLB and cache maintenance, barriers and system registers: the MMU is only off or on.
- Attribute indices other than 0 and 1, which no caller passes.
- Log messages inside the memory manager, and the output of the UART.
- The 1 GB and 2 MB mappers, unmap_addr, kfree and pfree, which are commented out or empty, and debug_helper_set_current_free, which breaks freshness by design.
- The free-list page allocator, which is unfinished and not built.
- PCI device search and capability walk, VirtIO feature negotiation and device status, draw_rec, exceptions and boot code: constants, registers and plain loops without a deep property.
