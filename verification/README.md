# The VargoOS memory stack, disk reads and small kernel structures in Dafny

This project models the parts of the kernel in which a simple idea is implemented by in-place
code, and proves that the code meets the idea, or exactly when it does.

* **Block heap** (`Words`, `HeapTable`, `Heap`, `HeapRuns`, `Ram`, `KernelHeap`). One byte per
  4096-byte block. The abstract form is a map `live` from first blocks to lengths; `Encodes` says
  that a table is its encoding byte for byte. `HeapChunk` models the C code over the memory around
  the table, so also the requests that overrun it have a stated effect.
* **Page tables** (`PageLists`, `Paging`, `PageMaps`, `PageLife`, `Processor`). A directory and its 1024 tables
  are ordinary heap pages in a memory of 2^30 words. `Space` says that they are different live
  allocations; that no two of them alias, and that any sequence of mapping calls acts like one on a
  flat map of 2^20 entries, is proved from the heap. `Processor` states the page walk and the bits
  it checks as section "32-Bit Paging" of the Intel 64 and IA-32 manual, volume 3, gives them.
* **Programs and tasks** (`Elf`, `ElfBounds`, `AddressSpace`, `UserSpace`, `CopyString`,
  `TaskCopy`, `TaskStrings`, `ProcessHeap`, `TaskList`, `TaskRuns`, `TaskLife`, `TaskSpaces`). Building an address space from program
  headers, copying a string out of a task through a temporary mapping, memory owned by processes,
  the task list from `new_task` to `task_free`, and runs in which many tasks live at once.
* **Disk and files** (`DiskStreamer`, `Fat16`). Recursive sector and cluster reads against slices of
  a flat byte sequence.
* **Paths, keyboard, itoa** (`PathSpec`, `PathParser`, `Keyboard`, `Itoa`). An allocated linked list
  against a list of components, a sentinel ring against a queue, decimal printing against reading.
* **Failing inputs** (`Witnesses`). One concrete input for each entry of the next section.

Machine integers are written out: a `Word` is an integer below 2^32, and wrap-around, signed reads
and truncating division are explicit. Bitwise operators are defined on integers, and the
arithmetic forms used for page entries are proved equal to them.

## What the code does otherwise than intended

In each case the code is kept as it is, the condition is proved in both directions, and a concrete
failing input is proved to fail.

| where | what happens | exactly when it is right | failing input |
|---|---|---|---|
| `src/memory/heap/heap.c:91-95` | the start of a trailing free run is returned although it is too short, and the chain marked there is cut off by the end of the table | no block is asked for, some run of the requested length exists, or the last entry is taken (`StartBlockExact`, `RequestExact`) | `OverlargeRequest` |
| `src/memory/heap/heap.c:55-61` | rounding up wraps to 0 | the value is at most 0xfffff000 (`AlignUpExact`) | `RoundingWraps` |
| `src/memory/heap/heap.c:99-101`, `145-147` | block and address conversions disagree | the block number is below 2^19 (`BlockAddressRoundTrip`) | `FarBlock` |
| `src/task/process.c:283` | address 0 counts as owned while a slot is empty, and kfree(0) clears memory from 4096 bytes below the table on | the pointer is not 0, no slot is empty, or the byte there is 0 already (`UnownedFreeExact`) | `FreeNull` |
| `src/task/process.c:108-148` | pages of a header are remapped by a later header, of whatever type, or by the stack | the last call that touches the page of a byte keeps its frame and flags (`LoadedExact`) | `HeaderRemapped` |
| `src/task/task.c:93-103` | the successor of a removed task keeps its prev link | the last task is removed (`Tasks.Remove`) | `MiddleRemoval` |
| `src/filesystem/fat/fat16.c:326-329` | a piece is sized without its place in the cluster | the read starts on a cluster boundary or stays in one cluster (`ReadExact`) | `UnalignedRead` |
| `src/loader/formats/elfloader.c:95-96` | a base of 0 reads as "not set" | no entry, or the last one, is at address 0 (`BaseExact`) | `BaseForgotten` |
| `src/keyboard/keyboard.c:51-53` | a full buffer is overwritten | fewer than 1024 characters are queued (`PushExact`) | `FullPush` |
| `src/keyboard/keyboard.c:36-40` | backspace on an empty buffer moves the tail below the head | a character is queued (`BackspaceExact`) | `EmptyBackspace` |

## Model

| member | source | states |
|---|---|---|
| Words.FrameIsMask | src/memory/paging/paging.c:119 | rounding an entry down to a page is the mask with 0xfffff000, for every 32-bit entry |
| Words.TaggedIsOr | src/memory/paging/paging.c:156 | adding flags to an aligned address is or-ing them in |
| Words.WithBitOneIsOr | src/memory/paging/paging.c:33 | the arithmetic form of setting the writable bit is the bitwise or |
| Words.TaggedWithBitOne | src/memory/paging/paging.c:33 | a directory word, address or flags or 2, is the arithmetic form the model stores |
| HeapTable.StartBlockExact | src/memory/heap/heap.c:68-96 | a request of n >= 1 blocks is answered by the least start of a free run of n exactly when one exists; else by the maximal trailing free run, which is too short, or by -ENOMEM when the last entry is taken |
| HeapTable.StartBlockBits | src/memory/heap/heap.c:63-96 | only the four low bits of an entry decide: they are clear in every entry of the answered run, every earlier start meets an entry where they are not, and -ENOMEM means they are not clear in the last entry |
| HeapTable.ChainBits | src/memory/heap/heap.c:103-119 | byte k of a chain of n blocks is 1, with 0x40 exactly on the first and 0x80 exactly on all but the last |
| HeapTable.FreedPointwise | src/memory/heap/heap.c:133-143 | freeing clears exactly the bytes of the walk and no other |
| HeapTable.LiveIntervals | src/memory/heap/heap.c:103-119 | live allocations are pairwise disjoint intervals, and a block is free exactly when none covers it |
| HeapTable.ChainLaw | src/memory/heap/heap.c:103-119 | HAS_NEXT is followed by a taken block that is not first, free bytes are 0, taken bytes carry no bits but HAS_NEXT and IS_FIRST, and every non-first taken byte follows a HAS_NEXT |
| HeapTable.RequestExact | src/memory/heap/heap.c:68-131 | the table after a request on a well-formed one encodes live allocations again if and only if no block is asked for, a long enough run exists, or the last entry is taken |
| HeapTable.DecodeEncoded | src/memory/heap/heap.c:103-143 | walking the chains of a table gives back the live allocations it encodes |
| HeapTable.EncodingUnique | src/memory/heap/heap.c:103-143 | the live allocations determine every byte of the table |
| HeapTable.MarkedEncodes | src/memory/heap/heap.c:103-119 | marking a free run adds one live interval and keeps the encoding exact |
| HeapTable.FreedEncodes | src/memory/heap/heap.c:133-143 | freeing the first block of an allocation removes that allocation and nothing else |
| HeapTable.MarkedCounts | src/memory/heap/heap.c:103-119 | marking n free blocks moves exactly n blocks from free to taken |
| HeapTable.FreedCounts | src/memory/heap/heap.c:133-143 | freeing gives back exactly the length of the chain |
| Heap.AlignUpExact | src/memory/heap/heap.c:55-61 | rounding gives the least multiple not below the value if and only if the value is at most 0xfffff000, else 0 |
| Heap.BlocksForExact | src/memory/heap/heap.c:149-155 | the blocks asked for are ceil(size / 4096) if and only if the size is at most 0xfffff000 |
| Heap.BlockAddressRoundTrip | src/memory/heap/heap.c:99-147 | block to address and back is the identity exactly below block 2^19 |
| Heap.HeapChunk.Create | src/memory/heap/heap.c:32-53 | succeeds exactly for aligned bounds that agree with the table size, and then the table encodes no allocation; memory around the table is kept |
| Heap.HeapChunk.GetStartBlock | src/memory/heap/heap.c:68-96 | the one-pass scan returns the specified start block for every table and every request |
| Heap.HeapChunk.MarkTakenBlocks | src/memory/heap/heap.c:103-119 | the loop that carries the next byte writes one chain, also when it runs past the table |
| Heap.HeapChunk.MallocBlocks | src/memory/heap/heap.c:121-131 | the whole effect of a request for any number of blocks on the table and on the memory around it |
| Heap.HeapChunk.Malloc | src/memory/heap/heap.c:149-155 | the same for a request in bytes, with no precondition on the size |
| Heap.HeapChunk.MarkFreeBlocks | src/memory/heap/heap.c:133-143 | the loop clears the chain from any block number, negative ones included |
| Heap.HeapChunk.Free | src/memory/heap/heap.c:157-160 | the effect of freeing any 32-bit pointer; from inside the heap upward nothing outside the table changes |
| HeapRuns.StepExact | src/memory/heap/heap.c:121-160 | one satisfiable request or one free of a live pointer keeps the table the exact encoding of the live requests |
| HeapRuns.RunExact | src/memory/heap/heap.c:32-160 | over every run the table encodes the live requests, its taken blocks are the sum of ceil(size/4096), and freeing all of them in any order gives the all-free table |
| HeapRuns.CreatedExact | src/memory/heap/heap.c:32-53 | the table heap_create leaves is the exact state with no requests |
| HeapRuns.Perform | src/memory/heap/heap.c:121-160 | a call on the in-place heap is one step of the run, returns the recorded pointer and writes nothing outside the table |
| HeapRuns.Execute | src/memory/heap/heap.c:121-160 | any sequence of calls on the in-place heap ends in the state of the run |
| Ram.Memset | src/memory/heap/kernel_heap.c:32 | exactly the requested bytes become the given one, around the end of memory too |
| Ram.LittleEndian | src/memory/heap/kernel_heap.c:32 | a word is its four bytes, the least significant one at the lowest address |
| KernelHeap.Kernel.constructor | src/memory/heap/kernel_heap.c:11-22 | after initialisation the heap of 25600 blocks is exact, empty and all free |
| KernelHeap.Kernel.Kmalloc | src/memory/heap/kernel_heap.c:24-26 | a satisfiable request is granted the first fit as a new live interval; null and zero-block requests leave the table alone |
| KernelHeap.Kernel.Kzalloc | src/memory/heap/kernel_heap.c:28-34 | as kmalloc, and exactly the requested bytes of memory are zeroed |
| KernelHeap.Kernel.Kfree | src/memory/heap/kernel_heap.c:36-38 | freeing a live first block removes it from the live allocations and returns its blocks |
| PageLists.ExtendShrink | src/memory/heap/kernel_heap.c:24-38 | allocating fresh pages and freeing the same pages in any order restores the live allocations |
| PageLists.ZallocPage | src/memory/heap/kernel_heap.c:28-34 | one free block is enough for a zeroed page that was not live, with all other memory and allocations as before |
| Paging.GetPagingIndices | src/memory/paging/paging.c:80-94 | indices exist exactly for aligned addresses and name the page of the address |
| Paging.IndicesBijective | src/memory/paging/paging.c:80-94 | (directory index, table index) is a bijection with the 2^20 pages |
| Paging.SetEntryFlat | src/memory/paging/paging.c:106-123 | storing one entry is a one-point update of the flat map and changes no directory word and no memory outside the tables |
| Paging.SpaceStays | src/memory/paging/paging.c:106-123 | an address space stays well formed under every change confined to its tables |
| PageMaps.FlatRangeAt | src/memory/paging/paging.c:159-173 | a range of up to 2^20 pages, also around the end of the address space, maps page virt + k to frame phys + k for every k and no other page |
| PageMaps.MapTranslates | src/memory/paging/paging.c:150-157 | after paging_map the 4096 addresses of the page lead to the frame, and every other address where it did |
| PageMaps.RangeRefines | src/memory/paging/paging.c:159-173 | a range call in memory has the effect of the range on the flat map |
| PageMaps.RunRefines | src/memory/paging/paging.c:106-222 | any sequence of mapping calls on the two levels acts as on one flat map, keeps every directory word and all memory outside the tables |
| PageMaps.RunLeavesOther | src/memory/paging/paging.c:106-205 | mapping calls on one address space leave every entry of a page-disjoint one unchanged |
| PageMaps.PagingSet | src/memory/paging/paging.c:106-123 | fails exactly for unaligned addresses, else stores the one entry |
| PageMaps.ReadPage | src/memory/paging/paging.c:211-222 | reads the entry of the flat map, or 0 for an unaligned address |
| PageMaps.PagingMap | src/memory/paging/paging.c:150-157 | maps address and flags, and fails exactly when an address is not aligned |
| PageMaps.PagingMapRange | src/memory/paging/paging.c:159-173 | the loop is the specified range for every page count, negative ones included |
| PageMaps.PagingMapTo | src/memory/paging/paging.c:175-205 | maps the pages up to the end address, or fails and changes nothing |
| PageLife.New4gb | src/memory/paging/paging.c:18-39 | with 1026 free blocks: 1026 fresh pages forming a space whose page v reads v with the flags, every directory word being its table or flags or 2, and nothing else changed |
| PageLife.SpacesIsolated | src/memory/paging/paging.c:18-134 | spaces from separate calls share no page, and no sequence of mapping calls on one changes an entry of the other |
| PageLife.FreeOrderPages | src/memory/paging/paging.c:125-134 | what paging_free_4gb frees are the pages of the space, each exactly once and all live |
| PageLife.Free4gb | src/memory/paging/paging.c:125-134 | walking the directory in memory removes exactly these pages from the live allocations |
| PageLife.LifeCycle | src/memory/paging/paging.c:18-205 | after any sequence of mapping calls, freeing restores the live allocations from before the space was built |
| PageLife.BuildUseFree | src/memory/paging/paging.c:18-205 | new, any mapping calls, free: the heap table is restored entry for entry |
| Processor.EntryIsWalked | src/memory/paging/paging.c:211-222 | the flat map's entry of a page is the word found by directory word va / 0x400000, its mask with 0xfffff000, and table word va / 0x1000 % 0x400 |
| Processor.TranslateIsWalked | src/memory/paging/paging.c:211-222 | the translation is the masked entry of this walk plus the offset in the page |
| Processor.TaggedBits | src/memory/paging/paging.h:7-12 | present, writable and user bit of an entry are bits 0, 1 and 2 of its flags |
| Processor.OpenIsAccessible | src/memory/paging/paging.c:33 | under a directory whose words are present, writable and open the table entry alone decides access |
| Elf.BitOneIsMask | src/task/process.c:112 | the arithmetic test for bit 1 is the test of p_flags against PF_W |
| ElfBounds.OnlyLoadsMatter | src/loader/formats/elfloader.c:113-122 | entries of other types do not influence the bounds |
| ElfBounds.EndIsGreatest | src/loader/formats/elfloader.c:103-109 | the end is the greatest (wrapped) p_vaddr + p_filesz, and the physical end that of the last entry attaining it |
| ElfBounds.BaseIsLeast | src/loader/formats/elfloader.c:95-101 | without entries at 0 the base is the least p_vaddr, and the physical base that of the last entry attaining it |
| ElfBounds.BaseZero | src/loader/formats/elfloader.c:95-101 | the base ends as 0 exactly when the last entry is at 0 |
| ElfBounds.BaseExact | src/loader/formats/elfloader.c:95-101 | the base is a lower bound exactly when no entry, or the last one, is at 0 |
| ElfBounds.SpansEqual | src/loader/formats/elfloader.c:94-138 | with constant p_offset - p_vaddr and no wrap-around the physical span equals the virtual span |
| ElfBounds.ElfFile.ProcessHeaders | src/loader/formats/elfloader.c:124-138 | the loop that updates the fields computes these bounds for any number of headers |
| AddressSpace.RunInside | src/task/process.c:108-123 | a call that no later call overlaps in a page decides that page's entry |
| AddressSpace.LastCallWins | src/task/process.c:108-123 | for any calls, overlapping or not, the last one that touches a page decides its entry, and untouched pages keep theirs |
| AddressSpace.ReachesExact | src/task/process.c:108-123 | an address a call lands on is reached in the end if and only if the last call touching its page maps it the same way |
| AddressSpace.SameMappingOfHeaders | src/task/process.c:110-118 | two headers map a common page the same way if and only if PF_W and the distance of memory and address agree |
| AddressSpace.HeaderReachedExact | src/task/process.c:102-152 | a header survives the later headers and the stack if and only if none of its bytes is remapped differently |
| AddressSpace.RangePages | src/task/process.c:116-118 | the aligned call for a range is straight and covers exactly ceil of its pages |
| AddressSpace.RangeByte | src/task/process.c:116-118 | every byte of the range lands on its physical byte |
| AddressSpace.LoadedExact | src/task/process.c:128-152 | on the identity map: every header byte reaches elf_memory + p_offset + a by a present user entry, writable exactly by PF_W, the four stack pages reach the stack by writable entries and all other pages keep their entries, if and only if no header is remapped differently |
| AddressSpace.ProgramLoaded | src/task/process.c:128-152 | without overlaps all of that holds |
| AddressSpace.BinaryLoaded | src/task/process.c:91-152 | the same for a flat binary at the program address |
| AddressSpace.MapElf | src/task/process.c:102-126 | fails exactly when some header's end wraps below its start, and in every case exactly the headers before the first such one are mapped |
| AddressSpace.MapBinary | src/task/process.c:91-100 | performs the one call for the binary and answers 0 whatever that call answers |
| AddressSpace.MapMemory | src/task/process.c:128-152 | the page map after the calls that take effect, also on failure, -EINVARG exactly when a header does not fit, and no other memory changed |
| UserSpace.TouchesExact | src/task/process.c:116-118 | a mapping call touches exactly the pages that its byte range meets |
| UserSpace.FreeIsUnmapped | src/task/process.c:102-152 | no call touches a page exactly when no header and none of the four stack pages meets it |
| UserSpace.ReachedTranslates | src/task/process.c:116-118 | an address the page map reaches is translated there |
| UserSpace.ReachesIsAccess | src/task/process.c:111-118 | reaching an address in the page map is having access to it through both levels |
| UserSpace.LinkedIsOpen | src/memory/paging/paging.c:33 | the directory words of a task's space are present, writable and open to user code |
| UserSpace.LoadedIsAccessible | src/task/process.c:102-152 | user code gets every header byte at elf_memory + p_offset + a, writable exactly by PF_W, the writable stack at 0x3fb000, and every other address unchanged and read-only |
| UserSpace.AccessibleIsKept | src/task/process.c:102-152 | and conversely, if it does, no header was remapped differently |
| UserSpace.BuildAddressSpace | src/task/process.c:199-212 | a fresh address space followed by process_map_memory gives user code an ELF program or a flat binary as described, at both levels of the page walk, exactly when no header is remapped; 1026 fresh blocks are taken and no other word is written |
| CopyString.Strncpy | src/string/string.c:99-112 | the loop under a page directory has the specified effect, reading each source byte from the memory changed so far |
| CopyString.StringExact | src/string/string.c:99-112 | the string at an address is the bytes read there through the directory, up to the first zero byte or n - 1 bytes |
| CopyString.CopyExact | src/string/string.c:99-112 | strncpy delivers the string as it stood when it was called, cut at n - 1 and terminated, and writes only its room |
| CopyString.CopyWrites | src/string/string.c:99-112 | whatever it reads, strncpy writes only bytes of the destination's room |
| TaskCopy.RestoredBoth | src/task/task.c:190-197 | mapping hold, writing it and putting the old entry back leaves every translation of task and kernel as it was |
| TaskCopy.HoldEntry | src/task/task.c:192 | while it is mapped, hold leads to itself by a present, writable user entry |
| TaskCopy.TranslationsKept | src/task/task.c:178-205 | every translation of task and kernel is as before the call, whatever string is passed |
| TaskCopy.OnlyBuffersWritten | src/task/task.c:178-205 | every byte of memory outside hold and the buffer is as before the call |
| TaskCopy.OtherSpaceKept | src/task/task.c:178-205 | every further address space clear of the buffer keeps its map |
| TaskCopy.StringDelivered | src/task/task.c:178-205 | a string clear of the page of hold arrives in the buffer as the task's mapping delivered it before the call, across page boundaries, cut at max - 1 and terminated |
| TaskCopy.CopyThrough | src/task/task.c:190-203 | the switches and copies in the code's order have this effect on memory and end in the kernel's directory |
| TaskCopy.AllocateHold | src/task/task.c:185-188 | hold is null exactly when no block is found, and else a zeroed page that was not live, marked only for max > 0 |
| TaskCopy.CopyStringFromTask | src/task/task.c:178-205 | the three answers and when each is given; on success translations and all other memory are kept, a string clear of hold is delivered, and hold stays allocated |
| TaskStrings.LoadedString | src/task/task.c:191-194 | the string at an address inside a loaded header is the text loaded at elf_memory + p_offset |
| TaskStrings.TextIsClear | src/task/task.c:185-197 | such a text is clear of hold when its bytes lie neither in hold nor in the tables and its addresses not in the page of hold |
| TaskStrings.LoadedStringServed | src/task/task.c:178-205 | copying it puts the bytes loaded at elf_memory + p_offset + a into the buffer, and a zero byte behind them |
| ProcessHeap.Process.FreeAllocIndex | src/task/process.c:254-264 | the least empty slot, or -ENOMEM |
| ProcessHeap.Process.IsProcessPointer | src/task/process.c:281-289 | true exactly for recorded values, 0 included |
| ProcessHeap.Process.MarkFreeAllocation | src/task/process.c:291-298 | only the first slot with the pointer is emptied |
| ProcessHeap.Process.Malloc | src/task/process.c:266-279 | what is recorded, returned, allocated and zeroed, with all other memory kept, also when no slot is left and the block is lost |
| ProcessHeap.Process.Free | src/task/process.c:300-307 | slots and heap change only for a recorded pointer |
| ProcessHeap.UnownedFreeExact | src/task/process.c:281-307 | freeing a pointer not recorded, or 0, changes nothing exactly when it is not 0, no slot is empty, or the byte 4096 places below the table is 0 |
| ProcessHeap.SoundMalloc | src/task/process.c:266-279 | a satisfied request adds one live chain that no process recorded before, records it if a slot is empty, and keeps all other records |
| ProcessHeap.SoundFree | src/task/process.c:300-307 | freeing an owned pointer releases exactly its chain and no block recorded elsewhere |
| ProcessHeap.UnownedFree | src/task/process.c:300-307 | freeing a non-zero pointer the process does not own changes nothing |
| ProcessHeap.RunSound | src/task/process.c:254-307 | over every run by any number of processes the recorded pointers are pairwise different first blocks of live chains |
| ProcessHeap.SoundStart | src/task/process.c:254-264 | processes with empty slots over any exact table are sound |
| ProcessHeap.Perform | src/task/process.c:266-307 | a call on one process's slots in place is one step of the run for all processes |
| ProcessHeap.Execute | src/task/process.c:266-307 | any sequence of calls by any processes ends in the state of the run |
| TaskList.Tasks.Append | src/task/task.c:55-64 | the task becomes the last, and the current one only in an empty list |
| TaskList.Tasks.GetNextTask | src/task/task.c:78-84 | the successor of the current task, or the head |
| TaskList.Tasks.Switch | src/task/task.c:117-121 | a listed task becomes the current one and the list is kept |
| TaskList.Tasks.Remove | src/task/task.c:89-109 | the list without the task, the choice of the current task, and that the list is well formed again exactly when the last task was removed |
| TaskList.Tasks.RoundRobin | src/task/task.c:78-84 | one round of get_next_task visits each task once in list order, and leads back to the start after exactly the list's length |
| TaskRuns.CursorInside | src/task/task.c:55-121 | over every run the current index stays inside the list |
| TaskRuns.Perform | src/task/task.c:55-121 | one operation on the linked list is one step of a sequence with a cursor |
| TaskRuns.Run | src/task/task.c:55-121 | every run of appending, switching and removing the tail keeps a well-formed doubly linked list that refines the sequence with its cursor |
| TaskLife.NewTask | src/task/task.c:42-72 | 1027 fresh pages, an identity address space, no other word written, and the task appended |
| TaskLife.TaskFree | src/task/task.c:111-115 | the pages of the last task are released and it leaves the list |
| TaskLife.TaskMemoryRestored | src/task/task.c:111-115 | what task_free gives back is what new_task took, whatever was mapped in between |
| TaskLife.FailedLoad | src/task/process.c:199-221 | creating a task, mapping a program and freeing the task restores heap table, task list and current task, leaves every other address space as it was, and writes only blocks that were not live |
| PageLife.OtherSpaceKept | src/memory/paging/paging.c:18-39 | a space that is live while fresh pages are taken and written has none of them and keeps its map |
| TaskSpaces.NewApart | src/task/task.c:42-72 | a new task shares no page with any other task and leaves their maps alone |
| TaskSpaces.MapApart | src/task/process.c:128-152 | mapping one task's program keeps all tasks apart and all other maps as they are |
| TaskSpaces.FreeApart | src/task/task.c:111-115 | freeing the last task leaves the homes of all others live and apart |
| TaskSpaces.Perform | src/task/task.c:42-115 | each operation in place keeps all tasks apart, and the list entry and map of every task it is not about |
| TaskSpaces.Run | src/task/task.c:42-115 | over every run of creating, mapping and freeing tasks no two share a page, 1027 blocks are taken per task, and a task the run neither maps nor frees keeps every entry of its address space |
| DiskStreamer.ReadTwiceIsOnce | src/disk/disk_streamer.c:35-63 | reading a and then b bytes is reading a + b bytes |
| DiskStreamer.DiskStream.ReadBlock | src/disk/disk.c:67-74 | one sector of the primary disk, -EIO for any other |
| DiskStreamer.SplicedParts | src/disk/disk_streamer.c:52-54 | splicing replaces exactly the bytes from the given index on by the new ones |
| DiskStreamer.DiskStream.Read | src/disk/disk_streamer.c:35-63 | terminates, puts byte pos + j of the disk into byte j of the buffer for every j below total and keeps all other bytes, advances pos by total, also for reads ending on a sector boundary |
| Fat16.AlignedRead | src/filesystem/fat/fat16.c:313-349 | walking from the start for every cluster equals one linear walk from the cluster of the offset |
| Fat16.AlignedReadFails | src/filesystem/fat/fat16.c:281-306 | an aligned read fails exactly when an entry on the way to its last cluster is one of the listed stop values |
| Fat16.FittingRead | src/filesystem/fat/fat16.c:313-349 | a read that is aligned or stays inside one cluster returns the file's bytes |
| Fat16.UnalignedWrong | src/filesystem/fat/fat16.c:326-335 | every other read returns wrong bytes on a volume of two clusters given explicitly |
| Fat16.ReadExact | src/filesystem/fat/fat16.c:313-349 | exactly the aligned reads and those inside one cluster return the file's bytes on every volume and chain |
| Fat16.AlignedReadIsFile | src/filesystem/fat/fat16.c:313-349 | an aligned read is the file's bytes, and fails exactly when the file is too short |
| Fat16.FileTooShort | src/filesystem/fat/fat16.c:281-306 | the file's bytes are missing exactly when an entry before the last of their clusters is a stop value |
| Fat16.AlignedRecords | src/filesystem/fat/fat16.c:503-523 | records that all start on cluster boundaries are the file's bytes in order, and fail exactly when these are missing |
| Fat16.ClusterStart | src/filesystem/fat/fat16.c:238-241 | cluster c begins (c - 2) clusters behind the end of the root directory, in bytes |
| Fat16.FileOnDisk | src/filesystem/fat/fat16.c:313-349 | the bytes of a file whose chain of clusters is given lie in these clusters on the disk, byte by byte |
| Fat16.ContiguousFile | src/filesystem/fat/fat16.c:238-241 | a file in clusters c, c + 1, and so on is the one slice of the disk that begins at ending sector * 512 + (c - 2) * cluster size |
| Fat16.RecordsOnDisk | src/filesystem/fat/fat16.c:503-523 | records on cluster boundaries fill the buffer with the bytes of the chain's clusters on the disk |
| Fat16.FatReader.GetClusterForOffset | src/filesystem/fat/fat16.c:274-311 | the cluster after offset / size hops, or -1 exactly when an entry on the way is 0xff8, 0xfff, 0xff7, 0xff0, 0xff6 or 0 |
| Fat16.PartOfWhole | src/filesystem/fat/fat16.c:313-349 | what reaches the buffer of a read that succeeds is all of it |
| Fat16.AlignedPart | src/filesystem/fat/fat16.c:313-349 | what an aligned read leaves behind, also when it fails, is the file's bytes up to the first cluster the chain does not reach |
| Fat16.RecordsWhole | src/filesystem/fat/fat16.c:503-523 | what reaches the buffer of records that are all read is all of them |
| Fat16.FatReader.ReadInternal | src/filesystem/fat/fat16.c:313-349 | the recursion terminates on the remaining total, and the whole buffer afterwards is given, for success and for failure |
| Fat16.FatReader.Read | src/filesystem/fat/fat16.c:503-523 | the number of records, or -EIO exactly when one of them fails, and in both cases the whole buffer afterwards |
| PathSpec.JoinParses | src/filesystem/path_parser.c:67-106 | joined proper components parse back to themselves |
| PathSpec.PrintParses | src/filesystem/path_parser.c:122-157 | a digit, ":/" and non-empty slash-free components of total length at most 108 parse to exactly that drive and list |
| PathSpec.ParsePrintParses | src/filesystem/path_parser.c:122-157 | printing an accepted path's result and parsing again gives the same result, and every component with its terminator fits 108 bytes |
| PathSpec.StopsAtEmpty | src/filesystem/path_parser.c:81-84 | parsing stops at the first empty component: the text is the joined components and a rest that ends there |
| PathSpec.AcceptedExact | src/filesystem/path_parser.c:21-46 | exactly the texts of at most 108 bytes that begin with a digit, ':' and '/' are accepted, with the digit as drive |
| PathSpec.AcceptedIsPrinted | src/filesystem/path_parser.c:122-157 | an accepted path is its printed drive and components and a rest that begins where parsing stops |
| PathParser.GetPathPart | src/filesystem/path_parser.c:67-87 | the name up to the slash in a zeroed block, cursor behind the slash; for an empty name null and the block given back |
| PathParser.ParsePathPart | src/filesystem/path_parser.c:89-106 | one more node, linked behind the last of the same parts as before, with the root kept |
| PathParser.Parse | src/filesystem/path_parser.c:122-157 | null and nothing changed exactly for bad paths; else a root whose acyclic list in memory is the drive and the components, in 2n + 1 fresh blocks, all other memory but one freed block untouched |
| PathParser.PathFree | src/filesystem/path_parser.c:108-120 | walking the list in memory releases every name, every node and the root, each exactly once |
| PathParser.ParseThenFree | src/filesystem/path_parser.c:108-157 | parse and free restore the heap table entry for entry, for any number of components |
| Keyboard.IndexWraps | src/keyboard/keyboard.c:32-34 | because 1024 divides 2^32, a wrapped counter indexes the cell of the unwrapped one |
| Keyboard.PushExact | src/keyboard/keyboard.c:42-54 | pushing appends to the queue exactly when fewer than 1024 characters are queued |
| Keyboard.PopExact | src/keyboard/keyboard.c:56-73 | popping takes the oldest character, or answers 0 and changes nothing when there is none |
| Keyboard.BackspaceExact | src/keyboard/keyboard.c:36-40 | backspace drops the newest character exactly when there is one |
| Keyboard.RunRefines | src/keyboard/keyboard.c:32-73 | over every allowed run all answers and the contents agree with the queue, and unused cells are 0 |
| Keyboard.KeyboardBuffer.Push | src/keyboard/keyboard.c:42-54 | the in-place push has the specified effect on cells and counters |
| Keyboard.KeyboardBuffer.Pop | src/keyboard/keyboard.c:56-73 | the in-place pop has the specified answer and effect |
| Keyboard.KeyboardBuffer.Backspace | src/keyboard/keyboard.c:36-40 | the in-place backspace has the specified effect |
| Keyboard.Execute | src/keyboard/keyboard.c:32-73 | any allowed sequence of calls on the buffer in place answers as the queue does |
| Itoa.DecimalRead | programs/stdlib/src/stdlib.c:13-38 | the decimal text reads back as the number and has no leading zero |
| Itoa.DigitCharIs | programs/stdlib/src/stdlib.c:25 | the character of a digit is the digit's |
| Itoa.DecimalLength | programs/stdlib/src/stdlib.c:14-16 | a 32-bit integer takes at most eleven characters, and exactly eleven from -10^9 downwards |
| Itoa.PrintNegated | programs/stdlib/src/stdlib.c:24-27 | the digit loop on the negated value neither overflows nor leaves the buffer, and writes the digits |
| Itoa.Itoa | programs/stdlib/src/stdlib.c:13-38 | for every 32-bit integer the text at loc is its decimal text; loc reaches 0 exactly for ten-digit negative numbers |
| Witnesses.OverlargeRequest | src/memory/heap/heap.c:91-95 | a request for 25601 blocks on the fresh heap is answered by block 0 and leaves a table that encodes nothing |
| Witnesses.RoundingWraps | src/memory/heap/heap.c:55-61 | a request for 0xfffff001 bytes asks for no block |
| Witnesses.FarBlock | src/memory/heap/heap.c:99-147 | block 2^19 converts back to -2^19 |
| Witnesses.FreeNull | src/task/process.c:281-307 | freeing 0 clears the byte 4096 places below the table |
| Witnesses.HeaderRemapped | src/task/process.c:108-123 | a later read-only header takes the write permission of an earlier one |
| Witnesses.MiddleRemoval | src/task/task.c:89-109 | after removing the second of three tasks the last one points back to it |
| Witnesses.BaseForgotten | src/loader/formats/elfloader.c:95-101 | a load entry at 0 followed by one at 0x5000 gives the base 0x5000 |
| Witnesses.FullPush | src/keyboard/keyboard.c:42-54 | a push into a ring of 1024 characters breaks it |
| Witnesses.EmptyBackspace | src/keyboard/keyboard.c:36-40 | a backspace in an empty ring breaks it |
| Witnesses.UnalignedRead | src/filesystem/fat/fat16.c:326-335 | with one sector per cluster, reading 512 bytes from byte 1 on returns wrong bytes |

## Left out

- The heap table lies in an array of its own, apart from the memory that the heap hands out; in the kernel both are RAM at different addresses.
- ELF and program headers are given as values; reading their bytes and the header checks are not part of this model.
- Paging flags are at most twelve bits, as in every call of the kernel.
- The signed offset in `paging_new_4gb` is taken to wrap around, which is what the code relies on for the upper half of the address space.
- TaskCopy.CopyStringFromTask: the length is not negative, and `hold` stays allocated on success because the code never frees it; its promises are given when the kernel's directory is the identity and the buffer lies outside both address spaces and `hold`; the delivered string, moreover, when it does not lie in the page of `hold`.
- AddressSpace.ProgramLoaded: physical ranges end at or below 0xfffff000, where rounding up does not wrap; above it the mapping call fails, which MapElf states.
- TaskLife.FailedLoad: covers the task only; the process structure, the loaded file and the stack, which the code does not release either, are not part of it, and the failure branches of `task_init` and `new_task` are not modelled.
- Process structures, task links and the keyboard buffer are Dafny objects and not bytes of RAM.
- Loading file contents and the choice of a process slot (`process_load_data`, `get_free_slot`).
- Out-of-memory paths that dereference null (`paging_new_4gb`, the path parser): enough free blocks are required.
- `fat16_get_fat_entry`: the next cluster is an arbitrary 16-bit function of the cluster, so nothing is claimed of the multiplication at src/filesystem/fat/fat16.c:257.
- Fat16.FatReader.Read: byte positions of the chain must fit a signed 32-bit integer, and the cluster stream is one of the primary disk, whose sector reads do not fail.
- FAT16 directories, names, seeking and first-cluster words.
- DiskStreamer.DiskStream.Read: positions and lengths are not negative and their sum fits an int.
- ATA polling; the disk is a function from positions to bytes.
- Keyboard calls without a current process or task, and the list of keyboards.
- TaskList.Tasks.Append: the list operations start from a well-formed list; what they do after a removal in the middle is not modelled.
- Itoa.Itoa: the buffer is new for every call, while the code returns the same static one.
- `strnlen`, `strlen` and `memcmp` are read as operations on byte sequences; the unused parameter `current_directory_path` is dropped.
- Descriptors (`src/filesystem/file.c`), GDT, IDT, TSS, the terminal, the scancode table and assembly: table look-ups, field copies and hardware effects.
