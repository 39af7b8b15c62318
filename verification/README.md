# GeexOS: a verified model of its loader and kernel cores

GeexOS is a small kernel with its own second-stage boot loader. This project models the parts of
both that are easy to get wrong and proves what they keep: two allocators, the intrusive lists and the
hash table they hang on, the way physical memory travels from the firmware's map to the kernel's
frame bitmap, the FAT reader, the loader of images with their libraries, the page tables, 64-bit
division and the pattern matcher.

Every class keeps the fields the original has and changes them in place; ghost fields say what the
fields stand for (the blocks of an arena, the elements of a list, the set a table holds), `Valid()` ties
the two together, and each method's contract gives the new abstract state. The properties of a whole
run are lemmas about the abstract state, or follow because every method keeps `Valid()`.

| file | what it models |
|---|---|
| `Heap.dfy` | the loader's heap: `HeapLayout` is the arena as a row of blocks with its laws over runs of calls, `StageTwoHeap` the words of the arena, with the free list threaded through them, that refine it |
| `SlabObjects.dfy`, `SlabList.dfy` | slabs, and the kernel's doubly linked list |
| `HashTable.dfy` | the kernel's intrusive hash table, with resizing |
| `LargeCache.dfy` | the slab cache for large objects, built on the two above |
| `MemoryTypes.dfy`, `MapEntries.dfy`, `MapFill.dfy`, `MemoryMap.dfy` | memory types on both sides, the entries of the firmware map, what adding ranges to it comes to, and the code that adds them |
| `Memmove.dfy`, `MapBytes.dfy` | both versions of memmove, and the firmware map as the bytes they move |
| `PageTable.dfy` | the loader's page lookup table and its allocator |
| `Handoff.dfy` | run-length encoding of that table into descriptors, and decoding into the kernel's bitmap |
| `Bitfield.dfy`, `FrameAllocator.dfy` | the kernel's bitmap and its frame allocator |
| `FatTable.dfy`, `FatFile.dfy` | file allocation tables of 12, 16 and 28 bits; chains, directories and files |
| `ImageList.dfy`, `ElfLoader.dfy` | the circular list of images; loading an image with all it needs |
| `Paging.dfy` | two-level page tables as a flat map |
| `Division.dfy` | 64-bit division for a 32-bit machine |
| `Glob.dfy` | the recursive pattern matcher |
| `Bits.dfy`, `Outcome.dfy` | powers of two and masks; results of calls that may stop the machine |

A panic is the value `Panic` of `Outcome`. Disk contents are a function from sector numbers to bytes, files
a function from paths to what reading them comes to, and whether memory can be had for a hash table a parameter.

## Where the code departs from its intent

The code is modelled as it is; each departure has its exact condition.

- `heap_free` into an empty list links the node to itself (`StageTwoHeap.Heap.PutOnEmptyList`,
  `StageTwoHeap.SelfLinkIsNoList`; a run that does it is `StageTwoHeap.FillThenFree`). The runs of `HeapLayout` never
  do: `HeapLayout.Step` asks for a free block.
- A range without pages added to the memory map becomes a terminator and cuts the map short, unless the table is
  full, the page is covered or nothing lies above it (`MemoryMap.AddMapEntry`, `MemoryMap.EmptyRangeHarmless`).
- The loader's `memmove` is off by one when it moves upward. It is right exactly if two pairs of bytes happen to
  agree (`Memmove.LoaderMemmoveRight`); in the memory map the entry that room is made below takes on the type of
  the slot above it (`Memmove.ShiftLosesTypeByte`, `MapBytes.LoadersShift`). The map is proved with this memmove and
  with one that keeps its promise. With the loader's, one insertion keeps first-writer-wins exactly if no entry had to
  move or the old slots `i` and `i + 1` have the same type (`MemoryMap.InsertAt`); a whole call keeps it exactly if
  that holds wherever it makes room (`MemoryMap.FirstWriterWins`, `MemoryMap.AddMapEntry`). A bad page that turns
  free is `MemoryMap.LostType`; ranges in ascending order over the loader's own table are safe
  (`MapFill.AscendingRanges`).
- A table that fills up loses the rest of a range: all of it gets in exactly if there is an entry left for each gap
  (`MapFill.FillLength`, `MapFill.FillAllExactly`).
- The kernel's addresses have 32 bits, so pages 2^20 apart share a frame when they are marked. Up to 4 GiB nothing of
  that shows (`Handoff.WithinFourGigabytes`); beyond, the bitmap is right exactly if no page from number 2^20 on that
  is to be marked falls on one of the kernel's frames (`Handoff.RightExactly`).
- The size of a directory's buffer is a 32-bit product: the directory fits exactly if its size has 32 bits
  (`FatFile.DirectoryFits`).
- `memory_mark_pages` accepts one page more than the table describes (`PageTable.MarkAcceptsOneTooMany`), and
  `memory_allocate` rounds down, so the pages cover the bytes exactly if the size is a multiple of the page size
  (`PageTable.RoundedDown`).
- The kernel numbers memory types differently from the loader, since its enumeration lacks one name. A recorded type ends up
  marked as the kernel intends except for five types (`MemoryTypes.NumberingAgrees`). A descriptor for any type
  counts against the limit, even one that would not be recorded (`Handoff.LoaderBlock.AddPhysicalMemoryBlock`), and the
  table's last page is dropped (`Handoff.LoaderBlock.BuildPhysicalMemoryMap`).
- The frame allocator's constructor takes kilobytes but is given bytes: the frame count is right only for no
  memory at all (`FrameAllocator.FrameCountOfBytes`). The search for a clear bit looks at whole words
  only (`Bitfield.Bits.GetFirstClearedIndex`).
- `Clear` keeps the item count, so the table is sound afterwards exactly if it was empty (`HashTable.BHashTable.Clear`).
- `fat_read` does not move the file pointer over the last, partial cluster (`FatFile.PointerKeepsUp` says when
  that shows).
- A library whose name has a slash or more than 31 characters is not found after it has been loaded
  (`ElfLoader.FoundAfterLoading`), however often it has been loaded (`ElfLoader.NotFoundAmongCopies`), so it is loaded
  again each time it is needed.
- `__moddi3` gives the remainder the quotient's sign, against section 6.5.5 of C99: right exactly if the denominator
  is positive or the remainder is zero (`Division.DivideBack`).
- A translation of 0 does not mean that a page is not mapped (`PageTables.ZeroIsAmbiguous`).

## Model

| member | source | states |
|---|---|---|
| HeapLayout.BlocksDisjoint | bootloader/stage2/stage2/src/heap.c:41-61 | blocks, with their headers, never overlap: a byte lies in one block only |
| HeapLayout.SizesMakeUpArena | bootloader/stage2/stage2/src/heap.c:41-61 | conservation: headers and payloads of free and live blocks add up to the arena |
| HeapLayout.TakenSize | bootloader/stage2/stage2/src/heap.c:124-149 | a block handed out holds at least the request and less than the request plus a list node, and lies at the upper end of the chunk it came from |
| HeapLayout.WhatIsServed | bootloader/stage2/stage2/src/heap.c:70-154 | the block served, in terms of the bytes asked for and not of the length they are raised to |
| HeapLayout.AllocKeepsLayout | bootloader/stage2/stage2/src/heap.c:70-154 | splitting or taking a chunk keeps the arena tiled without gaps, and no two free chunks adjacent |
| HeapLayout.AllocAddsOneLive | bootloader/stage2/stage2/src/heap.c:70-154 | allocation adds exactly the block taken to the live ones, and it was not live before |
| HeapLayout.FreeKeepsLayout | bootloader/stage2/stage2/src/heap.c:156-218 | coalescing on both sides keeps the arena tiled and leaves no two free chunks adjacent |
| HeapLayout.FreeRemovesOneLive | bootloader/stage2/stage2/src/heap.c:156-218 | freeing removes exactly the one block from the live ones, whatever merges |
| HeapLayout.StepKeepsLayout | bootloader/stage2/stage2/src/heap.c:70-218 | every allocation or release keeps the arena well formed |
| HeapLayout.StepUpdatesLive | bootloader/stage2/stage2/src/heap.c:70-218 | the addresses in use change by exactly the one handed out or given back |
| HeapLayout.RunKeepsHeap | bootloader/stage2/stage2/src/heap.c:41-218 | over every run that never frees into an empty list the arena stays well formed and the live addresses are those handed out and not given back |
| HeapLayout.NeverHandedOutTwice | bootloader/stage2/stage2/src/heap.c:70-154 | no run hands out an address that is still in use |
| HeapLayout.AllFreedRestoresHeap | bootloader/stage2/stage2/src/heap.c:156-218 | once everything has been freed, in any order, the heap is again the single chunk that heap_create made |
| StageTwoHeap.FreeListOrdered | bootloader/stage2/stage2/src/heap.c:156-218 | the free list is strictly ordered by address, with no two chunks overlapping |
| StageTwoHeap.SelfLinkIsNoList | bootloader/stage2/stage2/src/heap.c:177-204 | a node linked to itself is the head of no finite list |
| StageTwoHeap.Heap.constructor | bootloader/stage2/stage2/src/heap.c:41-61 | the arena is one free chunk from behind the heap's header, of a size, a pointer and two counters, to its limit, in blocks, words and links |
| StageTwoHeap.Heap.Search | bootloader/stage2/stage2/src/heap.c:81-112 | the loop finds the earliest chunk of least sufficient size, with its predecessor, or says that none suffices |
| StageTwoHeap.Heap.TakeFromList | bootloader/stage2/stage2/src/heap.c:70-154 | the words written are the two sizes of a split or the one link past the chunk, and the links spell out the list without it, or with what is left of it |
| StageTwoHeap.Heap.Alloc | bootloader/stage2/stage2/src/heap.c:70-154 | it panics exactly if no free block holds the bytes asked for and a link; otherwise the address is that of a live block that holds them and wastes less than a list node, from the upper end of the earliest of the smallest free blocks that do; no word of a live block changes |
| StageTwoHeap.Heap.Split | bootloader/stage2/stage2/src/heap.c:133-148 | the upper part of the chunk is cut off and the chunk keeps its place on the list, its link untouched by the sizes written |
| StageTwoHeap.Heap.Unlink | bootloader/stage2/stage2/src/heap.c:124-132 | the chunk leaves the list and the others keep their order |
| StageTwoHeap.Heap.Walk | bootloader/stage2/stage2/src/heap.c:186-204 | the two pointers stop at the neighbours of the freed node in address order |
| StageTwoHeap.Heap.PutOnList | bootloader/stage2/stage2/src/heap.c:186-218 | the words written are exactly the links and sizes of the list with the node entered in order and joined to its neighbours |
| StageTwoHeap.Heap.PutOnEmptyList | bootloader/stage2/stage2/src/heap.c:170-204 | freed into an empty list the node is linked to itself, and no list of blocks whatever is what the head then begins |
| StageTwoHeap.Heap.Free | bootloader/stage2/stage2/src/heap.c:156-218 | the freed block becomes free and is joined with the free blocks on either side; the list in memory is that of the new blocks; no word of another live block changes |
| StageTwoHeap.Heap.UserStore | bootloader/stage2/stage2/src/heap.c:142-148 | a store into any word of a live block's payload leaves the heap sound and its blocks as they were |
| StageTwoHeap.AllocKeepsWords | bootloader/stage2/stage2/src/heap.c:124-149 | sizes, links and payloads share one memory: what allocation writes is no other block's size and no word of a live block |
| StageTwoHeap.FreeKeepsWords | bootloader/stage2/stage2/src/heap.c:186-218 | what freeing writes is no other block's size and no word of another live block |
| StageTwoHeap.FillThenFree | bootloader/stage2/stage2/src/heap.c:170-204 | the failing run: the whole heap is handed out and given back, and the head begins no list |
| SlabList.DoublyLinkedList.Append | kernel/kernel/include/kernel/DataStructures/DoublyLinkedList.h:70-86 | the element becomes the last, and both directions of links agree |
| SlabList.DoublyLinkedList.Prepend | kernel/kernel/include/kernel/DataStructures/DoublyLinkedList.h:89-105 | the element becomes the first |
| SlabList.DoublyLinkedList.InsertBefore | kernel/kernel/include/kernel/DataStructures/DoublyLinkedList.h:108-129 | the element stands just before the given one, those below and above it in order |
| SlabList.DoublyLinkedList.InsertAfter | kernel/kernel/include/kernel/DataStructures/DoublyLinkedList.h:132-153 | the element stands just after the given one, those below and above it in order |
| SlabList.DoublyLinkedList.Remove | kernel/kernel/include/kernel/DataStructures/DoublyLinkedList.h:156-172 | exactly the element leaves the list |
| SlabList.RemovedAt | kernel/kernel/include/kernel/DataStructures/DoublyLinkedList.h:156-172 | after a removal the elements below stay where they were, those above move down by one |
| HashTable.ResizeNeeded | kernel/kernel/include/kernel/DataStructures/HashTable.h:193-218 | no oscillation: it asks for nothing exactly if the size suits; any size it asks for is a power of two of at least 8, suits the count, and is the nearest that does |
| HashTable.SuitsMeans | kernel/kernel/include/kernel/DataStructures/HashTable.h:193-218 | a size suits exactly if the items and one more fill at most 200 of 256 parts of it and, above 8 buckets, more than 50 |
| HashTable.TargetUnique | kernel/kernel/include/kernel/DataStructures/HashTable.h:193-218 | there is only one size that it can ask for |
| HashTable.LimitsMonotone | kernel/kernel/include/kernel/DataStructures/HashTable.h:193-218 | a table that has just been doubled is not too large, one just halved not too small |
| HashTable.BucketIsRemainder | kernel/kernel/include/kernel/DataStructures/HashTable.h:85-102 | under a power-of-two size the mask selects the hash modulo the size |
| HashTable.BHashTable.Lookup | kernel/kernel/include/kernel/DataStructures/HashTable.h:85-102 | an item with the key is found exactly if the set has one |
| HashTable.BHashTable.InsertInto | kernel/kernel/include/kernel/DataStructures/HashTable.h:235-242 | the item becomes the head of the chain its hash selects; the other chains stay |
| HashTable.BHashTable.MoveChain | kernel/kernel/include/kernel/DataStructures/HashTable.h:265-276 | one chain's items, and no others, move to the chains of the new storage that their hashes select |
| HashTable.BHashTable.DoResize | kernel/kernel/include/kernel/DataStructures/HashTable.h:259-285 | after rehashing the set and the count are what they were, and each item is on the one chain its hash selects under the new size |
| HashTable.BHashTable.ExhaustiveSearch | kernel/kernel/include/kernel/DataStructures/HashTable.h:287-305 | walking every chain finds exactly the members |
| HashTable.BHashTable.Insert | kernel/kernel/include/kernel/DataStructures/HashTable.h:104-121 | it adds exactly the item, or fails for want of memory, or panics exactly on a duplicate it was told to look for; the size after it |
| HashTable.BHashTable.Remove | kernel/kernel/include/kernel/DataStructures/HashTable.h:123-159 | it removes exactly the item, reports whether it was there, and the size after it |
| HashTable.BHashTable.Resize | kernel/kernel/include/kernel/DataStructures/HashTable.h:220-233 | a resize never changes the set; unforced, it happens only from a size that does not suit to one that does |
| HashTable.BHashTable.Clear | kernel/kernel/include/kernel/DataStructures/HashTable.h:161-191 | the chains are emptied and handed back as one chain of every item; the count is left, so the table is sound exactly if it was empty |
| LargeCache.LowerBoundaryFindsStart | kernel/kernel/include/kernel/Memory/Slab/LargeCache.h:76-76 | masking an address of a region gives the start of the region |
| LargeCache.RegionNumber | kernel/kernel/include/kernel/Memory/Slab/LargeCache.h:76-76 | a region is 2^order pages of 4096 bytes, and the hash of an address the number of its region |
| LargeCache.TakeFirst | kernel/kernel/src/Memory/Slab/LargeCache.cpp:31-34 | the first index of the free chain is taken and the rest of the chain stays |
| LargeCache.PutFirst | kernel/kernel/src/Memory/Slab/LargeCache.cpp:66-71 | the index becomes the first of the free chain |
| LargeCache.FreshSlab | kernel/kernel/src/Memory/Slab/LargeCache.cpp:91-103 | the chain of a new slab visits each object exactly once |
| LargeCache.IsFullMeansAllInUse | kernel/kernel/include/kernel/Memory/Slab/Slab.h:23-33 | a slab is full exactly if its chain of unused objects is empty, which is if every object is in use |
| LargeCache.SomeInUse | kernel/kernel/include/kernel/Memory/Slab/Slab.h:23-33 | a slab with an object off its chain has some in use |
| LargeCache.NoneInUse | kernel/kernel/include/kernel/Memory/Slab/Slab.h:23-33 | a slab without objects in use has each of them on its chain |
| LargeCache.Cache.ResizeHashTableIfNeeded | kernel/kernel/src/Memory/Slab/LargeCache.cpp:129-145 | the table still maps every slab, and with memory at hand its size suits afterwards |
| LargeCache.Cache.Grow | kernel/kernel/src/Memory/Slab/LargeCache.cpp:83-112 | a new empty slab is first on the free list and in the table, whose size suits if there was memory for that; nothing live changes |
| LargeCache.Cache.AddressUnique | kernel/kernel/src/Memory/Slab/LargeCache.cpp:31-31 | objects of different slabs or indices have different addresses |
| LargeCache.Cache.GetNonEmptySlab | kernel/kernel/src/Memory/Slab/SlabCache.cpp:35-64 | a slab with room: the first partial one, else the first free one, else a new one, the only one added |
| LargeCache.Cache.AllocateObject | kernel/kernel/src/Memory/Slab/LargeCache.cpp:17-45 | the address was not live and is the only one added; it is that of the first unused object of the first partial slab, else of the first free one, else the start of the region given for the one new slab; every slab is again on the list its use count dictates |
| LargeCache.Cache.OwnerOfLive | kernel/kernel/src/Memory/Slab/LargeCache.cpp:47-58 | every live address belongs to a slab and index, and its region's start is that slab's |
| LargeCache.Cache.FreeObject | kernel/kernel/src/Memory/Slab/LargeCache.cpp:47-81 | exactly the address stops being live, by way of the slab the hash table finds for it, and is that slab's next to be handed out; the count of objects is the number live; the table's size suits if there was memory for that |
| LargeCache.Cache.ReleaseUnusedMemory | kernel/kernel/src/Memory/Slab/SlabCache.cpp:136-144 | exactly the slabs without live objects go, and nothing live changes; the table's size suits if there was memory for that |
| LargeCache.Cache.ReleaseSlab | kernel/kernel/src/Memory/Slab/LargeCache.cpp:114-127 | the table maps every other slab and not this one, and its size suits their number if there was memory for that |
| LargeCache.CountRegions | kernel/kernel/src/Memory/Slab/LargeCache.cpp:97-108 | no more slabs than regions in the address space, so resizing cannot overflow |
| MemoryTypes.NumberingAgrees | kernel/libhalx86/include/arch/internal/KernelInfo.h:9-25 | with the types by name: what ends up marked is what the kernel lists except for the five types the skewed numbering and the loader's selection get wrong |
| MemoryTypes.MarkedTypes | kernel/libhalx86/src/HAL.cpp:66-77 | the six types whose pages end up marked, by name |
| MemoryTypes.ReadAs | kernel/libhalx86/include/arch/internal/KernelInfo.h:9-25 | as what type the kernel reads the number of each type recorded |
| MemoryMap.InsertKeepsOrder | bootloader/stage2/stage2/src/memory.c:64-84 | an entry that fits between its neighbours keeps the map sorted and disjoint |
| MapFill.FillAt | bootloader/stage2/stage2/src/memory.c:35-87 | page by page, filling gaps from below: what is covered stays, and the range covers the rest as far as it reaches |
| MapFill.FillLength | bootloader/stage2/stage2/src/memory.c:41-49 | one entry for each gap while there is room; all of the range gets in exactly if there is room for every gap it has pages in; at most one gap more than there are entries |
| MapFill.FillGap | bootloader/stage2/stage2/src/memory.c:64-76 | filling the lowest gap and going on from the entry put in is filling the whole range |
| MapFill.FillAllExactly | bootloader/stage2/stage2/src/arch/i386/memory.c:31-90 | over a run, each page has the type of the first range that covers it exactly if there is room for each gap |
| MapFill.EnoughRoom | bootloader/stage2/stage2/src/arch/i386/memory.c:31-90 | there is room for any ranges whatever if the table holds the entries there are, one more for each gap they leave, and two more for each range but the last |
| MapFill.AscendingRanges | bootloader/stage2/stage2/src/arch/i386/memory.c:9-24 | over the loader's own table ranges that ascend come in their turn, a first one from page 0 included, and 27 of them have room |
| MemoryMap.FirstWriterWins | bootloader/stage2/stage2/src/memory.c:64-84 | what the code adds is first-writer-wins exactly if each entry that room is made below has the type of the slot above it; always with a memmove that keeps its promise |
| MemoryMap.PutInAdds | bootloader/stage2/stage2/src/memory.c:64-84 | page by page, one insertion: entries keep their pages, each with the type it ends up with, the new entry's pages get the new type, nothing else is covered |
| MemoryMap.ThenTheRest | bootloader/stage2/stage2/src/memory.c:74-75 | an insertion and the recursive call for the rest of the range add up to the whole range, wrong types included |
| MemoryMap.MoveUp | bootloader/stage2/stage2/src/memory.c:66-67 | the slots after the shift, for the loader's memmove and for one that keeps its promise |
| MapBytes.PromisedShift | bootloader/stage2/stage2/include/memory.h:31-35 | the bytes of the table moved as memmove promises are those of the shifted entries |
| MapBytes.LoadersShift | bootloader/stage2/stage2/src/lib.c:163-181 | the bytes moved by the loader's memmove are those of the shifted entries with the types it gets wrong, the slot above the last one included |
| MemoryMap.FindPlace | bootloader/stage2/stage2/src/memory.c:41-45 | the loop counts the entries and finds the first that ends above the range's start |
| MemoryMap.SkipCovered | bootloader/stage2/stage2/src/memory.c:52-62 | every page skipped was covered already, and the rest of the range begins in a gap |
| MemoryMap.InsertAt | bootloader/stage2/stage2/src/memory.c:64-84 | the gap is filled as far as the next entry; with the loader's memmove first writer wins exactly if nothing had to move or the old slots i and i + 1 have equal types; an empty range ends the list there |
| MemoryMap.AddMapEntry | bootloader/stage2/stage2/src/memory.c:35-87 | all in terms of the old table: the number of entries, one more for each gap filled while there is room; the entries, in full if memmove keeps its promise, else but for their types; the type of every page with either memmove, and exactly when first writer wins; the map stays sorted and disjoint; the recursion ends; exactly when an empty range harms the map |
| MemoryMap.AddAll | bootloader/stage2/stage2/src/arch/i386/memory.c:31-90 | a run of calls: the table it leaves; each page has the type of the first range that covers it exactly if there is room for each gap; with the loader's own memmove too if the ranges come in their turn, each new page above the entries and ranges before |
| MemoryMap.InTurnKeepsTypes | bootloader/stage2/stage2/src/memory.c:64-71 | a range in its turn moves no entry, so none takes on a wrong type |
| MemoryMap.LostType | bootloader/stage2/stage2/src/memory.c:64-71 | a failing input: a range added below a bad page with the loader's memmove, and the page is free |
| MemoryMap.ListedStops | bootloader/stage2/stage2/src/memory.c:44-45 | an entry without pages ends the map |
| Memmove.KernelMemmove | kernel/libkcpp/src/string.cpp:25-47 | overlapping or not, the destination gets the bytes the source had, and no other byte changes |
| Memmove.LoaderMemmove | bootloader/stage2/stage2/src/lib.c:163-181 | right when moving down; moving up, every byte lands one place too far |
| Memmove.LoaderMemmoveRight | bootloader/stage2/stage2/src/lib.c:171-178 | moving up is right exactly if the bytes at both ends happen to agree |
| Memmove.ShiftLosesTypeByte | bootloader/stage2/stage2/src/memory.c:64-71 | shifting records by their size keeps each but for the first byte of the lowest, which is the old neighbour's |
| Bitfield.Bits.constructor | kernel/kernel/src/DataStructures/Bitfield.cpp:13-22 | every bit is clear |
| Bitfield.Bits.SetBit | kernel/kernel/src/DataStructures/Bitfield.cpp:29-39 | sets exactly the bit, or panics exactly outside the field |
| Bitfield.Bits.ClearBit | kernel/kernel/src/DataStructures/Bitfield.cpp:41-51 | clears exactly the bit, or panics exactly outside the field |
| Bitfield.Bits.IsBitSet | kernel/kernel/src/DataStructures/Bitfield.cpp:53-63 | tells the bit, or panics exactly outside the field |
| Bitfield.Bits.GetFirstClearedIndex | kernel/kernel/src/DataStructures/Bitfield.cpp:65-87 | the first clear bit among the whole words, or -1 exactly if they have none |
| FrameAllocator.FrameCountOfBytes | kernel/libhalx86/src/BitfieldPhysicalMemoryAllocator.cpp:10-17 | given the bytes of any number of pages, the count is that number modulo 1024, times 1024; right only for no memory |
| FrameAllocator.PhysicalAllocator.AllocateFrame | kernel/libhalx86/src/BitfieldPhysicalMemoryAllocator.cpp:19-30 | the lowest unused frame becomes used and no other changes; never a frame that is marked; panics exactly if the whole words are used up |
| FrameAllocator.PhysicalAllocator.DeallocateFrame | kernel/libhalx86/src/BitfieldPhysicalMemoryAllocator.cpp:32-36 | exactly the frame becomes unused |
| FrameAllocator.PhysicalAllocator.MarkAsUsed | kernel/libhalx86/src/BitfieldPhysicalMemoryAllocator.cpp:38-48 | exactly the frame becomes used; it panics on a used frame and on the one past the last, and ignores those above |
| FrameAllocator.PhysicalAllocator.IsFree | kernel/libhalx86/src/BitfieldPhysicalMemoryAllocator.cpp:51-59 | tells an unused frame, and panics exactly on the one past the last |
| Handoff.RunsTile | bootloader/stage2/stage2/src/loaders/geexos.c:48-75 | the runs cover the pages in order, each with the one type of its pages, neighbours differing |
| Handoff.RunsExtend | bootloader/stage2/stage2/src/loaders/geexos.c:60-74 | when the type changes the runs so far are final |
| Handoff.LoaderBlock.AddPhysicalMemoryBlock | bootloader/stage2/stage2/src/loaders/geexos.c:77-111 | appends a descriptor for the types recorded; panics exactly if the array is full, whatever the type |
| Handoff.LoaderBlock.BuildPhysicalMemoryMap | bootloader/stage2/stage2/src/loaders/geexos.c:48-75 | the descriptors are those of the recorded runs of all pages but the last; panics exactly if they are too many |
| Handoff.TooManyMeans | bootloader/stage2/stage2/src/loaders/geexos.c:79-80 | the array is full exactly if 32 runs of types that are not the loader's own come before another run |
| Handoff.MarkDescriptors | kernel/libhalx86/src/HAL.cpp:61-84 | the frames marked are exactly those of the listed descriptors' pages, under 32-bit addresses; panics exactly if one is the frame past the last or two pages share a frame |
| Handoff.DescribedFrames | bootloader/stage2/stage2/src/loaders/geexos.c:77-111 | decoding undoes encoding: a frame is in a listed descriptor exactly if its page's type survives both selections |
| Handoff.DescribedOrdered | bootloader/stage2/stage2/src/loaders/geexos.c:77-111 | descriptors are in order and do not overlap |
| Handoff.HandOver | kernel/libhalx86/src/HAL.cpp:59-84 | end to end, with the types by name: a frame is used exactly if it is that of a page that is not the last and is bad, unusable, of the page directory, or of the kernel's stack, executable or environment information; exactly when the handoff panics |
| Handoff.WithinFourGigabytes | kernel/libhalx86/src/HAL.cpp:75-76 | up to 4 GiB the frames used are the surviving pages themselves, and marking panics exactly on the frame past the last |
| Handoff.RightExactly | kernel/libhalx86/src/HAL.cpp:75-76 | beyond 4 GiB the bitmap is right exactly if no surviving page from 2^20 on falls on one of the frames |
| PageTable.LoaderMemory.MarkPages | bootloader/stage2/stage2/src/memory.c:175-192 | each page of the range gets the type, with length 0 exactly if that is free, and no other page changes; when it panics, with 64-bit wrap-around |
| PageTable.MarkAcceptsOneTooMany | bootloader/stage2/stage2/src/memory.c:177-178 | the bound check, with its 64-bit wrap-around, lets through the table's pages and one more |
| PageTable.LoaderMemory.FindAvailablePages | bootloader/stage2/stage2/src/memory.c:194-211 | the lowest run of enough free pages; panics exactly if there is none |
| PageTable.LoaderMemory.Allocate | bootloader/stage2/stage2/src/memory.c:213-230 | it succeeds exactly if a run within reach exists, takes the lowest one, whose pages were free and get the type, returns its address, and changes no other page |
| PageTable.RoundedDown | bootloader/stage2/stage2/src/memory.c:218-218 | the pages taken cover every byte asked for exactly if the size is a multiple of the page size |
| PageTable.NoOverlap | bootloader/stage2/stage2/src/memory.c:213-230 | an allocation leaves every page that is not free as it is |
| PageTable.NeverGivenTwice | bootloader/stage2/stage2/src/memory.c:175-230 | over every run of allocations and markings, a page given away under a type other than free is not given away again before it has been marked |
| PageTable.GrantsMeans | bootloader/stage2/stage2/src/memory.c:213-230 | a run is granted exactly if it ends at a 32-bit address other than 0 |
| PageTable.FoundOnce | bootloader/stage2/stage2/src/memory.c:194-211 | the run found is determined by the table |
| FatTable.GetFatEntry | bootloader/stage2/stage2/src/fs/fat.c:573-643 | reading one or two sectors gives the entry that the table has as a plain string of bytes, entries across a sector boundary included |
| FatTable.Unpack12 | bootloader/stage2/stage2/src/fs/fat.c:586-611 | unpacking undoes packing, for even and odd entries |
| FatTable.PackedTableIsRead | bootloader/stage2/stage2/src/fs/fat.c:586-611 | from the sectors of a disk that hold a packed 12-bit table each value is read back, whatever the sector size |
| FatTable.Packed16IsRead | bootloader/stage2/stage2/src/fs/fat.c:613-622 | the same for 16-bit entries |
| FatTable.Packed28IsRead | bootloader/stage2/stage2/src/fs/fat.c:624-636 | the same for 32-bit entries, of which the upper four bits do not count |
| FatFile.CountClustersInChain | bootloader/stage2/stage2/src/fs/fat.c:645-670 | the walk ends, with the length of the chain |
| FatFile.GetFatChain | bootloader/stage2/stage2/src/fs/fat.c:672-703 | the array holds exactly the chain |
| FatFile.ChainFrom | bootloader/stage2/stage2/src/fs/fat.c:523-556 | walking the table from the middle of a chain gives the rest of the chain |
| FatFile.ChainUnique | bootloader/stage2/stage2/src/fs/fat.c:645-703 | a start cluster has one chain only |
| FatFile.ChainSpelled | bootloader/stage2/stage2/src/fs/fat.c:645-703 | entries that lead from cluster to cluster and then hold a mark from FF8, FFF8 or FFFFFF8 on spell a chain |
| FatFile.ContentsAreImages | bootloader/stage2/stage2/src/fs/fat.c:523-571 | if the data area holds images of clusters one after the other, from cluster 2 on, a chain holds the images of its clusters |
| FatFile.ContentsSlice | bootloader/stage2/stage2/src/fs/fat.c:523-556 | consecutive clusters of a chain hold the corresponding slice of its bytes |
| FatFile.ReadPartialCluster | bootloader/stage2/stage2/src/fs/fat.c:558-571 | the buffer gets that part of the cluster's image in the data area, and keeps the rest |
| FatFile.ReadClusterChain | bootloader/stage2/stage2/src/fs/fat.c:523-556 | the buffer gets the images of the first clusters, up to the cap or the end mark |
| FatFile.GetDirectoryContents | bootloader/stage2/stage2/src/fs/fat.c:478-521 | the buffer made for a directory, with a size computed in 32 bits, is filled exactly with the images of its clusters, or with the root directory's sectors |
| FatFile.DirectoryFits | bootloader/stage2/stage2/src/fs/fat.c:493-498 | the buffer holds the directory exactly if the directory's size has 32 bits |
| FatFile.PartOfCluster | bootloader/stage2/stage2/src/fs/fat.c:194-200 | bytes within one cluster are found through the cached chain at that cluster and offset |
| FatFile.WholeClusters | bootloader/stage2/stage2/src/fs/fat.c:211-223 | whole clusters from a cluster boundary on are the corresponding slice of the file |
| FatFile.OpenFile.constructor | bootloader/stage2/stage2/src/fs/fat.c:435-441 | an opened file, an empty one included, is at its first byte, and the chain cached for it is the one on disk |
| FatFile.EmptyFileChain | bootloader/stage2/stage2/src/fs/fat.c:672-703 | the chain that opening an empty file caches is cluster 0 alone exactly if the media byte is F8 or above |
| FatFile.OpenFile.ReadHead | bootloader/stage2/stage2/src/fs/fat.c:192-208 | serves the request up to the end of the cluster that the file pointer is in |
| FatFile.OpenFile.ReadWhole | bootloader/stage2/stage2/src/fs/fat.c:210-227 | serves all whole clusters and leaves less than one |
| FatFile.OpenFile.Read | bootloader/stage2/stage2/src/fs/fat.c:161-245 | it returns the number of bytes of the request before the end of the file, and those bytes of the images of the chain's clusters in the data area, though head and tail use the cached chain and the middle the table on disk; the rest of the buffer stays; the file pointer after it |
| FatFile.PointerKeepsUp | bootloader/stage2/stage2/src/fs/fat.c:230-242 | the file pointer moves over all bytes read exactly if they end where a cluster ends, or stay in a cluster begun in the middle; otherwise it lacks those of the last cluster |
| ImageList.Stricmp | bootloader/stage2/stage2/src/lib.c:85-94 | zero exactly for strings that differ at most in the case of the 26 letters; otherwise the difference of the first characters that differ |
| ImageList.EqualButForCase | bootloader/stage2/stage2/src/lib.c:45-51 | each of the 26 letters is equal to its capital, any other character to itself alone |
| ImageList.DifferenceIs | bootloader/stage2/stage2/src/lib.c:90-93 | characters differ as signed numbers unless one of the strings ends there |
| ImageList.LoadedImages.AddBetween | bootloader/stage2/stage2/include/list.h:23-31 | the entry goes between two neighbours and the ring of links stays closed in both directions |
| ImageList.LoadedImages.Add | bootloader/stage2/stage2/include/list.h:33-44 | the entry becomes the first |
| ImageList.LoadedImages.Remove | bootloader/stage2/stage2/include/list.h:66-82 | exactly the entry leaves the ring, with its links cleared |
| ImageList.LoadedImages.IsImageLoaded | bootloader/stage2/stage2/src/exeformats/loader.c:35-49 | finds an image of the name, ignoring case, exactly if there is one |
| ImageList.LoadedImages.GetExecutable | bootloader/stage2/stage2/src/exeformats/loader.c:57-64 | the image at the tail, if any |
| ElfLoader.FoundAfterLoading | bootloader/stage2/stage2/src/exeformats/elfloader.c:99-100 | a library is found by its name after it was loaded exactly if the name has no slash and at most 31 characters |
| ElfLoader.PathOfLibrary | bootloader/stage2/stage2/src/exeformats/elfloader.c:500-503 | the path opened for a library is the directory searched, a slash unless it ends with one, and the name |
| ElfLoader.NotFoundAmongCopies | bootloader/stage2/stage2/src/exeformats/elfloader.c:477-513 | such a library is not found among any number of its own copies, so a dependence on itself never stops by being found |
| ElfLoader.Loader.LoadFile | bootloader/stage2/stage2/src/exeformats/elfloader.c:68-160 | for every graph, cycles included, the recursion ends; on success the new images stand before the old with the file's own last of them, complete with all they need; on failure a bad file that is reached and the file's own image gone |
| ElfLoader.Loader.LoadNeeded | bootloader/stage2/stage2/src/exeformats/elfloader.c:477-513 | each needed library is found or loaded, and the images listed for relocation are those of the files in the directory searched, in order |
| ElfLoader.ReachableExactly | bootloader/stage2/stage2/src/exeformats/elfloader.c:477-513 | onto a closed list exactly the files reached and not yet loaded are added |
| ElfLoader.Loader.LoadKernel | bootloader/stage2/stage2/src/loaders/geexos.c:20-32 | it succeeds exactly if every file reached loads its segments, has usable dynamic data and relocates; then each is loaded once, nothing else is, each library of each from the directory searched, and the kernel is the executable found at the tail |
| PageTables.PageDirectory.GetTable | kernel/libhalx86/src/x86Paging.cpp:171-185 | a missing table is made only on request, entered with its physical address and the two lowest bits, and maps nothing |
| PageTables.TableEntry | kernel/libhalx86/src/x86Paging.cpp:171-185 | such an entry shows the processor the table's page, present and writable, and no other flag |
| PageTables.PageDirectory.SetTable | kernel/libhalx86/include/arch/x86Paging.h:116-122 | both arrays change at the index only |
| PageTables.Paging.GetPhysicalAddress | kernel/libhalx86/src/x86Paging.cpp:68-88 | the walk through both levels is the translation of the flat map |
| PageTables.Paging.MapAddress | kernel/libhalx86/src/x86Paging.cpp:90-111 | the flat map changes at that page only, to the frame and flags given, and the entry that the two indices of the address lead to has them |
| PageTables.Paging.UnmapAddress | kernel/libhalx86/src/x86Paging.cpp:113-130 | exactly that page leaves the flat map; the entry keeps its user flag and a table is made if there was none |
| PageTables.Paging.MapThenUnmap | kernel/libhalx86/src/x86Paging.cpp:90-130 | over the tables themselves: mapping and unmapping a page takes exactly that page from the flat map, and changes nothing if it was not mapped |
| PageTables.Paging.IsPresent | kernel/libhalx86/src/x86Paging.cpp:132-150 | true exactly for the pages of the flat map |
| PageTables.MappedPageMoves | kernel/libhalx86/src/x86Paging.cpp:90-111 | after mapping, all addresses of the page go to the frame at their offset, and no other address moves |
| PageTables.ZeroIsAmbiguous | kernel/libhalx86/src/x86Paging.cpp:74-83 | the result 0 stands for no mapping or for the first byte of frame 0 |
| Division.UDivMod | kernel/libkcpp/src/math_support.c:9-37 | exact quotient and remainder for every 64-bit numerator and denominator but 0, with no step leaving 64 bits |
| Division.TruncatedUnique | kernel/libkcpp/src/math_support.c:52-71 | only one quotient is truncated toward zero |
| Division.DivDI3 | kernel/libkcpp/src/math_support.c:52-71 | the quotient is truncated toward zero: that of the magnitudes, with the sign of the pair |
| Division.ModDI3 | kernel/libkcpp/src/math_support.c:73-92 | the remainder of the magnitudes, with the sign of the pair instead of the numerator's |
| Division.DivideBack | kernel/libkcpp/src/math_support.c:52-92 | quotient and remainder give back the numerator exactly if the denominator is positive or divides it |
| Glob.MatchSet | bootloader/gnuefi/libefi/src/str.c:307-343 | a character passes exactly if it is in the set by the code's own rules for dashes, and the pattern goes on after the bracket |
| Glob.SetOfParts | bootloader/gnuefi/libefi/src/str.c:307-343 | a set made of single characters and ranges lets in exactly what one of them lets in, a range its ends even if they are the wrong way round |
| Glob.SetFirst | bootloader/gnuefi/libefi/src/str.c:272-356 | a pattern that begins with such a set, as text: the first character passes it and the rest matches the rest |
| Glob.CharactersOnly | bootloader/gnuefi/libefi/src/str.c:307-343 | a bracketed text without a dash matches exactly the characters in it |
| Glob.OneRange | bootloader/gnuefi/libefi/src/str.c:320-333 | [lo-hi] matches exactly the characters between, and the two ends |
| Glob.MatchRest | bootloader/gnuefi/libefi/src/str.c:289-296 | a star matches exactly if the rest of the pattern matches some suffix |
| Glob.MetaMatch | bootloader/gnuefi/libefi/src/str.c:272-356 | true exactly if the text can be cut into pieces that the pattern's tokens accept one by one; it ends on every pattern with closed sets |
| Glob.SomeSuffix | bootloader/gnuefi/libefi/src/str.c:289-296 | cutting off any piece first is matching the rest against some suffix |
| Glob.OneCharacter | bootloader/gnuefi/libefi/src/str.c:299-354 | any other token takes the first character or fails |

## Left out

- Console, serial, text-mode output, debug printing and the debugger stub: no state worth a claim.
- Descriptor tables, interrupts, inline assembly, control registers and TLB invalidation: effects on hardware.
- Firmware headers, protocol structures and wrappers around firmware calls: declarations only.
- x86Paging::Init and earlyFindPhysicalAddress: they depend on what the processor's registers hold.
- DeriveUserspaceDirectory: its index expression is no directory index, and it shares tables; page tables are modelled unshared.
- InitDone: 255 calls of GetTable with nothing new to say.
- 64-bit ELF files fail to load, as in the source, where they are a stub.
- Copying segments, relocation and symbol lookup: whether they succeed is a property of each file.
- The path of a library is assumed to fit its 255 characters, and library names to be given without slashes.
- ElfLoader.Loader.LoadFile: memory running out while loading is part of a file being bad, since the model has no memory to run out of.
- Searching FAT directories and telling the FAT type: the entry counter never advances, and the root directory's size is computed from the rounding term alone.
- Seeking in files: one assignment.
- FatFile.GetDirectoryContents: a directory chain without data clusters is not provided for, because the source would read its start mark as a cluster; nor is a directory of 2^32 bytes or more, because reading then runs past the buffer (`FatFile.DirectoryFits`).
- FatFile.OpenFile.Read: failed disk reads are not modelled, because the disk is a function of the sector number.
- StageTwoHeap.Heap.UserStore: words of one payload that overlap each other are kept apart, because the model's memory has a word at each address and bytes within a block are its owner's business.
- HashTable.ResizeNeeded: item counts whose table would have to grow past 2^24 slots are excluded, because the limits' 32-bit products wrap around there.
- HashTable.BHashTable.Remove: a table that never had storage is excluded, because the code then indexes a null table.
- HashTable.BHashTable.Insert: without the check for duplicates the caller must not insert an item twice, because the chain would then contain a cycle.
- LargeCache.Cache.Grow: the region comes as a parameter, because the buddy allocator and the page frames behind it are not part of this model. The first storage of the hash table is taken to be had: the code ignores that failure (line 108 of LargeCache.cpp), which leaves a slab on the lists but not in the table.
- LargeCache.Cache.AddToTable: the same failure of the first storage is excluded.
- LargeCache.Cache.FreeObject: addresses that are not live are excluded, because the code reads the slab it looks up before it checks that there is one.
- SlabCache construction and the search for an object count per slab: choices of constants.
- MemoryMap.AddMapEntry: the one byte that the loader's memmove writes behind a full table is not followed, because what lies there is not part of this model; ranges and old entries whose end passes 2^64 are excluded, because the sums wrap around.
- MemoryMap.AddAll: with the loader's memmove nothing is promised about types for ranges that do not come in their turn, because they then depend on the slots that each call moves, which AddMapEntry gives; ranges without pages are excluded, because each may cut the map short.
- MemoryMap.InsertAt: the byte behind a full table is not followed here either.
- PageTable.LoaderMemory.MarkPages: ranges whose start plus count passes 2^64 are excluded, because the check may let them through and the loop then writes past the table.
- Handoff.HandOver: tables of 2^32 entries or more are excluded, because the number of entries has 32 bits.
- Placing the page lookup table in memory, and counting usable pages: one loop over the map each.
- Division.UDivMod: a zero denominator is excluded, because the code then divides by zero on purpose and traps.
- Division.DivDI3: -2^63 is excluded, because negating it is undefined.
- Division.ModDI3: -2^63 is excluded, because negating it is undefined.
- Glob.MatchSet: a set without its closing bracket is excluded, because the code reads on past the end of the pattern.
- Glob.MetaMatch: patterns with an unclosed set are excluded for the same reason.
- ObjectManager, Dictionary, memory-mapped devices, checksum tables and image scripts: thin, unfinished or easy.
