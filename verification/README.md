# A verified model of the kernel's memory, file and text layers

This project models four layers of a small 32-bit x86 kernel and proves what
their callers rely on.

* **Kernel heap** (`src/kernel/mm/heap.c`): a first-fit allocator over raw
  memory with in-band headers, a guard word behind each payload, splitting,
  coalescing in both directions, trimming of the top, and a validator with cycle
  detection.
* **Frames, paging and demand paging** (`pmm.c`, `paging.c`, the page-fault
  handler of `idt.c`): a bitmap allocator feeds two-level page tables that are
  filled by faults.
* **File system stack** (`path.c`, `vfs.c`, `ramfs.c`, `fd.c`): path walking
  across mounts, growable files, descriptors with offsets.
* **Text layer** (`string.c`, the argument parser and two file commands of
  `shell.c`, the number printers of `vga.c`).

Code that changes state step by step is modelled by classes and methods with the
same loops, branches and order of stores. Each method is proved equal to a
specification function, and the lemmas about those functions say what the code
promises over one call, over pairs of calls and over whole runs. `dafny verify
dfyconfig.toml` checks everything.

## How the parts fit together

| concern | files |
|---|---|
| 32-bit words and wrap-around | `Words` |
| heap: list functions, laws, run theorems, the layout as written | `HeapSpec`, `HeapLaws`, `HeapTheorems`, `HeapAsCoded` |
| heap: memory words, the allocator itself, the validator | `HeapMemory`, `HeapFree`, `KernelHeap`, `HeapWalk`, `HeapValidation` |
| frames and paging | `Frames`, `FrameAllocator`, `Paging`, `DemandPaging`, `PageMapper` |
| files | `TextRuns`, `Paths`, `Vfs`, `FileSpec`, `Ramfs`, `FileTree`, `FileDescriptors` |
| text | `Numerals`, `NumberText`, `Shell` |

Memory of the heap is a word array indexed by byte address; every store is proved
to go to a multiple of four inside it. `KernelHeap.Valid()` says that those words
represent a list of blocks. `HeapSpec` says what a call does to the list.
Unsigned 32-bit sums are written with `W32`, wrap-around included. Page tables
live in an array of the low 4 MiB, and a translation is the two-level walk of
32-bit paging (Intel SDM Volume 3A, section 4.3); error-code bits are those of
section 4.7; the memory map is that of the Multiboot Specification 0.6.96,
section 3.3.

## What the code does not promise

The heap functions and the `KernelHeap` methods take a `Layout`. `Coded` is the
arithmetic of `heap.c` as it stands. `Intended` is the stride its accounting
assumes at lines 92, 122, 207 and 224 (header, payload, guard word), and differs
in three places:

1. line 56 reserves no guard word behind the first block;
2. lines 87-88 put the remainder of a split on top of the guard word;
3. lines 246-247 lower `heap_end` to a free last block and leave it linked.

The strong promises hold for `Intended`. For `Coded` the exact conditions are
proved, each a test on the list before the call:

* kfree keeps the list well formed if and only if the guard words it writes have
  room and no trimmed block stays linked (`ReleaseAsCoded`). A run whose frees are
  of pointers that the list decides about (NULL, a header outside the heap, a listed
  block) stays sound if and only if every step passes that test (`CodedRun`).
* kfree undoes kmalloc if and only if kmalloc did not append behind another block
  (`FreeUndoesAllocate`).
* kfree is not idempotent. After a successful kfree the checks of a second one read
  words inside memory and refuse the pointer if and only if its header lies at or
  above the new top, or the guard word of the backward merge did not fall on that
  header's `size` (`Kfree`, `SpoilsHeader`). When it did, the second call passes the
  magic test and then reads the word at the pointer plus 0xDEADBEEF: an unmapped
  page, so the kernel panics. `SecondFreeFaults` is such a run, made of safe steps only.
* The bytes that kmalloc hands out are the caller's own along the safe runs above, if
  the request does not wrap (`SafeRunHandsOutOwnBytes`). Off them they need not be:
  after two allocations and one free, two more allocations return a block that is in
  use (`LiveBlockHandedOut`). After the free heap_validate reports the trimmed block
  (`TrimmedIsReported`), and a block appended there is linked to itself
  (`NextBlockLinksToItself`).
* Concrete runs that break the list: `TrimLeavesBlockLinked` (three calls),
  `MergeDestroysNeighbour` (a guard word lands on the size of a block in use) and
  `ReleaseGoesAstray` (a guard word lands on the freed block's own link, which the
  code then follows, `StrayLinkIsGuard`).

In both layouts one family of requests defeats both bounds of kmalloc: with fewer
than 24 bytes left below the limit, the subtraction of line 46 wraps, and a request
just below 4 GiB wraps the sum of line 122 back into the heap
(`WrappingRequestIsAccepted`). On a well-formed heap kmalloc answers such a request
with a pointer whose bytes are not the caller's own, and the heap stays valid if and
only if this does not happen (`Kmalloc`, `AllocationIsDisjoint`). Requests of at most 2^32 - 32 bytes
never do it.

Four more places where behaviour and apparent intent differ:

* `pmm_alloc_frame` returns the address of frame 0 as NULL. Over a run, free plus
  outstanding frames is constant if and only if frame 0 was in use at the start, no
  frame can be handed out, or nothing is allocated (`RunConserves`). The usual boot
  leaves frame 0 free (`BootLeavesFrameZeroFree`); `paging_init` then puts its first
  table at address 0, where the array of tables does not show it. Heap pages are not
  affected, but a `map_page` below 4 MiB drops every other page there (`MapPage`).
* What a mount changes is stated for every walk (`MountLaw`): on a node that is a
  mountpoint already, nothing; otherwise a walk that finds the node goes on from the
  mounted root where it first finds it, and every other walk ends where it did. So a
  second mount at the same path is ignored (`RemountIsIgnored`, `DoubleMount`), and a
  mount at a path that meets its own end on the way can make that path stop resolving
  (`MountOnOwnWay`).
* `pmm_init` keeps the low 32 bits of a region's end when it looks for the highest
  address, so an entry that ends exactly at 4 GiB counts as ending at 0 (`RegionEnd`).
* `readme.md` says that the first 4 MiB are identity-mapped; the code leaves out
  page 0, and so does the model.

## Model

| member | source | states |
|---|---|---|
| HeapTheorems.AnswerIsDetermined | src/kernel/mm/heap.c:34-148 | on a well-formed list and for every request, n being the next multiple of eight: kmalloc answers with the lowest-address free block of at least n bytes, else at the top if 20 + n + 4 bytes end below 0x800000 or the request wraps, else NULL; every NULL leaves the heap as it was |
| HeapTheorems.AllocationOnList | src/kernel/mm/heap.c:54-146 | the list after every successful kmalloc, written out: the block found is cut in two when it can spare a header, a guard word and eight bytes, and is used whole otherwise; a new block of n bytes goes to the old top, with the new top behind it |
| HeapTheorems.RoundedUp | src/kernel/mm/heap.c:39-43 | the request that the search works with is the multiple of eight from size to size + 7, and for the last seven sizes it falls below the request, which the code refuses |
| HeapTheorems.AllocateLive | src/kernel/mm/heap.c:79-146 | on a well-formed list, a successful kmalloc whose request does not wrap adds exactly one live block, under a pointer that was not live, at least as large as requested, and every other live block stays where and as large as it was |
| HeapTheorems.AllocationIsDisjoint | src/kernel/mm/heap.c:54-146 | on a well-formed list, the bytes handed out are aligned, end inside the heap and overlap no header, payload or guard word of any other block, if and only if the request does not wrap |
| HeapTheorems.FreeUndoesAllocate | src/kernel/mm/heap.c:54-248 | kfree right after kmalloc restores the block list and the top exactly: always in the intended layout, and as coded if and only if kmalloc did not append behind another block |
| HeapTheorems.ReleaseLive | src/kernel/mm/heap.c:197-248 | kfree retires exactly the block it is given and no other live block, through both merges and the trim |
| HeapTheorems.ReleaseOnList | src/kernel/mm/heap.c:197-248 | the list after every kfree of a used block of a sound heap, written out: the block and its free neighbours on both sides become one free block over all their bytes, or the top moves down to where it would begin |
| HeapTheorems.ReleaseTwice | src/kernel/mm/heap.c:197-248 | on the block list, no live block is left under a freed pointer, so a second release has nothing to do; what the checks on memory make of it is stated by `Kfree` |
| HeapTheorems.RunKeepsInv | src/kernel/mm/heap.c:34-251 | every state of every run of calls satisfies the whole invariant (tiling, order, sizes, no two free neighbours, last block used, top below the limit) if and only if no request of the run wraps |
| HeapTheorems.RunAccounts | src/kernel/mm/heap.c:34-251 | in every heap reachable from the empty one, by calls of which none wraps: the first block is at the start, each block begins 24 bytes behind the payload of the one before, the last ends at the top and is used, no two neighbours are free, and header + size + guard sum to the distance from start to top |
| HeapTheorems.InvMeans | src/kernel/mm/heap.c:54-248 | the invariant of the run theorems as plain arithmetic on addresses, sizes and flags |
| HeapTheorems.SmallRequestsNeverWrap | src/kernel/mm/heap.c:46-47 | no run of requests up to 2^32 - 32 bytes contains the wrapping one |
| HeapLaws.AllocateKeepsWellFormed | src/kernel/mm/heap.c:34-148 | kmalloc keeps blocks ordered, aligned and inside the heap, in either layout, if and only if the request does not wrap |
| HeapLaws.AllocateKeepsInv | src/kernel/mm/heap.c:34-148 | kmalloc keeps the exact tiling and the absence of free neighbours under the same condition |
| HeapLaws.ReleaseKeepsInv | src/kernel/mm/heap.c:151-251 | kfree of any pointer keeps the invariant |
| HeapLaws.MergeIsExact | src/kernel/mm/heap.c:200-232 | a merge yields one block over exactly the same bytes and its guard word falls on the absorbed block's guard word |
| HeapLaws.SplitHalves | src/kernel/mm/heap.c:85-108 | the two parts of a split are proper blocks that fill the place of the old one |
| HeapAsCoded.ReleaseAsCoded | src/kernel/mm/heap.c:197-248 | as coded, kfree of a live block leaves a well-formed list if and only if its guard words have room and no trimmed block stays linked |
| HeapAsCoded.ReleaseLiveAsCoded | src/kernel/mm/heap.c:197-248 | as coded, a safe kfree retires exactly the block it is given and no other live block |
| HeapAsCoded.CodedStep | src/kernel/mm/heap.c:34-251 | as coded, a call that follows no guard word leaves a well-formed and tidy list if and only if it passes a test on the list before it |
| HeapAsCoded.CodedRun | src/kernel/mm/heap.c:34-251 | a run of the code as written whose frees are of NULL, of listed blocks or of headers outside the heap stays sound if and only if every step passes its test |
| HeapAsCoded.SafeRunHandsOutOwnBytes | src/kernel/mm/heap.c:34-251 | along every safe run of the code as written, the next kmalloc hands out an address that is not live and bytes that are the caller's own, if and only if the request does not wrap |
| HeapAsCoded.TrimLeavesBlockLinked | src/kernel/mm/heap.c:241-247 | two allocations and one free leave a listed block above the top |
| HeapAsCoded.LiveBlockHandedOut | src/kernel/mm/heap.c:121-146 | a run without wrapping requests after which kmalloc returns a block that is in use |
| HeapAsCoded.MergeDestroysNeighbour | src/kernel/mm/heap.c:224-226 | a run in which the guard word of a merge overwrites the size of the block behind it, which is in use |
| HeapAsCoded.ReleaseGoesAstray | src/kernel/mm/heap.c:224-230 | a run after which a free writes its guard word over the link word it reads next |
| HeapAsCoded.SecondFreeFaults | src/kernel/mm/heap.c:158-226 | a run of safe steps that ends in a successful kfree and leaves a spoiled header below the top, so that kfree of the same pointer reads far outside the heap |
| HeapAsCoded.WrappingRequestIsAccepted | src/kernel/mm/heap.c:46-47 | a reachable heap in which kmalloc(2^32 - 24) is answered and the invariant is lost |
| HeapSpec.AlignMask | src/kernel/mm/heap.c:39-39 | for every word, adding 7 and masking yields the next multiple of eight, or less than the word when the addition wraps: the number that `RoundedUp` describes |
| HeapMemory.ListedBlockChecks | src/kernel/mm/heap.c:158-195 | a block of a represented heap passes every check of kfree but the last, and fails that one exactly when it is already free |
| HeapMemory.CheckMeans | src/kernel/mm/heap.c:151-195 | each of the seven outcomes on the memory words: kfree goes on if and only if the pointer is not NULL, its header lies in [0x400000, top), the magic and guard words are in place, the size is not zero, the extent ends by the top and the free flag is zero; every refusal has its own first failing condition |
| HeapMemory.KeptWord | src/kernel/mm/heap.c:54-248 | what the methods promise of payloads that they keep: each word of a live block other than the one freed is the old word |
| KernelHeap.JudgedChecks | src/kernel/mm/heap.c:154-195 | on represented memory the checks pass an address that is NULL, behind a listed header or behind one outside the heap exactly when it is the payload address of a live block |
| HeapFree.HeaderAfterBackward | src/kernel/mm/heap.c:219-232 | after the merge into the previous block the absorbed header is still refusable, unless the guard word fell on its size; then it is spoiled |
| HeapFree.SpoiledIsUnreadable | src/kernel/mm/heap.c:167-175 | behind a spoiled header below the top the check of the guard word reads outside memory |
| HeapFree.StrayLinkIsGuard | src/kernel/mm/heap.c:224-230 | when the guard word falls on the freed block's own links, the link that the code reads next is the guard pattern |
| KernelHeap.KernelHeap.WriteSplit | src/kernel/mm/heap.c:87-107 | the stores of a split in program order leave both headers and guard words in place, the links of the neighbours joined up, and nothing else changed |
| HeapMemory.SplitInMemory | src/kernel/mm/heap.c:85-108 | the stores of a split leave headers, links and guard words of the new list in memory and change no live payload |
| HeapMemory.MergeInMemory | src/kernel/mm/heap.c:207-231 | the stores of a merge leave the headers, links and guard words of the merged list in memory |
| KernelHeap.KernelHeap.constructor | src/kernel/mm/heap.c:25-31 | memory of any contents represents the empty heap |
| KernelHeap.RepresentedWords | src/kernel/mm/heap.c:87-140 | a valid heap in memory, written out: magic, size, flag and both links of every header, and the guard word behind its payload |
| KernelHeap.KernelHeap.Kmalloc | src/kernel/mm/heap.c:34-148 | on memory words, for every request: the new list and the answer are those of the list function, the heap stays valid if and only if the request does not wrap, no word of a live payload changes, and a NULL answer changes no word at all |
| KernelHeap.KernelHeap.Search | src/kernel/mm/heap.c:79-119 | the loop over the links in memory finds the first free block that fits, or stops at the last block |
| KernelHeap.KernelHeap.FirstBlock | src/kernel/mm/heap.c:53-76 | the first allocation writes one block at the start, or nothing |
| KernelHeap.KernelHeap.Split | src/kernel/mm/heap.c:85-109 | the stores of a split turn one represented block into two and keep every live payload |
| KernelHeap.KernelHeap.AppendBlock | src/kernel/mm/heap.c:121-146 | a block is put at the top and linked behind the last one, or nothing is written; the heap stays valid if and only if the request does not wrap |
| KernelHeap.KernelHeap.PutWrapped | src/kernel/mm/heap.c:130-140 | the exact stores for the wrapping request, whose guard word lands just below the new top; in the intended layout no live payload word is among them |
| KernelHeap.KernelHeap.CheckPointer | src/kernel/mm/heap.c:154-195 | on memory in any condition, the verdict that `CheckMeans` spells out on the words; a listed block of a valid heap fails exactly the last check, and only if it is free |
| KernelHeap.KernelHeap.FreeAndMerge | src/kernel/mm/heap.c:197-232 | marking and both merges, through the links in memory, give the coalesced list and keep every other live payload |
| KernelHeap.KernelHeap.TrimTop | src/kernel/mm/heap.c:234-248 | emptying or lowering the top gives the trimmed list and stores at most one link word |
| KernelHeap.KernelHeap.Kfree | src/kernel/mm/heap.c:151-251 | the verdict of the checks; nothing changed on refusal, whatever the heap's condition; else the released list in memory and untouched payloads; afterwards the checks refuse the same pointer if and only if its header is at or above the new top or was not spoiled, which in the intended layout is always so |
| KernelHeap.KernelHeap.WritePayload | src/kernel/mm/heap.c:69-75 | the owner of a live block writes a word between the header and the guard word: the heap stays valid and every other payload is unchanged |
| HeapWalk.TheyMeet | src/kernel/mm/heap.c:301-314 | on a chain longer than its node set the tortoise and the hare meet within one lap |
| HeapWalk.FaultMeaning | src/kernel/mm/heap.c:317-346 | the first fault found is "valid" exactly when every block of the chain passes all four tests, which are written out on the memory words |
| HeapWalk.ExamineMeans | src/kernel/mm/heap.c:319-343 | each report on a block in memory words: valid if and only if the magic word is in place, the block behind links back, the header lies from start to top and the extent ends by the top; each of the four faults has its own first failing condition |
| HeapWalk.FaultIsUnique | src/kernel/mm/heap.c:317-346 | the chain has one first fault, so the report is determined |
| HeapWalk.WellFormedValidates | src/kernel/mm/heap.c:298-347 | memory that represents a well-formed heap has no cycle and passes at every block |
| HeapWalk.TrimmedIsReported | src/kernel/mm/heap.c:241-333 | when the top is lowered to a last block that stays linked, heap_validate finds no cycle and reports that block as out of range |
| HeapWalk.NextBlockLinksToItself | src/kernel/mm/heap.c:130-140 | the stores of the next appended block then link it to itself, and the chain never ends |
| HeapWalk.ListedHeadersAreClosed | src/kernel/mm/heap.c:301-314 | the headers of a represented heap are a node set for the validator |
| HeapValidation.HasCycle | src/kernel/mm/heap.c:301-314 | terminates on every finite link graph and reports a cycle exactly when the chain never ends |
| HeapValidation.HeapValidate | src/kernel/mm/heap.c:298-347 | on memory in any condition: cycle if and only if the chain is endless, valid if and only if it ends and every block passes the four tests on its words, else the first fault; always valid on a valid heap |
| Frames.MarkOne | src/kernel/mm/pmm.c:18-21 | or-ing in the bit adds exactly that frame to the used set |
| Frames.UnmarkOne | src/kernel/mm/pmm.c:23-26 | clearing the bit removes exactly that frame |
| Frames.RunConserves | src/kernel/mm/pmm.c:134-170 | over every run that frees only outstanding frames, free plus outstanding is constant if and only if frame 0 was in use at the start, no frame can be handed out, or nothing is allocated; otherwise exactly frame 0 is lost |
| Frames.AllocConservesUnlessZero | src/kernel/mm/pmm.c:134-143 | an allocation conserves that count if and only if frame 0 is in use or no frame can be handed out |
| FrameAllocator.FrameAllocator.PmmInit | src/kernel/mm/pmm.c:45-130 | for a memory map of any length with any 64-bit addresses and lengths, a frame below the last whole bitmap word is free exactly when a usable entry covers it and it holds no byte from the start of the kernel to the end of the bitmap behind it |
| FrameAllocator.ReservedBytes | src/kernel/mm/pmm.c:71-127 | the two ranges of frames that are marked used are exactly the frames that hold a byte of the kernel or of the bitmap |
| FrameAllocator.CoversIsPlain | src/kernel/mm/pmm.c:96-98 | for entries that end below 2^44 the frames covered are the floor-divided range |
| FrameAllocator.FrameAllocator.HighestAddress | src/kernel/mm/pmm.c:56-67 | the walk by size + 4 ends and finds the highest of the region ends, each cut to 32 bits |
| FrameAllocator.FrameAllocator.FreeUsable | src/kernel/mm/pmm.c:90-108 | the second walk frees exactly the frames that usable entries cover, for any 64-bit addresses and lengths |
| FrameAllocator.BootLeavesFrameZeroFree | src/kernel/mm/pmm.c:90-127 | with usable memory from address 0 and a kernel linked higher up, frame 0 meets the condition for being free after pmm_init: it is covered and holds no reserved byte |
| FrameAllocator.FrameAllocator.FirstFreeFrame | src/kernel/mm/pmm.c:28-43 | the scan over words and bits finds the lowest free frame, or -1 when none exists below the limit |
| FrameAllocator.FrameAllocator.AllocFrame | src/kernel/mm/pmm.c:134-143 | takes exactly the lowest free frame, fails only when there is none, and is one allocation step of the runs above |
| FrameAllocator.FrameAllocator.FreeFrame | src/kernel/mm/pmm.c:145-149 | returns exactly the frame of the address and is one free step of the runs above |
| FrameAllocator.FrameAllocator.FreeFrames | src/kernel/mm/pmm.c:156-170 | counts the frames below the total whose bit is clear |
| Paging.MasksAreArithmetic | src/kernel/mm/paging.c:55-76 | for every word, the address masks, entry bits and index shifts of the code are the divisions, remainders and sums that `MapPage` and `PagingInit` state |
| Paging.WriteEntry | src/kernel/mm/paging.c:75-76 | writing one entry makes its page translate to the frame, present and writable, and changes the translation of no other page |
| Paging.NewTableKeepsTranslations | src/kernel/mm/paging.c:61-73 | installing a cleared table in a free frame changes no translation, except that replacing a table at address 0 makes its pages absent |
| Paging.NewTableAgrees | src/kernel/mm/paging.c:69-72 | directory and table array stay in agreement, tables in distinct used frames, with or without a first table at address 0 |
| PageMapper.PageMapper.PagingInit | src/kernel/mm/paging.c:27-51 | the directory holds the address of the first table plus 3 and zeros, the table holds 0 and then k * 4096 + 3 for every k; so exactly pages 1 to 1023 translate, each to itself; the first table stands at NULL if and only if frame 0 was free or no frame was; directory and table array agree |
| PageMapper.PageMapper.MapPage | src/kernel/mm/paging.c:53-80 | the word stored is the physical page address plus 3, in a table whose directory entry is its address plus 3; the walk of the page yields the frame, present and writable, and the walk of every other page is unchanged, also when a table is allocated; the one exception, a first table at NULL, is stated exactly |
| PageMapper.PageMapper.PageFault | src/kernel/core/idt.c:27-64 | exactly when error bits 0 and 2 are clear and the address is in [0x400000, 0x800000), the lowest free frame is mapped there, as the word frame * 4096 + 3; any other fault is fatal; without a frame nothing changes |
| Paging.ErrorBits | src/kernel/core/idt.c:31-37 | for every error code, the masks of the handler are the remainders that `PageFault` states |
| PageMapper.PageMapper.Access | src/kernel/core/idt.c:27-49 | an access to a heap page, through translation and fault, is one step of the demand-paging machine |
| DemandPaging.TouchBacks | src/kernel/core/idt.c:37-49 | one access keeps every page on a frame of its own, apart from reserved frames and the table |
| DemandPaging.RunBacks | src/kernel/core/idt.c:27-49 | over every run of accesses distinct pages have distinct frames, none of them reserved or a table, a backed page keeps its frame, and unless the kernel panics every page accessed is backed |
| DemandPaging.RunConsumes | src/kernel/core/idt.c:37-49 | the frames used are the reserved ones, one per backed page and at most one table: at most 1025 more for the whole heap |
| Paths.ResolveConcat | src/kernel/fs/vfs/path.c:4-34 | resolving p then q is resolving q from where p leads, when p resolves |
| Paths.ResolvePathJoin | src/kernel/fs/vfs/path.c:4-34 | the same for path strings, with repeated, leading and trailing slashes |
| Paths.ResolveOne | src/kernel/fs/vfs/path.c:23-31 | one step, written out: it fails where a node has no lookup or the lookup finds nothing, and otherwise goes to the node found or the root mounted on it; with `ResolveConcat` this determines every walk |
| Paths.VisitsConcat | src/kernel/fs/vfs/path.c:23-31 | the nodes found on a walk along p then q are those of p followed by those of q from where p leads |
| Paths.MountUnseen | src/kernel/fs/vfs/vfs.c:24-46 | a path whose walk never finds the mountpoint resolves as before the mount |
| Paths.MountLaw | src/kernel/fs/vfs/vfs.c:24-46 | for every walk: a mount changes nothing if its node is a mountpoint already or is not found; otherwise the walk goes on from the mounted root where it first finds the node |
| Paths.MountSeenAtEnd | src/kernel/fs/vfs/vfs.c:24-46 | after a mount the path leads to the mounted root exactly when the node found last was no mountpoint yet |
| Paths.MountTakesEffect | src/kernel/fs/vfs/vfs.c:24-46 | path/rest then resolves to what rest resolves to from the mounted root |
| Paths.RemountIsIgnored | src/kernel/fs/vfs/vfs.c:24-46 | a second mount at a path that a first mount took over leaves the path leading to the first root |
| Paths.DoubleMount | src/kernel/fs/vfs/vfs.c:24-46 | a concrete double mount whose second root is never reached |
| Paths.MountOnOwnWay | src/kernel/fs/vfs/vfs.c:24-46 | a concrete mount at a path that meets its own end on the way, after which the path does not resolve |
| TextRuns.RunsJoin | src/kernel/fs/vfs/path.c:9-21 | the components of a joined path are those of its parts in order |
| TextRuns.RunsAreRuns | src/kernel/fs/vfs/path.c:11-21 | no component is empty or contains a slash |
| Vfs.Vfs.VfsCheckMount | src/kernel/fs/vfs/vfs.c:37-46 | the root of the first mount on the node, or the node |
| Vfs.Vfs.PathResolve | src/kernel/fs/vfs/path.c:4-34 | the pointer walk is the left fold of lookup-then-mount over the non-empty components |
| Vfs.Vfs.VfsLookup | src/kernel/fs/vfs/vfs.c:16-22 | resolution from the root, or nothing without a root |
| Vfs.Vfs.VfsMount | src/kernel/fs/vfs/vfs.c:24-35 | appends exactly one mount for the node found, or fails and changes nothing |
| FileTree.WalkStaysIn | src/kernel/fs/vfs/path.c:23-30 | a walk whose lookups are ramfs_lookup ends at one of the known nodes or fails |
| FileTree.OneStep | src/kernel/fs/vfs/path.c:23-30 | one step of the walk is ramfs_lookup on the file node followed by the mount check |
| FileTree.LookupNode | src/kernel/fs/vfs/vfs.c:16-22 | path lookup yields the file node that the path names, or null |
| FileTree.GrownKeepsPaths | src/kernel/fs/ramfs/ramfs.c:78-100 | creating a node changes no path that resolved before |
| FileTree.GrownFindsChild | src/kernel/fs/ramfs/ramfs.c:78-100 | wherever a path led to the directory, path/name leads to the created node, if the name was not taken |
| FileTree.CreateNode | src/kernel/fs/ramfs/ramfs.c:78-100 | ramfs_create seen through path lookup: the directory gets one empty node, the lookups of the whole tree follow, old paths keep their nodes and path/name finds the new one; at 32 children nothing changes |
| Ramfs.Strcmp | src/kernel/lib/string.c:14-26 | zero exactly for equal texts |
| Ramfs.Memcpy | src/kernel/lib/string.c:75-84 | the bytes are copied and all others of the destination kept |
| Ramfs.Strcpy | src/kernel/lib/string.c:46-54 | the text and its NUL are copied and nothing behind them changes |
| Ramfs.RamNode.Lookup | src/kernel/fs/ramfs/ramfs.c:43-57 | the first child of that name |
| Ramfs.RamNode.Create | src/kernel/fs/ramfs/ramfs.c:78-100 | one empty child is added behind the others, with the name, flags, parent and operations it should have, or -1 at 32 children |
| Ramfs.CreatedIsFound | src/kernel/fs/ramfs/ramfs.c:43-100 | a new child is found under its name exactly when no earlier child has that name |
| Ramfs.RamNode.Write | src/kernel/fs/ramfs/ramfs.c:102-134 | the bytes stand at the offset and every other byte of the file is kept across growth; directories are refused |
| Ramfs.RamNode.Read | src/kernel/fs/ramfs/ramfs.c:136-152 | delivers the bytes from the offset up to the end of the file, and no more than asked |
| FileSpec.ChunksAreOneWrite | src/kernel/fs/fd/fd.c:44-65 | any sequence of chunks has the effect of one write of their concatenation |
| FileSpec.WrittenReadsBack | src/kernel/fs/fd/fd.c:67-106 | seeking back and reading returns exactly the bytes written, and all other bytes are the old ones |
| FileSpec.WrittenIsOverwrite | src/kernel/fs/ramfs/ramfs.c:116-131 | at or before the end of the file, what a write promises determines the contents |
| FileDescriptors.FdTable.SysOpen | src/kernel/fs/fd/fd.c:28-42 | the lowest unused descriptor, at offset 0, for the node that the path names, with all others unchanged; -1 exactly when the path names none or no descriptor is left |
| FileDescriptors.FdTable.FdAlloc | src/kernel/fs/fd/fd.c:13-26 | marks exactly the lowest unused descriptor, or answers -1 |
| FileDescriptors.FdTable.SysWrite | src/kernel/fs/fd/fd.c:44-65 | one write step through the descriptor; all other descriptors keep node and offset |
| FileDescriptors.FdTable.SysRead | src/kernel/fs/fd/fd.c:67-88 | the bytes at the offset, which moves past them; all other descriptors unchanged |
| FileDescriptors.FdTable.SysClose | src/kernel/fs/fd/fd.c:90-94 | frees exactly that descriptor |
| FileDescriptors.FdTable.SysSeek | src/kernel/fs/fd/fd.c:96-106 | sets exactly that offset, on open descriptors only |
| Numerals.ParseNumeral | src/kernel/lib/string.c:109-123 | reading the numeral of a number gives the number back, in every base from 2 to 36 |
| Numerals.NumeralIsUnique | src/kernel/lib/string.c:155-192 | the numeral is the only text without leading zero or lower-case digits that has its value |
| Numerals.DigitTable | src/kernel/lib/string.c:137-178 | the digit characters in order of value up to base 36, lower-case a to f as 10 to 15, and no other character is a digit |
| Numerals.ParseStops | src/kernel/lib/string.c:113-149 | reading stops at the first character that is no digit, whatever follows |
| Numerals.ReversedLowFirst | src/kernel/lib/string.c:169-189 | the digits generated from the low end, reversed, are the numeral |
| NumberText.ReversePrefix | src/kernel/lib/string.c:183-189 | the two-pointer loop reverses the prefix and keeps what is behind it |
| NumberText.Utoa | src/kernel/lib/string.c:155-192 | the buffer holds the numeral as a C string and nothing behind it changes |
| NumberText.Atoi | src/kernel/lib/string.c:109-123 | the value of the leading decimal digits, for values below 2^31 |
| NumberText.AtoiHex | src/kernel/lib/string.c:125-152 | the value of the leading hex digits behind an optional 0x, for values below 2^31 |
| NumberText.HexPrefix | src/kernel/lib/string.c:129-131 | a leading 0x or 0X is skipped, and nothing else is |
| NumberText.HexRoundTrip | src/kernel/lib/string.c:125-192 | the digits that utoa in base 16 and the prefixed eight-digit form produce have the word as their value; atoi_hex returns it below 2^31 |
| NumberText.ParseHexDigits | src/kernel/video/vga.c:166-187 | eight hex digits, leading zeros included, read back as the word |
| NumberText.HexDigitAt | src/kernel/video/vga.c:175-182 | digit i of the fixed-width form is nibble 7 - i of the word |
| NumberText.NibblesAreArithmetic | src/kernel/video/vga.c:175-182 | for every word, shifting and masking yields the nibble that the model writes as division and remainder |
| NumberText.VgaPrintDec | src/kernel/video/vga.c:85-103 | prints the decimal numeral from its 11-byte buffer |
| NumberText.VgaPrintHex | src/kernel/video/vga.c:166-187 | prints 0x and the eight hex digits |
| TextRuns.SplitUndoesJoin | src/kernel/shell/shell.c:846-872 | splitting at separators undoes joining by single separators |
| TextRuns.JoinAppend | src/kernel/shell/shell.c:160-167 | what `write` puts between tokens: joining one more part adds exactly one separator and the part |
| Shell.ParseArguments | src/kernel/shell/shell.c:846-872 | argv has one pointer for each of the first 8 maximal runs between spaces of any line, or for all when there are fewer, and each reads as that run, terminated in the same buffer |
| Shell.ParsingUndoesJoining | src/kernel/shell/shell.c:846-872 | parsing inverts joining up to 8 tokens |
| Shell.CmdWrite | src/kernel/shell/shell.c:143-172 | the file that the path names becomes the joined text followed by its own remaining tail; usage and not-found replies exactly when they should be; other open descriptors are untouched |
| Shell.LineReachesFile | src/kernel/shell/shell.c:143-172 | for a line of `write`, a path and up to six tokens, the arguments are these words, and the contents that ExecuteCommand promises for them are the tokens joined by spaces and the old tail |
| Shell.CmdRd | src/kernel/shell/shell.c:175-202 | prints the first 255 bytes, up to a NUL, of the file that the path names; other open descriptors are untouched |
| Shell.ExecuteCommand | src/kernel/shell/shell.c:819-843 | a line is copied, split in place and handed to the command its first word names; `write` succeeds exactly with at least three words, a path that names a node and a descriptor left, and then leaves the remaining words joined in that file; `rd` prints it exactly with at least two words, a node and a descriptor; nothing else changes |

## Left out

- KernelHeap.KernelHeap.Kmalloc: in the `Coded` layout the wrapping request may overwrite the last payload word of the block below, so payloads are promised only for the intended layout or a request that does not wrap.
- HeapTheorems.AllocationIsDisjoint: well-formed lists only; runs of the code as written leave them, and then it fails (`LiveBlockHandedOut`).
- HeapTheorems.AllocateLive: well-formed lists only, likewise; and excludes the wrapping request, whose guard word can fall on the new block's own size; what the code then stores is stated by `PutWrapped`.
- HeapTheorems.FreeUndoesAllocate: excludes the wrapping request, for the same reason.
- KernelHeap.KernelHeap.Kfree: a pointer that passes every check must be the payload of a listed block, because a forged header inside a payload can pass them too; and in the `Coded` layout the releases of `HeapSpec.GoesAstray` are excluded, because the code then follows a guard word as a pointer.
- KernelHeap.KernelHeap.CheckPointer: the header and guard word that a check reads must be aligned words inside the modelled 16 MiB.
- HeapValidation.HeapValidate: links must stay among readable aligned headers; a wild pointer faults in the code.
- HeapTheorems.ReleaseTwice: a statement about block lists, in which unlisted pointers do nothing by definition; idempotence of the code is false as coded, with the exact condition in `Kfree`.
- HeapAsCoded.CodedRun: frees of stale or made-up pointers inside the heap are not part of these runs; what the checks make of them depends on words that their last owner may have written.
- HeapTheorems.RunKeepsInv: a free of an unlisted pointer is a step that changes nothing, as on memory when a check refuses it.
- FrameAllocator.FrameAllocator.PmmInit: the walk over the map does not wrap and the map is not under the bitmap; reserved frames lie inside the bitmap, which the code does not check.
- FrameAllocator.FrameAllocator.FreeFrame: the frame must be one the bitmap tracks, which the code does not check.
- PageMapper.PageMapper.MapPage: a missing table needs a free frame below 1024, which the code does not check.
- PageMapper.PageMapper.PageFault: the same for the table allocation inside the fault.
- PageMapper.PageMapper.PagingInit: the first table's frame is below 1024.
- Vfs.Vfs.PathResolve: components are shorter than the 64-byte buffer; nodes without an `ops` table are not modelled.
- Vfs.Vfs.VfsMount: the table of 8 mounts has room, and the mounted root is not null; the panic is the result `false`.
- Ramfs.RamNode.Write: allocation succeeds, offset plus size does not wrap, and bytes between an old end and a later offset are unspecified, as they are in the code; replaced buffers are garbage, as the code never frees them.
- Ramfs.RamNode.Create: allocation succeeds and the name fits its field.
- FileDescriptors.FdTable.SysOpen: the numbered tree of the path walk mirrors the file nodes (`FileTree.Mirrors`), which `CreateNode` keeps up.
- FileTree.CreateNode: allocation succeeds, the name fits its field, and no two numbers stand for the directory.
- Shell.ExecuteCommand: lines fit the 256-byte buffer, which the code does not check, and of the command table only `write` and `rd` are modelled.
- FileDescriptors.FdTable.SysWrite: offset plus size does not wrap, and the buffer is not the file's own.
- NumberText.Atoi: the value fits an `int`; overflow is undefined in C.
- NumberText.AtoiHex: likewise.
- Printed messages are result values, and kernel panics are outcomes.
- TLB flushes and control-register writes: translation is the walk of the current tables.
- Heap memory and page tables are separate arrays: that heap pages are backed is proved by the paging part, not fed into the heap part.
- `heap_dump`, `ramfs_list`, the bodies of the remaining shell commands, other string functions, VGA drawing, timers, keyboard and other drivers, descriptor tables, assembly stubs, and lines 190-362 of `idt.c` (a stale copy).
