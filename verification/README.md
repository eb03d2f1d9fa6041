# A verified model of PDA's DMA buffers

PDA gives a user process direct access to a PCI device. Its central promise is that a DMA buffer,
allocated page block by page block inside a kernel module, looks the same from three sides: the
process that maps it, the device that is handed a scatter/gather list for it, and the kernel that
must get every page back. This project models that machinery in Dafny and proves the promise.

The files follow the program:

| file | what it models |
|---|---|
| `Words.dfy` | 64-bit pointer sums, powers of two, remainders |
| `SgList.dfy`, `SgIntervals.dfy`, `SgNodes.dfy` | coalescing a scatter/gather list: its meaning, its minimality, the linked nodes changed in place |
| `ChunkPlan.dfy`, `SgTable.dfy`, `KernelMemory.dfy` | the greedy block allocator, the scatterlist and its sorting, allocation and freeing over a page allocator |
| `Mapping.dfy` | the mapping callback, the page-fault handler, wrap mapping |
| `Pipeline.dfy` | exporting, loading and coalescing the kernel's list; agreement on every byte |
| `Registry.dfy` | the kernel's set of buffers over whole runs |
| `IndexNames.dfy`, `BufferList.dfy`, `DeviceBuffers.dfy` | index names, the doubly linked buffer list, the device operations of one process |
| `Names.dfy`, `NameSets.dfy` | what requests and deletes do to the registered names, and that all three views of them agree |
| `LockProtocol.dfy` | flock-guarded sharing between processes |
| `Bars.dfy` | base address registers |

`dafny verify dfyconfig.toml` checks everything.

## Assumptions

* `dma_map_sg` keeps one entry per block and changes only device addresses; the device reaches the
  bytes of a block, in order, through the addresses from the entry's on (`Pipeline.DmaMaps`). That
  device ranges of different blocks do not overlap is then proved, not assumed.
* `flock` grants a shared lock unless another open file holds the exclusive one, and the exclusive
  lock only if no other open file holds any. A refused conversion may keep or lose the shared lock.
* The kernel's `sort` is any function that returns a sorted permutation (`SgTable.IsSort`); there is
  one, and on the kernel's lists all of them agree (`Pipeline.AnySortIsTheSame`).
* Answers of the operating system (allocation refusals, `remap_pfn_range`, `munlock`, `flock`,
  opening and writing files) are parameters, one for each call the code makes, and every contract
  holds for all of them. Other processes change a device's directory only between two operations.
* The order cap is between 1 and 19. Kernels use about 10; at 20 a block's length no longer fits the
  32-bit length field, and at 0 sorting can move the table's end marker (`EndMarkerStaysIff`).
* A request is at least one page short of 2^64 bytes, so that rounding it up does not wrap.

## Where the code falls short of the plain property

Each of these is modelled as the code is, with the exact condition under which it happens.

* Coalescing fails if and only if something was merged and an empty entry is left that nothing
  absorbed (`CoalesceFailsIff`). Lists from the kernel have no empty entries.
* Sorting keeps the table's end marker behind the entries in use, whatever the device addresses, if
  and only if the buffer has one page or the order cap is at least 1 (`EndMarkerStaysIff`).
* The mapping loop ends exactly at the end of the request if and only if that is an entry boundary;
  otherwise it maps beyond it (`MapEager`). Whole copies always are boundaries.
* A failed wrap map leaves a meaningless second pointer if and only if the doubled mapping failed
  and the fallback succeeded (`BufferMaps.WrapMap`).
* A run of requests and deletes has leaked frames if and only if some request failed to create its
  files, and has left a stale object if and only if some request failed for memory after it was
  added (`RunsKeepOwnership`).
* A request that fails once `dma_map_sg` has succeeded gives its frames back without
  `dma_unmap_sg`, so the device still reaches frames that are free. In a run of requests and deletes
  the device reaches a free frame if and only if some request failed that way, and a frame of no
  buffer if and only if one did or failed to create its files (`RunsKeepReach`). `RequestOnePage`
  shows each kind of damage on a single frame.
* An index chosen for UNDEFINED is new if and only if 2^64-1 and 0 are not both taken
  (`FreshUnlessWrapped`).
* Looking up UNDEFINED succeeds if and only if 2^64-1 is listed, or every index from the chosen one
  on is registered and each of those buffers can be opened; on the way it adds buffers
  (`GetDMABuffer`). Registering a user buffer with UNDEFINED appends it under the chosen index, but
  reports success if and only if the registration got through and 2^64-1 was listed before, or every
  index behind the chosen one is registered and each of those buffers can be opened. The buffer
  handed back is the one appended only if the chosen index is 2^64-1 itself (`RegisterDMABuffer`).
  `FailingRegistration` and `RegistrationThenLookup` are concrete failing calls; in the second the
  registration gets through and a lookup is refused.
* A registration under a defined index that does not get through still looks the index up: it may list
  and hand back a buffer somebody else registered while it reports failure (`RegisterDMABuffer`).
* If `munlock` refuses the head of the list, the delete fails in two ways. The device's pointer has
  moved on, so the buffer is neither released nor listed any more; and if other buffers follow, what
  the pointer now names is not a well-formed list. A refused buffer further back stays where it was
  (`DeleteDMABuffer`).
* `PciDevice_freeAllBuffers` leaves the device pointing at a released buffer unless the list was
  empty (`FreeAllBuffers`).
* A delete locks and closes its file and only then writes a name. Its write takes a mapped buffer
  away if and only if the name is mapped then and either a new mapper came in between close and
  write, or the locked file is no longer the one under the name (`WriteFreesMappedIff`). Both happen
  (`RacedDeleteFreesMapped`, `DeadFileFreesMapped`); the second needs an earlier raced delete of the
  same name, so a mapped buffer whose own name never saw a raced delete is safe
  (`MappedIsNeverFreed`).
* The register scan writes behind its array if and only if no slot is malformed and the last one,
  not itself an upper half, is tagged 64-bit (`ClassifyBars`).

## Model

| member | source | states |
|---|---|---|
| SgList.Accounting | src/dma_buffer.c:97-136 | every entry of any list is merged away, survives compaction, or is an empty entry nobody absorbed; the decremented counter and the survivors differ by exactly the latter |
| SgList.CoalesceFailsIff | src/dma_buffer.c:117-141 | the "Invalid Number of entries" exit is taken if and only if a non-empty entry touches its successor and an unabsorbed empty entry exists; never for positive lengths |
| SgList.CoalescePreservesTranslation | src/dma_buffer.c:104-162 | for every list, sorted or not, a successful call keeps the total length and the device address of every byte offset, and keeps user pointers equal to the mapping's start plus the lengths before them |
| SgList.UserLinearMeans | arch/linux_x86_uio/dma_buffer_inc.c:250-268 | such user pointers give every byte offset the user address start + offset, modulo 2^64 |
| SgList.CoalesceIsFold | src/dma_buffer.c:104-162 | the repeated pairwise passes compute the one-step fold of every run of touching entries, and the result has no touching pair left |
| SgList.FoldKeepsPointers | src/dma_buffer.c:108-129 | user, device and kernel pointer of every entry of the result are those of one entry of the list, in the old order |
| SgList.PassHalvesRuns | src/dma_buffer.c:104-134 | one call turns every maximal run of k entries, in place in the sequence of runs, into one of ceil(k/2) |
| SgList.CallsAreLogarithmic | src/dma_buffer.c:117-162 | the recursion makes exactly ceil(log2(longest run)) + 1 calls |
| SgIntervals.MaximalIntervalsUnique | src/dma_buffer.c:104-162 | two lists of separated intervals over the same device bytes are the same list |
| SgIntervals.GappedIsShortest | src/dma_buffer.c:104-162 | no list of intervals over the bytes of a list of separated ones, in any order and with any overlaps, has fewer entries |
| SgIntervals.CoalesceIsMinimal | src/dma_buffer.c:104-162 | for a sorted disjoint list coalescing succeeds with separated intervals over the same bytes and as few as possible |
| SgNodes.CountNodes | src/dma_buffer.c:97-100 | the walk counts the nodes of the list |
| SgNodes.MergeNeighbours | src/dma_buffer.c:103-115 | the in-place loop leaves the links alone, turns the lengths into those of `InPlace` and the counter into entries minus merges |
| SgNodes.CopySurvivors | src/dma_buffer.c:121-134 | fresh nodes holding the non-empty entries in their old order |
| SgNodes.Relink | src/dma_buffer.c:143-155 | the array becomes a well-formed doubly linked list in array order, values untouched |
| SgNodes.CoalesceSGList | src/dma_buffer.c:90-163 | the list handed back is well formed, old or entirely fresh, holds exactly the entries of `Coalesce` on both exits, after exactly `Calls` activations |
| ChunkPlan.GetOrderOfBlock | patches/linux_uio/uio_pci_dma.c:1075-1075 | get_order of a block's length is the order it was allocated at |
| ChunkPlan.GreedyIsOptimal | patches/linux_uio/uio_pci_dma.c:815-883 | for every page count and cap C the loop takes pages/2^C + popcount(pages mod 2^C) blocks of non-increasing order adding up to the pages, and no set of blocks of order at most C with as many pages is smaller |
| ChunkPlan.SlotsSuffice | patches/linux_uio/uio_pci_dma.c:823-883 | the table with one slot per page is never overrun, and its last slot stays unused if two pages or more are taken with a cap of at least 1 |
| SgTable.SortSgSwap | patches/linux_uio/uio_pci_dma.c:949-962 | exchanges two whole entries, end markers included, and permutes the table |
| SgTable.SortPermutes | patches/linux_uio/uio_pci_dma.c:936-947 | the comparison admits a sort: every table has a sorted permutation |
| SgTable.SortKeeps | patches/linux_uio/uio_pci_dma.c:889-889 | any rearrangement of whole entries keeps pages, blocks and bytes, and keeps blocks disjoint |
| SgTable.SortIsDetermined | patches/linux_uio/uio_pci_dma.c:936-947 | with distinct device addresses any two sorted permutations are equal, although compare never returns 0 |
| KernelMemory.PagePool.AllocPages | patches/linux_uio/uio_pci_dma.c:857-865 | a block of free frames leaves the free set, or nothing changes; it fails exactly on denial or if no block fits |
| KernelMemory.PagePool.FreePages | patches/linux_uio/uio_pci_dma.c:1075-1075 | only a block handed out, with its own order and no longer reserved, can come back, and it comes back whole |
| KernelMemory.PagePool.Reserve | patches/linux_uio/uio_pci_dma.c:873-878 | exactly the block's frames become reserved |
| KernelMemory.PagePool.Unreserve | patches/linux_uio/uio_pci_dma.c:1069-1073 | the byte-counting loop clears exactly the chunk's own frames |
| KernelMemory.TakeChunk | patches/linux_uio/uio_pci_dma.c:857-881 | one more block, reserved and entered in the next slot, or nothing changed and a reason |
| KernelMemory.AllocateChunks | patches/linux_uio/uio_pci_dma.c:850-883 | follows the plan `Orders`; at every exit the allocator has given out exactly the disjoint blocks entered so far; success means no planned call was denied, failure that the next one was, or found no block |
| KernelMemory.EndMarkerStaysIff | patches/linux_uio/uio_pci_dma.c:824-889 | for every page count and cap: all fillings, device mappings and sorts leave the end marker behind the entries in use if and only if there is one page or the cap is at least 1 |
| KernelMemory.SinglePagesLoseTheEnd | patches/linux_uio/uio_pci_dma.c:827-889 | with single-page blocks, a table of any two or more pages for which every sort makes sg_next return NULL after the first entry |
| KernelMemory.FreeKernelMemory | patches/linux_uio/uio_pci_dma.c:1060-1079 | walks the whole list without meeting NULL, frees each block once with its own order, and returns exactly the buffer's frames, unreserved |
| KernelMemory.ShortFreeLeaks | patches/linux_uio/uio_pci_dma.c:1065-1067 | freeing only the first `count` entries, the number dma_map_sg reported, restores the allocator if and only if that is all of them |
| KernelMemory.AllocateKernelMemory | patches/linux_uio/uio_pci_dma.c:804-934 | on any failure the allocator is as before; a denied planned call or refused table, mapping, copy or page list always fails, and nothing else does but a round that finds no block of the plan's next order; on success the allocator has lost exactly the blocks of a sorted, disjoint list of the rounded size and optimal length, whose entries carry the device address dma_map_sg gave their block; the device gains exactly the frames mapped, which on a failure behind the mapping are free frames |
| KernelMemory.AllocateThenFree | patches/linux_uio/uio_pci_dma.c:804-1079 | allocate then free restores free frames, reserved flags and outstanding blocks, and also what the device reaches, unless the allocation failed behind the device mapping |
| Mapping.MapEager | patches/linux_uio/uio_pci_dma.c:1153-1179 | the loop terminates for every request without stepping past the list; page q of the mapping is page q mod pages of the buffer, at the area's start plus q pages; it goes on exactly as long as the request is not covered, stops exactly at the request's end if and only if that is an entry boundary, succeeds if and only if every remap call the request needs does, and leaves after a refusal what the calls before it installed |
| Mapping.TableShows | patches/linux_uio/uio_pci_dma.c:1153-1173 | the page table left behind shows frame q at the q-th page address, and no page anywhere else |
| Mapping.WholeCopiesEndAtEntry | patches/linux_uio/uio_pci_dma.c:1176-1178 | every multiple of the buffer size is an entry boundary |
| Mapping.FlattenFrames | patches/linux_uio/uio_pci_dma.c:906-926 | the nested loops fill the frame list with exactly the frames of the list in order |
| Mapping.EagerAndLazy | patches/linux_uio/uio_pci_dma.c:1083-1179 | every page the eager loop installs, at its address, is the page the fault handler serves at that offset |
| Mapping.RingBytes | patches/linux_uio/uio_pci_dma.c:1160-1179 | offset o of the mapping shows buffer byte o mod size |
| Mapping.WrapMapping | include/pda/dma_buffer.h:96-103 | in a doubled mapping both copies alias byte by byte, and any window of at most one buffer length starting in the first copy reads the ring in order |
| Mapping.BufferMaps.WrapMap | arch/linux_x86_uio/dma_buffer_inc.c:956-983 | success puts the second pointer right behind the first copy; on failure it marks absence except exactly if the fallback mapping succeeded |
| Pipeline.ConvertSg | patches/linux_uio/uio_pci_dma.c:776-801 | each exported entry has the device address of its list entry, its length and page link modulo their field widths, and offset 0 |
| Pipeline.LoadNodes | arch/linux_x86_uio/dma_buffer_inc.c:243-269 | the loaded nodes form a well-formed list with the exported lengths, device addresses and page links, whose user pointers run on from the mapping's start |
| Pipeline.LoadSGList | arch/linux_x86_uio/dma_buffer_inc.c:195-302 | load then coalesce: the node list handed back holds the coalesced entries of the exported list; an empty export fails |
| Pipeline.LoadedAgrees | arch/linux_x86_uio/dma_buffer_inc.c:250-269 | at every offset the loaded list's device address leads to the physical byte of that offset |
| Pipeline.EndToEnd | src/dma_buffer.c:90-163 | across export, load and coalesce, every byte offset has user address start + offset and a device address that leads to the physical byte mapped there |
| Pipeline.DeviceAddressesDiffer | patches/linux_uio/uio_pci_dma.c:885-889 | blocks that share no frame have different device addresses |
| Pipeline.AnySortIsTheSame | patches/linux_uio/uio_pci_dma.c:889-889 | on the kernel's lists every sort gives the same result |
| Pipeline.KernelListIsMinimal | patches/linux_uio/uio_pci_dma.c:885-893 | for every list the kernel can produce, coalescing yields the fewest descriptors possible; disjoint device ranges follow from disjoint blocks |
| Pipeline.ServeBuffer | patches/linux_uio/uio_pci_dma.c:804-1179 | a run of allocate, map any number of copies, export, load and coalesce maps exactly the copies at the mapping's start, opens exactly the buffer's frames to the device, and, if the addresses dma_map_sg hands out lead the device to their blocks, agrees with the list on every byte; it succeeds only if nothing planned is denied and every remap call is granted, and fails only if the allocation may fail or a remap call it makes is refused |
| Registry.KernelModule.Find | patches/linux_uio/uio_pci_dma.h:252-262 | returns an object of that name, or none exists |
| Registry.KernelModule.RequestBuffer | patches/linux_uio/uio_pci_dma.c:517-623 | each outcome is one step of the machine; a granted request appends one object with the whole buffer asked for, its rounded size, pages, well-formed entries and their device addresses; refusal exactly on missing memory for the bookkeeping, a taken name or a failed kobject_add; a denied planned call always ends in the memory failure; frames leak exactly on a file failure, an object goes stale exactly on a memory failure, and free frames stay mapped for the device exactly on one behind the mapping |
| Registry.KernelModule.DeleteBuffer | patches/linux_uio/uio_pci_dma.c:970-1046 | a registered name loses its object and returns exactly its pages, also from the device; an unknown name changes nothing |
| Registry.StepKeeps | patches/linux_uio/uio_pci_dma.c:517-1001 | every step, however it ends, keeps unique names, disjoint buffers and page conservation |
| Registry.StepDamage | patches/linux_uio/uio_pci_dma.c:549-618 | a step leaks frames if and only if its files fail, and leaves a stale object if and only if its memory fails after kobject_add |
| Registry.RunsKeepOwnership | patches/linux_uio/uio_pci_dma.c:517-1001 | after any run from the empty set every frame is free, in exactly one buffer, or leaked; something leaked if and only if some request's files failed, and an object is stale if and only if some request's memory failed |
| Registry.StepReach | patches/linux_uio/uio_pci_dma.c:549-1024 | every step from a set without stale objects leaves the device reaching the frames of buffers and the leaked ones, once each and no others, if and only if it is not a memory failure behind the device mapping |
| Registry.RunsKeepReach | patches/linux_uio/uio_pci_dma.c:549-1024 | in any run the device reaches a free frame if and only if some request failed for memory behind the device mapping, and a frame of no buffer if and only if one did or failed to create its files |
| Registry.RequestOnePage | patches/linux_uio/uio_pci_dma.c:517-623 | over a single free frame the kernel's answers decide between refusal, both memory failures, the leak and success, and each leaves its damage |
| Registry.RequestThenDelete | patches/linux_uio/uio_pci_dma.c:517-1001 | a granted request followed by the delete of its name restores set, allocator and device mappings |
| IndexNames.ParsePrint | arch/linux_x86_uio/dma_buffer_inc.c:363-363 | reading a printed index gives it back |
| IndexNames.PrintIsDecimal | arch/linux_x86_uio/dma_buffer_inc.c:363-363 | the printed form consists of decimal digits without leading zero, its last digit being the remainder by ten and the rest the printed quotient |
| IndexNames.PrintInjective | arch/linux_x86_uio/dma_buffer_inc.c:363-363 | equal names mean equal indices |
| IndexNames.IndexNameFits | arch/linux_x86_uio/dma_buffer_inc.c:363-363 | a 64-bit index prints in at most 20 characters |
| IndexNames.FreshUnlessWrapped | arch/linux_x86_uio/dma_buffer_inc.c:399-434 | the chosen index is in no list buffer if and only if 2^64-1 and 0 are not both used, and then its name clashes with none |
| BufferList.GetHead | src/dma_buffer.c:246-264 | from any node, the first node of the list |
| BufferList.GetTail | src/dma_buffer.c:268-286 | from any node, the last node of the list |
| BufferList.AddNode | src/dma_buffer.c:290-315 | the list is the old one with the buffer appended |
| BufferList.RemoveNode | src/dma_buffer.c:319-340 | the list is the old one without the buffer, whose own links stay |
| BufferList.FreeBuffer | arch/linux_x86_uio/dma_buffer_inc.c:832-951 | a refused munlock keeps buffer and list; otherwise the buffer is unlinked and released; its name goes exactly if it is a user buffer or to be deleted and the exclusive lock, the opening and the write are all granted, and the call succeeds exactly then or if a persistent kernel buffer is kept |
| BufferList.FreeAll | src/dma_buffer.c:215-242 | from any node every buffer is released exactly once unless munlock refuses it; the refused ones remain a well-formed list in order; exactly the names the kernel was told about are gone, and the result says whether all went well |
| DeviceBuffers.PciDevice.FindNewIndex | arch/linux_x86_uio/dma_buffer_inc.c:399-434 | the running maximum over the parsed names gives the defined index, 0 for an empty list, or one behind the largest index, modulo 2^64: `ChosenIndex` of the list's indices |
| DeviceBuffers.PciDevice.Announce | arch/linux_x86_uio/dma_buffer_inc.c:543-593 | for each kind of request, exactly which answers let it get through, and what the directory holds afterwards |
| DeviceBuffers.PciDevice.NewBuffer | arch/linux_x86_uio/dma_buffer_inc.c:518-613 | success appends one fresh buffer with the chosen index, a user buffer exactly if one is registered, failure leaves the list; indices stay distinct and registered |
| DeviceBuffers.PciDevice.AllocDMABuffer | src/pci.c:517-547 | the buffer handed back is the kernel buffer just appended, under a name that was free |
| DeviceBuffers.PciDevice.FindByIndex | src/pci.c:648-669 | finds the buffer with the index if and only if there is one |
| DeviceBuffers.PciDevice.GetDMABuffer | src/pci.c:637-676 | returns the only buffer with the index; what it adds are kernel buffers; a hit takes one call, a miss at most two and adds at most one buffer; for a defined index it fails exactly if unregistered or not openable; for UNDEFINED, not listed, it succeeds exactly if every index from the chosen one on is registered and opens, each lookup with answers of its own |
| DeviceBuffers.PciDevice.RegisterDMABuffer | src/pci.c:582-616 | for a defined index it succeeds exactly if the registration gets through and returns the appended user buffer; if it does not, a buffer that is listed, or registered and openable, is handed back although the call fails; for UNDEFINED the buffer is appended all the same, success has an exact condition on the list and directory before the call and the answers to each lookup, and the buffer returned is the appended one exactly if the chosen index is 2^64-1; the directory afterwards is given on every exit |
| DeviceBuffers.FailingRegistration | src/pci.c:602-612 | on a fresh device a registration with UNDEFINED reports failure and leaves the buffer registered and listed under 0 |
| DeviceBuffers.RegistrationThenLookup | src/pci.c:602-673 | a concrete registration with UNDEFINED that gets through under 2^64-2 succeeds if and only if the buffer another process registered under 2^64-1 can be opened |
| DeviceBuffers.PciDevice.DeleteDMABuffer | src/pci.c:550-578 | removes exactly that buffer; a refused one is not released and stays listed exactly if it is not the head; the list stays well formed exactly unless it is the head of a longer list |
| DeviceBuffers.PciDevice.DropAllNames | arch/linux_x86_uio/dma_buffer_inc.c:617-690 | succeeds exactly if the directory opens and every request gets through, and then nothing is registered; otherwise exactly the names before the first failure are gone |
| DeviceBuffers.PciDevice.FreeAllBuffers | src/pci.c:620-633 | if a buffer of the list cannot be freed, it stops with exactly the told names gone; otherwise it succeeds exactly if every further request gets through, and then nothing is registered and the unreset pointer names a released buffer unless the list was empty |
| DeviceBuffers.PciDevice.DeleteDevice | src/pci.c:442-443 | every buffer is released once unless refused, exactly the told names are gone, the result says whether all went well, and the device's list is empty |
| DeviceBuffers.RunOperations | src/pci.c:517-676 | any sequence of operations without munlock failures keeps a well-formed list headed by the device's pointer, with distinct, registered indices |
| NameSets.RequestNames | patches/linux_uio/uio_pci_dma.c:543-618 | a request changes the names of the kernel's objects exactly as its answer says |
| NameSets.DeleteNames | patches/linux_uio/uio_pci_dma.c:982-994 | a delete takes exactly its name out of the kernel's objects |
| NameSets.AnnounceFollowsRequest | arch/linux_x86_uio/dma_buffer_inc.c:563-570 | the directory a process sees after a request is the kernel's set of names, and the request gets through exactly if the kernel grants it and the map file opens |
| NameSets.FreeFollowsLocks | arch/linux_x86_uio/dma_buffer_inc.c:881-905 | in any run of the lock protocol the exclusive lock a free asks for is granted exactly if no other handle has the file locked, and its steps change the registry as the free changes the directory |
| LockProtocol.StepKeepsLocks | arch/linux_x86_uio/dma_buffer_inc.c:115-145 | every step of any handle, mapping again for a wrap map included, keeps locks, mappings and code positions consistent |
| LockProtocol.MappedImpliesLocked | arch/linux_x86_uio/dma_buffer_inc.c:126-140 | in every interleaving a mapping implies a shared lock, and an exclusive lock is the only lock on its file |
| LockProtocol.SharedIsGranted | arch/linux_x86_uio/dma_buffer_inc.c:126-127 | in any run an open handle gets the shared lock exactly if no handle has its file locked exclusively, however many share it |
| LockProtocol.ExclusiveIsGranted | arch/linux_x86_uio/dma_buffer_inc.c:884-885 | in any run a handle gets the exclusive lock exactly if no other handle has its file locked, told by code positions and kept refused conversions |
| LockProtocol.MapAndClose | arch/linux_x86_uio/dma_buffer_inc.c:136-145 | a map succeeds exactly if the file still stands under its name; unmapping keeps the lock; closing, for whatever reason, gives up locks and mapping |
| LockProtocol.BothMapped | arch/linux_x86_uio/dma_buffer_inc.c:126-140 | a concrete run in which two processes have one buffer mapped |
| LockProtocol.LastOneDeletes | arch/linux_x86_uio/dma_buffer_inc.c:842-907 | a concrete run in which the last of two sharing processes deletes the buffer, which the first could not |
| LockProtocol.RacedIsHistory | arch/linux_x86_uio/dma_buffer_inc.c:890-896 | a delete counts as raced exactly if its name was mapped between its close and its write |
| LockProtocol.StepKeepsUses | arch/linux_x86_uio/dma_buffer_inc.c:842-907 | every step but a raced write of a name keeps the files in use under that name registered |
| LockProtocol.StepKeepsSound | arch/linux_x86_uio/dma_buffer_inc.c:842-907 | every step, raced writes included, keeps the file of an unraced delete out of everybody's use while that file is registered |
| LockProtocol.WriteFreesMappedIff | arch/linux_x86_uio/dma_buffer_inc.c:881-905 | in any run, one write takes a mapped buffer away if and only if its name is mapped and it was raced or its locked file is no longer the one under the name |
| LockProtocol.SoundWriteFreesNothingMapped | arch/linux_x86_uio/dma_buffer_inc.c:881-905 | in any run, whatever other deletes did, an unraced write whose locked file is still registered leaves every mapped buffer registered |
| LockProtocol.MappedIsNeverFreed | arch/linux_x86_uio/dma_buffer_inc.c:881-905 | in every interleaving a mapped buffer is registered unless a delete of its own name was raced |
| LockProtocol.RacedDeleteFreesMapped | arch/linux_x86_uio/dma_buffer_inc.c:890-896 | a concrete run in which a mapper between close and write loses its buffer |
| LockProtocol.DeadFileFreesMapped | arch/linux_x86_uio/dma_buffer_inc.c:884-896 | a concrete run in which an unraced delete that locked a dead file frees another process's mapped buffer of the same name |
| Bars.ClassifyBars | src/pci.c:184-231 | each header ends in an error exactly on reserved width bits outside upper halves, in a write behind the array exactly if the last slot starts a 64-bit region, or with the types of the standard: the slot behind a 64-bit one is not mapped, every other is typed by its own low three bits |
| Bars.UpperHalvesInRange | src/pci.c:217-225 | after a successful scan the slot behind each 64-bit register exists and is not mapped |
| Bars.CorrectSlot | src/pci.c:321-389 | one slot's correction: not mapped for an empty word, else typed by the low three bits of libpci's word, unchanged on reserved bits; a new 64-bit type also claims the next slot, and exactly when that is out of range |
| Bars.CorrectTypes | src/pci.c:319-390 | the libpci pass leaves the types alone if and only if libpci agrees in every slot, and libpci's word for a slot, unless its bits are reserved, decides the final type, whatever neighbours claimed |
| Bars.ConsistentLibpciAgrees | src/pci.c:319-390 | a pass that reports every register as it is and nothing for upper halves agrees with a successful scan |
| Bars.InitBars | arch/linux_x86_uio/pci_inc.c:179-188 | scan then correction: after a successful scan the final types are the standard's if and only if libpci agrees with each, a consistent libpci always does, and the last slot is never left as a 64-bit region, whose upper half would lie behind the registers |
| Bars.Address64Exact | arch/linux_x86_uio/pci_inc.c:439-445 | both halves of a 64-bit address can be read back, with the four type bits cleared and no carry between them |

## Left out

- User buffers: pinning with get_user_pages and the mremap-based wrap map depend on kernel behaviour outside the sources; a user buffer appears only as a list entry with a munlock that may fail.
- Merging inside dma_map_sg: the one-entry-per-block assumption excludes it; what the too short length would do to freeing is `ShortFreeLeaks`, its effect on mapping is not modelled.
- SgTable.SortPermutes: the kernel's own sorting algorithm is not part of this model; everything is proved for any function that sorts, and the sorted list is then written back over the table.
- Memory of freed lists and arrays: free() of scatter lists and tables is not tracked; freed DMABuffer objects are, by a mark.
- Leaked descriptors and mappings: after a refused duplicate request DMABuffer_new still maps the existing buffer and drops the pointer; only its effect on list and directory is modelled.
- Callbacks after a stale object: KSET_FIND then reads freed memory, so the machine has no step from such a state.
- The size check of a request: a write of the wrong size unlocks a mutex it has not locked; concurrency inside the kernel module is the mutex's and not modelled.
- Deleting without locks: DMABuffer_delete_not_attached_buffers frees names without asking for locks, so it is not an action of the lock protocol.
- Kernel-side removal: device probe and removal, interrupts, version checks and NUMA choice are driver plumbing.
- DMABuffer_check_persistant and PciDevice_getListOfBuffers: they scan the directory to rebuild a buffer list and to return the registered indices in an array that doubles when full.
- BAR sizes and src/bar.c: the libpci pass also stores each region's size, and the Bar object copies words to and from the mapped region.
- SgNodes.CoalesceSGList: requires the lengths to add up to less than 2^64, because the list covers one mapped buffer.
- Registry.KernelModule.DeleteBuffer: kobject_del runs on an object whose memory was just released; the model lets the removal take effect.
