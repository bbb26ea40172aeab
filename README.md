# GRUB heap, NS8250 serial setup, mmap wrappers and the apport hook, in Dafny

This project models four pieces of GRUB (the zfsonlinux fork) and proves what each promises.

**The heap allocator of `kern/mm.c`.** The model is imperative: a `Region` class owns an array of header cells. `prev`/`next` are cell indices, so the free blocks form a circular doubly linked ring in address order. A `Heap` class holds the list `base` of regions, sorted by size.

Every operation is a method that writes the header array the way the C code does:
- `grub_mm_init_region`
- `split_chunk`
- `grub_real_malloc` under the FIRST, SECOND and LAST allocators
- `grub_memalign_policy` with its two retry rounds
- `grub_malloc`, `grub_memalign` and `grub_zalloc`
- `grub_free`, which links in address order and coalesces
- `grub_rememalign_policy` and `grub_realloc`, which shrink, grow in place or move

Each method is proved against a value-level specification (modules `MmLayout`, `MmSpec`, `MmHeap`):
- the blocks of a region tile it;
- every header carries its size and its free or alloc magic;
- the ring is exactly the free blocks in address order, and `first` is the lowest free block or an alloc-magic header;
- no two free blocks are neighbours.

At heap level, `Allocated()` is the set of payload addresses handed out. `malloc` adds exactly one fresh, aligned address to it, whose block has exactly the cells the size needs and comes from the first region in list order that can serve it; `free` removes exactly one, and an in-place growth changes nothing. Freeing the block just allocated gives the region back exactly as it was.

**The NS8250 serial driver of `term/ns8250.c`.**
- the speed-to-divisor table;
- the ordered validation of `serial_hw_configure`;
- the configured-once latch of `do_real_config`, whose port writes are recorded as a trace of (I/O address, byte) pairs;
- the built-in-port lookup of `grub_serial_ns8250_add_port`.

**The i386 mmap wrappers of `mmap/i386/mmap.c`.** These are built on the heap model. Registration and the overlay list are inputs.

**The apport hook `debian/apport/source_grub2.py`.**
- password-line redaction (`_attach_file_filtered`);
- the report assembly of `add_info`.

The host the hook runs on is an input: files, executable bits, directory listing, shell syntax check, `path_to_key` and what apport's `attach_file` stores for a path. The report is a class holding a `map<string, string>` that the methods update in place.

Redaction replaces the whole line, terminator included, by a marker without a newline (`debian/apport/source_grub2.py:29-31`), so the marker abuts the next line (`Apport.MarkerAbutsNextLine`, `Apport.PasswordExample`).

## Model

| member | source | states |
|---|---|---|
| Apport.LineLength | debian/apport/source_grub2.py:31 | the first line of a text ends at its first newline, or at the end of the text |
| Apport.Redact | debian/apport/source_grub2.py:29-31 | same number of lines; a line starting with `password` becomes the marker, any other line is kept unchanged at its position |
| Apport.ReadLinesAreLines | debian/apport/source_grub2.py:31 | every line `readlines()` yields is non-empty and has a newline only as its last character |
| Apport.ReadLinesConcat | debian/apport/source_grub2.py:31-32 | joining the lines gives the text back |
| Apport.FilteredUnfold | debian/apport/source_grub2.py:29-32 | the filtered text is the first line's replacement followed by the filtered rest |
| Apport.FilteredHasNoPasswordLine | debian/apport/source_grub2.py:29-32 | no line of the stored text starts with `password` |
| Apport.FilteredKeepsCleanText | debian/apport/source_grub2.py:29-32 | a text without password lines is stored unchanged |
| Apport.FilteredIdempotent | debian/apport/source_grub2.py:29-32 | filtering the filtered text changes nothing |
| Apport.MarkerAbutsNextLine | debian/apport/source_grub2.py:29-30 | a password line and its newline become the marker, directly followed by the filtered rest |
| Apport.PasswordExample | debian/apport/source_grub2.py:29-32 | `password secret123` then `GRUB_TIMEOUT=5` is stored as the marker immediately followed by `GRUB_TIMEOUT=5` and its newline |
| Apport.TimeoutLineKept | debian/apport/source_grub2.py:29-32 | an example: the line `GRUB_TIMEOUT=5` with its newline is stored unchanged (every text without password lines: `Apport.FilteredKeepsCleanText`) |
| Apport.FailingDropInsExactly | debian/apport/source_grub2.py:47-51 | a listing entry is among the failures exactly when it is not README, is executable and fails the syntax check |
| Apport.FailingDropInsSkip | debian/apport/source_grub2.py:49 | README and non-executable entries are never among the failures |
| Apport.FailingDropInsSnoc | debian/apport/source_grub2.py:47-51 | one more listing entry appends its path exactly when it fails, keeping listing order |
| Apport.InvalidScriptsOrder | debian/apport/source_grub2.py:40-51 | `/etc/default/grub` heads the list when it fails; otherwise the list is the drop-in failures; the list is empty exactly when nothing fails |
| Apport.SplitSpace | debian/apport/source_grub2.py:57 | the reference inverse of the `" ".join` at this line: splitting at spaces gives at least one field, and `JoinSpaceSplits` proves that joining its fields back gives the text |
| Apport.JoinSpaceSplits | debian/apport/source_grub2.py:57 | the space-joined value splits back into the paths when the list is non-empty and no path holds a space |
| Apport.AttachAllStores | debian/apport/source_grub2.py:51-52 | after attaching the failures, keys no path maps to keep their values, and each path whose key no later path shares holds what `attach_file` stored for it |
| Apport.AttachAllSnoc | debian/apport/source_grub2.py:51-52 | attaching one more path is the earlier attachments followed by that path's `attach_file` |
| Apport.Report.AttachFile | debian/apport/source_grub2.py:37 | what apport's `attach_file` stores for the path (a host input) goes under the key (given, or `path_to_key` when empty or absent); when it stores nothing the report is unchanged |
| Apport.Report.AttachFileFiltered | debian/apport/source_grub2.py:22-32 | an existing file is stored redacted under the key, which defaults to `path_to_key` when falsy; a missing file leaves the report untouched |
| Apport.Report.CheckDropIns | debian/apport/source_grub2.py:46-52 | returns the failing drop-ins in listing order, each attached under its default key |
| Apport.Report.AddInfo | debian/apport/source_grub2.py:34-57 | a missing `ProblemType` raises and changes nothing; a type other than `Package` changes nothing; otherwise it attaches `/proc/cmdline`, stores the redacted `/etc/default/grub`, attaches the failing drop-ins, and sets `InvalidGrubScript` to their space-join exactly when the list is non-empty |
| Ns8250.SerialGetDivisor | term/ns8250.c:38-73 | the divisor is 1843200 / (16 · speed), non-zero, for the seven listed speeds, and 0 for any other speed |
| Ns8250.LineControlDecodes | term/ns8250.c:105-107 | word length, parity and stop bits occupy disjoint bits of the line-control byte and read back from it |
| Ns8250.DivisorBytesRoundTrip | term/ns8250.c:102-103 | the DLL and DLH bytes put together give the divisor back |
| Ns8250.ConfigWritesProgramDivisor | term/ns8250.c:96-108 | DLAB is set before the divisor bytes are written and clear in the line-control write, and the latch bytes carry the divisor |
| Ns8250.SerialPort.constructor | term/ns8250.c:203-204 | a port starts unconfigured with no writes |
| Ns8250.SerialPort.Configure | term/ns8250.c:169-194 | "bad speed", then "unsupported parity", then "unsupported stop bits", checked in that order; an error leaves the port unchanged; success stores the configuration and clears the latch; nothing is written |
| Ns8250.SerialPort.DoRealConfig | term/ns8250.c:75-130 | a configured port is left alone; otherwise it writes IER, LCR with DLAB, DLL, DLH, the line-control byte, FCR and MCR in that order, then sets the latch |
| Ns8250.FindComPort | term/ns8250.c:231-233 | the first slot with the port, or none when no slot has it |
| Ns8250.AddPort | term/ns8250.c:226-249 | a port a built-in slot already has yields that slot's name and calls no allocator; otherwise the allocator is called, and the new port stays registered exactly when the allocation and the formatting succeed, giving its name; else null, the block given back |
| Mmap.PolicyFor | mmap/i386/mmap.c:36-39 | the LOW flag picks MALLOC_LOW_END (3), anything else MALLOC_DEFAULT; both are valid policies |
| Mmap.Find | mmap/i386/mmap.c:63-65 | the first overlay with the handle, or none when no overlay has it |
| Mmap.MalignAndRegister | mmap/i386/mmap.c:30-55 | allocation failure gives handle 0 and null, every block the retry rounds did not give back keeping its cells; a registration handle of 0 frees the block again and gives null, every other block not given back keeping its cells; otherwise the aligned block and the non-zero handle. The block is newly allocated, holds exactly the cells the size needs, and comes from the first region in list order that could serve it on the views the serving pass started from. Those views are the views on entry when no retry round ran, and every block allocated on entry that the retry rounds did not give back is still held there and afterwards |
| Mmap.FreeAndUnregister | mmap/i386/mmap.c:57-75 | an unknown handle changes nothing; a known one is unregistered and its overlay's start address is freed: a null start changes no view, any other start frees exactly its own block, the other blocks and regions unchanged |
| MmLayout.CellsFor | kern/mm.c:199 | n is the least number of cells whose payload holds `size` bytes, plus the header cell (unbounded; the 64-bit wrap-around is under Left out) |
| MmLayout.AlignCells | kern/mm.c:201-203 | the alignment in cells, at least 1 |
| MmLayout.AlignPad | kern/mm.c:237 | the corrected pad: the least padding that puts the payload on an alignment boundary |
| MmLayout.AlignPadAsWrittenAligns | kern/mm.c:237 | for a power-of-two alignment (kern/mm.c:191), with the pad as written the payload is aligned only when it already was or sat exactly half-way |
| MmLayout.AlignPadAsWrittenMisaligns | kern/mm.c:237 | payload cell 5 with a 4-cell alignment is padded to cell 6 as written |
| MmLayout.Want | kern/mm.c:237-251 | the cells reserved: n plus the pad, and for LAST the largest further whole alignment steps that fit; the allocation stays aligned |
| MmLayout.ExtendBoundAsWrittenPassesEnd | kern/mm.c:486 | as written, the header cell just past the region passes the bound |
| MmLayout.ExtendBoundInside | kern/mm.c:486 | the corrected bound admits exactly the header cells of the region |
| MmLayout.RingOrdered | kern/mm.c:49-53 | the free ring is increasing in address order and lies inside the region |
| MmLayout.TilesOrdered | kern/mm.c:34-41 | blocks of a tiled region are disjoint and ordered by address |
| MmLayout.LinkedInsert | kern/mm.c:433-437 | linking a new member between its ring neighbours keeps the ring circular and doubly linked |
| MmLayout.LinkedRemove | kern/mm.c:270-271 | unlinking a member keeps the rest of the ring circular and doubly linked |
| MmSpec.SearchWalk | kern/mm.c:215-306 | the search starts where the allocator's case puts p, walks one link per step (prev for LAST), and ends at `last` exactly at the last step |
| MmSpec.SearchIsLap | kern/mm.c:233-307 | the search visits every free block exactly once |
| MmSpec.Choose | kern/mm.c:233-307 | the step the search stops at fits, and no earlier step fits; no result means no step fits |
| MmSpec.ChooseStep | kern/mm.c:248-306 | a fit ends the search at this step; a miss leaves the outcome to the later steps |
| MmSpec.NoneFits | kern/mm.c:304-309 | a search without result has found no free block that fits |
| MmSpec.TakenFacts | kern/mm.c:248-301 | a successful allocation yields an allocated block of exactly n cells inside the free block it was cut from. Its payload is aligned. FIRST and SECOND cut at the least pad; LAST cuts within one alignment step of the block's end. Free cells drop by n, and one allocated block is added. |
| MmSpec.TakenCarve | kern/mm.c:253-295 | carving keeps the region tiled and adds exactly the new allocated block |
| MmSpec.CarveCoalesced | kern/mm.c:253-295 | an allocation leaves no two free blocks adjacent |
| MmSpec.FreedFacts | kern/mm.c:397-453 | freeing keeps the region tiled, adds exactly the block's cells to the free cells, removes exactly that block from the allocated ones, and leaves no two free blocks adjacent |
| MmSpec.FreeUndoesCarve | kern/mm.c:253-453 | freeing the block an allocation just carved gives back the view as it was |
| MmSpec.GrowBySteps | kern/mm.c:489-500 | splitting the free neighbour, when larger than needed, then absorbing it is the in-place growth |
| MmSpec.GrowFacts | kern/mm.c:484-502 | growing in place keeps the region tiled and coalesced, takes exactly the missing cells from the free ones, leaves the allocated blocks as they are, and gives the block exactly n cells |
| MmSteps.MagicTellsFree | kern/mm.c:242-243 | a block is free exactly when its header has the free magic |
| MmSteps.NextIsNeighbour | kern/mm.c:439 | a free block's ring successor starts where it ends exactly when the block above is free |
| MmSteps.PrevIsNeighbour | kern/mm.c:447 | a free block's ring predecessor ends where it starts exactly when the block below is free |
| MmSteps.SplitOk | kern/mm.c:176-189 | splitting a free block keeps the region valid, the new free block following it in the ring |
| MmSteps.AllocWholeOk | kern/mm.c:268-272 | taking a whole free block out of the ring keeps the region valid; `first` moves to its successor when it pointed at it |
| MmSteps.TailOk | kern/mm.c:291-294 | handing out the last n cells of a free block keeps the region valid |
| MmSteps.CarveBySteps | kern/mm.c:253-295 | split_chunk followed by the whole-block or the tail branch is the carve of n cells at offset want − n |
| MmSteps.FirstTellsEmpty | kern/mm.c:210-213 | `first` carries the alloc magic exactly when no block is free |
| MmSteps.FreeAloneOk | kern/mm.c:402-406 | freeing into a region without free blocks makes the block the sole ring member and `first` |
| MmSteps.FreeSearchEnds | kern/mm.c:422-431 | the walk stops at the ring member the block goes after, and `first` moves exactly when the block becomes the lowest free one |
| MmSteps.LinkOk | kern/mm.c:430-437 | linking the freed block after that member keeps the region valid |
| MmSteps.MergeNextOk | kern/mm.c:439-453 | merging two adjacent free ring neighbours keeps the region valid |
| MmSteps.PrevMergeIf | kern/mm.c:447 | when the block below is free, the merge test holds |
| MmSteps.PrevMergeOnlyIf | kern/mm.c:447 | the merge test holds only when the block below is free |
| MmSteps.ExtendOk | kern/mm.c:489-500 | unlinking the free neighbour, moving `first` off it and growing the block keeps the region valid |
| MmHeap.PtrsInRegion | kern/mm.c:121-124 | a handed-out address is a cell address inside its region |
| MmHeap.Owner | kern/mm.c:121-127 | a handed-out address lies in exactly one region |
| MmHeap.PtrBlock | kern/mm.c:121-131 | a handed-out address inside region i is the payload of an allocated block of region i, whose header is the cell before it |
| MmHeap.NullNotAllocated | kern/mm.c:397-398 | null is never handed out |
| MmHeap.AllPtrsFreed | kern/mm.c:392-455 | freeing a block removes exactly its address from the heap's allocated addresses |
| MmHeap.AllPtrsMalloced | kern/mm.c:335-337 | a region that serves a request hands out an aligned address that no region had handed out, and the heap gains exactly it |
| MmHeap.MallocedHolds | kern/mm.c:248-306 | the block grub_real_malloc hands out has exactly the n cells asked for, and the address returned is its payload |
| MmHeap.CarveKeeps | kern/mm.c:247-297 | carving a block out of a free block keeps every allocated block of the region |
| MmHeap.MallocedKeeps | kern/mm.c:248-306 | grub_real_malloc keeps every block that was allocated before, with its cells |
| MmHeap.FreedKeeps | kern/mm.c:397-453 | freeing one block leaves every other allocated block of the region in place with its size |
| MmHeap.FreedKept | kern/mm.c:397-453 | freeing a block keeps every allocated block except the freed one, with its cells |
| MmHeap.AllPtrsGrown | kern/mm.c:484-502 | growing in place changes no allocated address |
| MmHeap.ReleasableSplit | kern/mm.c:341-353 | after the disk caches give their blocks back, the modules' blocks are still allocated and each is given back once |
| MmHeap.NotReleased | kern/mm.c:341-353 | the retry rounds never give back an address that was not allocated |
| Mm.AlignUp | kern/mm.c:151 | ALIGN_UP: the least cell boundary at or above the address |
| Mm.InitCells | kern/mm.c:151-158 | the new region has at least one cell and lies within the memory handed in, past the region struct |
| Mm.SizeSortedInsert | kern/mm.c:165-172 | inserting before the first larger region keeps the list sorted by size |
| Mm.ExtendTest | kern/mm.c:485-487 | the header just past a block lies in the region exactly when a block follows it; its size and magic are that block's |
| Mm.SearchVisit | kern/mm.c:233-307 | one search step: the block it visits, whether it fits, where the next step goes, and whether it was the last |
| Mm.Region.FindPrev | kern/mm.c:422-428 | the walk returns the last free block below the freed one, or the highest free block when none is below |
| Mm.Region.constructor | kern/mm.c:154-162 | one free block over all cells, alone in its ring, and `first` on it |
| Mm.Region.SplitChunk | kern/mm.c:176-189 | no change when the block has at most `size` cells; otherwise the headers and the view after the split, with the region kept valid |
| Mm.Region.TakeWhole | kern/mm.c:268-272 | the block leaves the ring and carries the alloc magic; `first` moves on when it pointed at it |
| Mm.Region.TakeTail | kern/mm.c:291-294 | the last n cells become an allocated block and the rest stays free |
| Mm.Region.Take | kern/mm.c:253-301 | the view is the carve of n cells at offset want − n, and the returned address is that block's payload |
| Mm.Region.Search | kern/mm.c:215-307 | the search finds the step Choose names, with the block's header and the reserved cells, or reports that nothing fits |
| Mm.Region.TakeFit | kern/mm.c:248-301 | the found block is carved as Taken describes and its payload address returned |
| Mm.Region.RealMalloc | kern/mm.c:194-310 | no fit returns 0 and changes nothing; otherwise the view is Taken at the first fit in the allocator's order, and the address that block's payload |
| Mm.Region.FreeAlone | kern/mm.c:402-406 | the block becomes the only ring member and `first` |
| Mm.Region.Link | kern/mm.c:430-437 | the block gets the free magic and joins the ring in address order |
| Mm.Region.Absorb | kern/mm.c:439-453 | a free block absorbs the free block just above it |
| Mm.Region.MergeAround | kern/mm.c:439-453 | the merges with the free neighbours give the view Freed describes |
| Mm.Region.FreeBlock | kern/mm.c:402-453 | the region stays valid and its view is Freed |
| Mm.Region.Unlink | kern/mm.c:491-492 | the header writes that take a block out of the ring |
| Mm.Region.MoveFirstOff | kern/mm.c:494-499 | `first` leaves the absorbed block for its successor, or for the growing block when the absorbed block was the only free one |
| Mm.Region.GrowInPlace | kern/mm.c:491-500 | the block absorbs its free neighbour, and the region stays valid |
| Mm.Region.Extend | kern/mm.c:484-502 | it grows exactly when the next block is free and brings the block to n cells, and then the view is Grow; otherwise nothing changes |
| Mm.Heap.constructor | kern/mm.c:110 | the empty list allocates nothing |
| Mm.Heap.NewRegion | kern/mm.c:146-163 | the region set up in the aligned memory past the region struct: one free block, nothing allocated |
| Mm.Heap.Insert | kern/mm.c:165-172 | the region is spliced into the list at the position, and the heap stays valid with no new allocated address |
| Mm.Heap.InitRegion | kern/mm.c:137-173 | memory under four cells' worth is ignored; otherwise one free region goes before the first larger region, and the allocated addresses do not change |
| Mm.Heap.HeaderOf | kern/mm.c:116-132 | for an allocated pointer, its region and the header of its allocated block, the cell just before it |
| Mm.Heap.Free | kern/mm.c:392-455 | null changes nothing; otherwise the block of the pointer is freed in its region, the heap's allocated addresses lose exactly that pointer, and every other allocated block keeps its cells |
| Mm.Heap.FreeIn | kern/mm.c:400-453 | the region's view becomes Freed and the other regions are untouched |
| Mm.Heap.TryRegion | kern/mm.c:335 | grub_real_malloc on one region with its allocator for the policy; on success a fresh aligned address whose block has exactly the cells the size needs, the heap gains exactly it, and every block allocated before keeps its cells |
| Mm.Heap.SearchRegions | kern/mm.c:324-338 | the first region in list order that is not SKIP and serves the request returns a fresh aligned address whose block has exactly the cells the size needs; all earlier regions decline it; no result means every region declines it and nothing changed; every block allocated before keeps its cells |
| Mm.Heap.Release | kern/mm.c:340-353 | the blocks a foreign call gives back are freed, one after the other; every other allocated block keeps its cells |
| Mm.Heap.MemalignPolicy | kern/mm.c:312-361 | success returns a fresh aligned address whose block has exactly the cells the size needs, from the first region in list order that serves the request on the views the serving pass started from. Those views are the views on entry when the first pass served, and every block allocated on entry that the retry rounds did not give back keeps its cells in them and afterwards. After the two retry rounds it fails with out-of-memory, every region declining the request and every block not given back keeping its cells |
| Mm.Heap.Pass | kern/mm.c:317-338 | one pass over the regions after the retry rounds before it: on success, the outcome of the request measured from the views and allocated set on entry to grub_memalign_policy; on failure nothing changed and every region declines |
| Mm.Heap.RetryRound | kern/mm.c:340-356 | the disk caches, then the unneeded modules, are given back; the allocated set loses exactly what the rounds so far gave back, and every other block keeps its cells |
| Mm.Heap.Malloc | kern/mm.c:364-368 | grub_memalign with no alignment under the default policy: the outcome of MemalignPolicy — a fresh block of exactly the cells `size` needs from the first region that can serve it, every block not given back keeping its cells, or out-of-memory after the retry rounds |
| Mm.Heap.Memalign | kern/mm.c:371-375 | grub_memalign_policy under the default policy: a fresh aligned block of exactly the cells `size` needs from the first region that can serve it, every block not given back keeping its cells, or out-of-memory after the retry rounds |
| Mm.Heap.Zalloc | kern/mm.c:378-388 | grub_malloc's outcome: a fresh block of exactly the cells `size` needs, every block not given back keeping its cells, or out-of-memory |
| Mm.Heap.Resize | kern/mm.c:477-502 | the block is kept when it has n cells or grows in place, and the view then is Grow; the allocated addresses do not change |
| Mm.Heap.Move | kern/mm.c:504-510 | a new block of exactly the cells the size needs is handed out by the first region that can serve it, and the old one freed, every other block not given back keeping its cells; when the allocation fails, every region declined and the old block is untouched, still allocated with its old size |
| Mm.Heap.RememalignPolicy | kern/mm.c:459-511 | null allocates; size 0 frees exactly the block of ptr (the views become Freed there, every other block keeps its cells) and gives null; a block with enough cells is returned as is; a free neighbour large enough grows it in place to n cells; otherwise it moves to a new block of exactly n cells from the first region that can serve it, or fails keeping the old block untouched with its old size |
| Mm.Heap.Realloc | kern/mm.c:513-517 | grub_rememalign_policy with alignment 1 under the default policy: kept, grown in place, moved to a new block of exactly the cells the size needs, or freed for size 0, every other block keeping its cells; a failed move leaves the old block untouched |

## Left out

- Input and output are not modelled. This covers the apport file reads, `/bin/sh -n`, `os.listdir` and `os.access`, and the NS8250 `grub_inb`. The host's answers and the port writes are values: the `Host` datatype and the `writes` trace.
- `check_shell_syntax`, `path_to_key`, apport's `attach_file` and the `__main__` block of the apport hook are not modelled. The first two, and what `attach_file` stores for a path (nothing, the file's text, or apport's error text), are inputs.
- The input-drain loop of `do_real_config`, `serial_hw_fetch`, `serial_hw_put` with its timeout, and `grub_ns8250_init` are not modelled: they are port polling and BIOS reads.
- `grub_serial_register`, `grub_serial_config_defaults` and `grub_xasprintf` in `grub_serial_ns8250_add_port` are not modelled. Whether the allocation and the formatting succeed is an input.
- The Yeeloong variants of `serial_get_divisor` and `do_real_config` are not modelled; the model is the PC build.
- `grub_mmap_register`, `grub_mmap_unregister` and the overlay list are not part of this model. Their results and the list are parameters, and the `type` argument is dropped.
- In `grub_memalign_policy`, `grub_disk_cache_invalidate_all` and `grub_dl_unload_unneeded` are given as lists of allocated blocks that they free.
- The byte contents of blocks are not modelled: the `grub_memcpy` of `grub_rememalign_policy` and the clearing by `grub_memset` in `grub_zalloc`.
- `grub_fatal` (unaligned pointer, pointer in no region, broken magic, null in the ring) is a precondition: callers pass valid heaps and allocated pointers. The model proves that the checks cannot fire then.
- The `MM_DEBUG` printing and the debug wrappers are not modelled.
- The constants are those of a 64-bit build: 32-byte cells (GRUB_MM_ALIGN_LOG2 = 5), a 64-byte `struct grub_mm_region` and four policies. Addresses are unbounded naturals with no wrap-around.
- Mm.Region.Extend: uses the corrected bound of the in-place extension test (see Findings). With the bound as written, the header just past the region would be read.
- Mm.Region.RealMalloc: uses the corrected alignment pad (see Findings). The as-written pad is modelled separately and shown to misalign.
- Mm.Heap.Zalloc: does not state that the block is cleared, because block contents are not modelled.
- Mm.Heap.Move: does not state that the contents are copied, because block contents are not modelled.
- MmLayout.CellsFor: the cell count is unbounded. In C, `size + 31` wraps in `grub_size_t` for `size >= 2^64 - 31` (kern/mm.c:199), which gives n = 1 and a header-only block. The model instead fails with out-of-memory whenever every region has fewer than 2^59 cells, as every region of a 64-bit build does.
- Mm.Region.RealMalloc: a size that wraps in kern/mm.c:199 is not modelled as n = 1 (see MmLayout.CellsFor).
- Mm.Heap.RememalignPolicy: a size that wraps in kern/mm.c:477 is treated as a large request, not as n = 1 (see MmLayout.CellsFor).
- Mm.Heap.Memalign: accepts any alignment, though kern/mm.c:191 requires a power of two. Only the as-written pad depends on that requirement, and `MmLayout.AlignPadAsWritten` states it. The corrected pad aligns for every alignment.
- Mm.Heap.InitRegion: requires the new memory not to overlap a region of the heap. The C code trusts its callers for this.
- Ns8250.SerialPort.DoRealConfig: requires a supported parity and stop-bit setting, which `serial_hw_configure` guarantees. The C code would index its tables out of bounds otherwise.

## Findings

| source | as written | input that shows it | evidently intended | confidence | as-written member | corrected member |
|---|---|---|---|---|---|---|
| kern/mm.c:237 | the pad in front of the payload is the payload cell's residue `c mod a` | payload cell 5, alignment 4 cells: pad 1, the payload lands on cell 6, which is not aligned | the pad up to the next boundary, `(a − c mod a) mod a` | not executed | MmLayout.AlignPadAsWrittenAligns | MmLayout.AlignPad |
| kern/mm.c:486 | `r->size` is already in bytes (kern/mm.c:162) and is shifted by the cell size again, so the bound lies far past the region | a block ending at the region's end: the header cell just past the region passes the test, and its magic is read outside the region | the header must lie inside the region, `p2 < r->addr + r->size` | not executed | MmLayout.ExtendBoundAsWrittenPassesEnd | MmLayout.ExtendBoundInside |
