# CryptOS in Dafny

A model of the parts of the CryptOS kernel that carry hard, unbounded properties, with proofs.
`dafny verify dfyconfig.toml` verifies everything.

## What is modelled

**AHCI reads** (`Dma`, `Commands`, `Hba`, `Ahci`, `Pmm`, `PmmReads`). A read is rounded up to sectors, cut into 8 KiB
buffers, cut again into commands of at most 128 sectors, and each command takes the lowest of 32 slots. The
command tables are modelled as the 8 KiB of bytes they are: the driver stores descriptors and a register FIS into
them, and the device decodes those bytes and nothing else. Memory after a transfer is `Scatter`, what the caller
copies out is `Gather`, and the main results say when the two together give back the disk:

- `Ahci.AhciPort.Read`: the caller's buffer holds exactly what the modelled device delivers, and that is the disk,
  byte for byte, whenever no buffer overwrites another and every command's address is taken as it was meant.
- `Commands.FaithfulIff`: those two conditions are also necessary for a read that is right on every disk.
- `PmmReads.PmmReadIff`: `pmm_alloc` takes one 4 KiB frame even for an 8 KiB buffer, so on any memory map the right
  bytes come back exactly when every buffer but the last was followed by a page-table frame or by a hole, and every
  command is addressable.
- `PmmReads.OwnedIff`: the right bytes are not all. The second page of a buffer was never allocated, so a read that is
  right on every disk and writes only frames it was given has at most eight sectors, and every addressable read of at
  most eight does.
- What the other pages are: before the last buffer a page table, the next buffer or no usable memory
  (`PmmReads.SecondPage`); in the last one it may be the frame the next caller gets, `PmmReads.NextCallerIff` says when.
  `PmmReads.ContainedIff` is the exact condition for a read that is right and at least writes only usable memory and
  no page table of its own. In one contiguous region, `PmmReads.ContiguousReadIff`, a read of more than sixteen sectors
  is either wrong on some disk or has the device store into a page table.

Hypotheses on the device: a command is complete when `run_command` returns (the wait loop in the source compares
the masked issue register with 1, so it waits for slot 0 only); it reads the descriptor list in order; and it takes
the start sector either from all six address bytes (`SixBytes`) or as the ATA command set says (`ByCommandSet`),
where READ DMA has a 28-bit address whose top nibble sits in the device byte, which the driver leaves zero. The
command FIS length in the header is taken to be five words from the firmware on: `set_command_fis_size` changes a
temporary copy of the flags, so the driver never sets it, although its comment says it does.
The command-table block is kept apart from the memory the data buffers live in. The code itself breaks this for slots
16 to 31: `start` gets the 8 KiB block from the same one-frame `pmm_alloc`, so the second half of the tables lies in a
page that is a page table drawn by `start` or the first buffer of the next read, whenever it is usable memory
(`PmmReads.TablePages`, `PmmReads.TablesShared`). The results on tables and logs then need not hold beyond slot 15.

Hypothesis on memory: buffers are read and written at their physical addresses. So `Read`, `PmmReadIff` and the first
half of `ContiguousReadIff` are about the bytes in memory, as if a page table that the device or the fill overwrites
still translated as before; whether one is overwritten is what `LongReadsHarm`, `ContainedIff` and the second half of
`ContiguousReadIff` say.

**Physical frames and the heap** (`Frames`, `Heap`). A cursor over the flattened list of usable frames; single
and bulk allocation; frees that only move the cursor back; and the loop that maps the heap while `map_to` draws
page-table frames from the same cursor. Usable regions are taken to be page-aligned, ascending and disjoint.

**The ACPI scheme** (`AcpiScheme`). The descriptor table is a table of abstract files, each a byte string and a
cursor. `Step` specifies one operation, the class `Scheme` is the code, and the theorems are about every run.
A panic is a reply of its own that changes nothing.

**u256 and u512** (`LargeNumbers`), **the PCI bitmap** (`Bitmap`), **the framebuffer canvas** (`Canvas`),
**the scheduler interrupt's round over the cores** (`IpiRing`), and **interrupt guards** (`IrqGuards`).

Checked arithmetic and out-of-range indexing panic in the source; here they are preconditions, except in the ACPI
scheme and in the frees of the frame allocator. Properties that turned out false of the code have their exact
condition, and an input at which they fail:

| property | exact condition | fails at |
|---|---|---|
| a read returns the disk | `Commands.FaithfulIff`, `PmmReads.PmmReadIff` | `Ahci.AdjacentFramesClobber`, `Ahci.SectorAboveThreeBytes` |
| a read keeps to its memory | `PmmReads.OwnedIff` | every read of more than eight sectors, `PmmReads.OwnedIff` |
| a read spares page tables and non-usable memory | `PmmReads.ContainedIff` | every read of more than sixteen sectors, `PmmReads.LongReadsHarm` |
| a read spares the frames of later callers | `PmmReads.NextCallerIff` | every read whose last buffer spills over, `PmmReads.NextCallerIff` |
| requests come to an end | `Ahci.OuterEndsIff`, `Ahci.AllEndIff` | every request of more commands than free slots, `Ahci.OuterEndsIff` |
| a free undoes an allocation | `Frames.FreeAfterMany` | `Frames.HoleReissues` |
| the first clear bit is found | `Bitmap.BlockMap.FindFirstUnset` | `Bitmap.FullBlockHides` |
| every screen point can be drawn | `Canvas.ScreenDrawableIff` | every padded screen of two rows or more |
| every core gets its turn | `IpiRing.FairIff` | `IpiRing.ZeroRestarts` |
| a live guard keeps interrupts off | `IrqGuards.RunProtectsIff`, `IrqGuards.DropProtectsIff` | `IrqGuards.OuterDroppedFirst` |

## Model

| member | source | states |
|---|---|---|
| Ahci.AhciPort.Read | src/drivers/ahci/mod.rs:960-971 | the buffers are allocated from the frame cursor and cleared, the byte count rounded up to sectors is returned and the caller's buffer is what the device put at the buffers' addresses; it equals the disk from the requested sector on when no buffer overwrites another and every command is addressable; and of all memory only the buffers and their fill change, the fill to zero |
| Ahci.AhciPort.RunRequest | src/drivers/ahci/mod.rs:949-958 | with enough free slots the whole request is transferred, one slot per 128 sectors is used, and the log grows by the request's commands |
| Ahci.AhciPort.RunInner | src/drivers/ahci/mod.rs:887-927 | from any offset, as many commands are issued as remain or as there are free slots; returned offset, free count, log and memory follow; full slots return the offset unchanged |
| Ahci.AhciPort.Issue | src/drivers/ahci/mod.rs:891-923 | one command on the lowest empty slot: log, slot array, counter and memory; all earlier tables stay intact, command byte included |
| Ahci.AhciPort.constructor | src/drivers/ahci/mod.rs:937-947 | 32 empty slots, counter 32, and the invariant that every later state keeps |
| Ahci.AhciPort.RunRounds | src/drivers/ahci/mod.rs:949-955 | offset and free slots after any number of rounds of the outer loop are those of the recursion the next rows are about, however few slots are free |
| Ahci.AhciPort.RunAll | src/drivers/ahci/mod.rs:949-958 | a port given requests one after the other ends them all if and only if `AllEnd` holds of its free slots, and then exactly their commands' slots are gone |
| Ahci.OuterEndsIff | src/drivers/ahci/mod.rs:949-958 | the outer loop ends if and only if ceil(count/128) is at most the free slots; otherwise it stays at offset 128 * free for ever |
| Ahci.AllEndIff | src/drivers/ahci/mod.rs:919-923 | a port serves a sequence of requests to the end if and only if their commands together fit into its free slots, which are never released |
| Ahci.FirstFree | src/drivers/ahci/mod.rs:892-898 | the lowest empty slot, or none if all are taken |
| Ahci.ExtendedIsPlan | src/drivers/ahci/mod.rs:898-911 | the (sector, count) pairs a request issues are its plan, in order, and earlier log entries stay |
| Commands.PlanTiles | src/drivers/ahci/mod.rs:900-911 | the commands cover every requested sector, no other, none twice, consecutively, all of 128 sectors but the last |
| Ahci.DescriptorsConcatenate | src/drivers/ahci/mod.rs:385-387 | the descriptor lists of a request's commands concatenate to its buffer list, each buffer once |
| Ahci.CommandAddrs | src/drivers/ahci/mod.rs:806-815 | a command's descriptors describe exactly its own sectors' part of the request's address stream |
| Commands.FaithfulIff | src/drivers/ahci/mod.rs:960-971 | a read is right on every disk if and only if no later stream byte overwrites one that is read back and every command's address is taken as meant |
| Commands.UnclobberedIffGaps | src/drivers/ahci/mod.rs:322-334 | for ascending buffers, no byte is overwritten if and only if neighbouring starts are 8 KiB apart |
| Ahci.AscendingReadIff | src/drivers/ahci/mod.rs:318-342 | for ascending blocks, a read is right on every disk if and only if the used blocks are 8 KiB apart and every command is addressable |
| Ahci.AdjacentFramesClobber | src/drivers/ahci/mod.rs:67-107 | a 17-sector read into two adjacent frames is wrong on some disk |
| Ahci.SectorAboveThreeBytes | src/drivers/ahci/mod.rs:371-383 | a device of the ATA command set answers a request for sector 2^24 with sector 0 |
| Pmm.PmmAlloc | src/drivers/ahci/mod.rs:60-116 | one frame at the cursor is returned whatever the order, the cursor moves past it and the page-table frames, and byte by byte exactly the 4 KiB or 2 MiB from the block on become zero |
| Pmm.NewRequest | src/drivers/ahci/mod.rs:318-342 | the loop calls `PmmAlloc` for each buffer: 8 KiB each but the last, on the blocks the frame list gives from the cursor on, in the order that maps just enough pages; where the cursor ends and what memory was cleared |
| Pmm.ZeroedAt | src/drivers/ahci/mod.rs:109-113 | allocating a list of buffers clears their fill ranges and keeps every other byte |
| Pmm.TransferWrites | src/drivers/ahci/mod.rs:960-971 | after allocation and transfer a byte that is neither cleared nor stored to is unchanged, and a cleared one that the device did not store to is zero |
| Pmm.BlocksAscend | src/drivers/ahci/mod.rs:67-74 | the blocks of a request ascend |
| PmmReads.PmmReadIff | src/drivers/ahci/mod.rs:318-342 | on any ascending frame list, a read is right on every disk if and only if each buffer but the last is followed by a page-table frame or a hole, and every command is addressable |
| PmmReads.LongReadsHarm | src/drivers/ahci/mod.rs:67-107 | a read of more than sixteen sectors is wrong on some disk, or the device stores into one of its page tables or into memory that is not usable |
| PmmReads.OwnedIff | src/drivers/ahci/mod.rs:60-116 | a read is right on every disk and writes, the fill included, only frames it was given as blocks if and only if it has at most eight sectors and is addressable |
| PmmReads.ContainedIff | src/drivers/ahci/mod.rs:60-116 | a read is right on every disk and writes only usable memory and none of its own page tables, the fill included, if and only if it is addressable and has at most eight sectors, or at most sixteen with no table drawn and 2 MiB usable from its block on |
| PmmReads.SecondPage | src/drivers/ahci/mod.rs:67-107 | the second page of every buffer but the last is no usable memory, a page table of the read or the next block |
| PmmReads.NextCallerIff | src/cralloc/frames.rs:83-87 | the device stores into the frame the next request is given if and only if the last buffer has a second page that is usable and was not drawn as a page table |
| PmmReads.TablePages | src/drivers/ahci/mod.rs:686-715 | the command tables of slots 0 to 15 lie in the frame `start` was given, those of slots 16 to 31 in the page after it |
| PmmReads.TablesShared | src/drivers/ahci/mod.rs:683-715 | if that page is usable memory, it is a page table drawn by `start`, or the first block of the next read, which the device stores into |
| PmmReads.MapReads | src/cralloc/frames.rs:52-59 | the three conditions for the frames of every well-formed memory map, holes included |
| PmmReads.ContiguousReadIff | src/common/macros.rs:5-29 | in one contiguous region a read is right on every disk if and only if each buffer but the last drew a page-table frame and every command is addressable; and then each such frame is the second page of its own buffer, which the device stores into |
| Dma.CopyInto | src/drivers/ahci/mod.rs:349-369 | the caller's bytes are the bytes at the first addresses of the request's stream |
| Dma.ScatterLast | src/drivers/ahci/mod.rs:812-818 | of all bytes a device stores at one address, the last one stays |
| Dma.ScatterFrame | src/drivers/ahci/mod.rs:812-818 | an address the device does not store to keeps its byte |
| Hba.TablesTile | src/drivers/ahci/mod.rs:705-715 | the 32 tables partition the 8 KiB block, and a slot's eight descriptors lie in its own table behind the FIS |
| Hba.DescriptorWord | src/drivers/ahci/mod.rs:559-580 | the flag word decodes to the size and the interrupt bit, reserved bits stay clear, bit 0 is set for even sizes |
| Hba.BitStores | src/drivers/ahci/mod.rs:559-580 | setting the size changes bits 0 to 20 of any word and setting the interrupt bit changes bit 31, no other |
| Hba.LbaBytes | src/drivers/ahci/mod.rs:514-523 | the six stored bytes decode to a 48-bit sector; read as a 28-bit address they give it modulo 2^24 |
| Hba.HbaPort.constructor | src/drivers/ahci/mod.rs:683-715 | every header points at its own zeroed table |
| Hba.HbaPort.SetLba | src/drivers/ahci/mod.rs:514-523 | six address bytes are stored around the device byte, which stays |
| Hba.HbaPort.WriteDescriptor | src/drivers/ahci/mod.rs:813-817 | one descriptor decodes to its buffer and interrupt bit, its address at byte 0 and its size at byte 12; its reserved bits stay clear |
| Hba.HbaPort.WriteDescriptors | src/drivers/ahci/mod.rs:812-818 | the slot's descriptors decode to the buffers, only the last one interrupts, and no byte outside them changes |
| Hba.HbaPort.WriteFis | src/drivers/ahci/mod.rs:820-834 | the FIS decodes to the sector and count; its command byte is the ATA code of the command; all other fields; no byte outside it changes |
| Hba.HbaPort.UpdateHeader | src/drivers/ahci/mod.rs:792-807 | descriptor count, prefetch, clear-busy and write flags are set, the FIS length is not |
| Hba.HbaPort.RunCommand | src/drivers/ahci/mod.rs:784-837 | the table names READ DMA or READ DMA EXT, without which the device does not read; the device fills the command's buffers with the addressed sectors; the slot's table and header hold the command; other slots are untouched |
| Frames.UsableAscending | src/cralloc/frames.rs:52-59 | the flattened list is page-aligned and strictly ascending |
| Frames.UsableExactly | src/cralloc/frames.rs:52-59 | the flattened list holds exactly the frames of the usable regions |
| Frames.SinglesInOrder | src/cralloc/frames.rs:83-87 | single requests hand out the frames from the cursor on in order, none left out |
| Frames.RunDisjoint | src/cralloc/frames.rs:61-88 | in any run of single and bulk requests the address ranges handed out, holes included, are pairwise disjoint |
| Frames.SpanCounts | src/cralloc/frames.rs:64-70 | a bulk range covers its size + 1 frames and the holes between them |
| Frames.FreeAfterMany | src/cralloc/frames.rs:73-99 | freeing a fresh bulk range lowers the cursor by its holes, panics exactly when that underflows or the range starts at page 0, restores the cursor if and only if neither holes nor page 0, and otherwise re-issues an older frame |
| Frames.HoleReissues | src/cralloc/frames.rs:73-99 | a memory map with one hole on which a frame that is still in use is handed out again |
| Frames.KernelFrameAlloc.AllocateFrame | src/cralloc/frames.rs:83-87 | the frame at the cursor or none; the cursor moves either way |
| Frames.KernelFrameAlloc.AllocateMultiple | src/cralloc/frames.rs:61-71 | the range between two cursors, or none and nothing changes |
| Frames.KernelFrameAlloc.DeallocateFrame | src/cralloc/frames.rs:91-99 | the cursor goes back by one, whichever frame is freed; it panics exactly for page 0 and an unmoved cursor |
| Frames.KernelFrameAlloc.DeallocateMultiple | src/cralloc/frames.rs:73-79 | the loop panics exactly when `Free` has no result; otherwise the cursor goes back by the number of pages the range spans, which is returned |
| Heap.PageMapper.HeapInit | src/cralloc/mod.rs:46-76 | exactly the first k pages are mapped, k being all of them or the first that does not fit; the whole mapping, the page-table frames and the cursor |
| Heap.PageMapper.MapTo | src/cralloc/mod.rs:68 | page-table frames come from the cursor; the page is entered only if all were there |
| Heap.HeapInjective | src/cralloc/mod.rs:58-69 | distinct heap pages have distinct frames, whatever page-table frames are drawn in between |
| Heap.HeapAvoidsTables | src/cralloc/mod.rs:58-69 | no heap frame is a page-table frame, not even of the page that failed |
| Heap.HeapPages | src/cralloc/mod.rs:50-69 | the mapped pages are exactly the consecutive 4 KiB pages from 0x2000_0000_0000 on, each on the frame the cursor came to |
| Heap.HeapConserves | src/cralloc/mod.rs:58-69 | every frame the cursor passed is a heap frame or a page table, and the numbers agree |
| AcpiScheme.ReadsConcatenate | src/scheme/acpi.rs:243-293 | in any run that neither seeks nor closes a descriptor, its reads deliver consecutive bytes from its offset up to the space offered or the end of the file |
| AcpiScheme.ReadsEnd | src/scheme/acpi.rs:256-280 | after the end every read returns 0; a kstop handle gives at most one byte between seeks |
| AcpiScheme.SeekThenRead | src/scheme/acpi.rs:185-226 | a seek from the start followed by a read is a slice; negative positions land beyond the end |
| AcpiScheme.SeekBackUndoesRead | src/scheme/acpi.rs:201-210 | seeking back by what a read delivered restores the whole state |
| AcpiScheme.SeekEndThenRead | src/scheme/acpi.rs:211-219 | a seek k bytes before the end followed by a read delivers the last k bytes; beyond the start is EINVAL and changes nothing |
| AcpiScheme.SeekCurThenRead | src/scheme/acpi.rs:201-210 | a relative seek in either direction followed by a read is a slice, saturation included; before the start is EINVAL and changes nothing |
| AcpiScheme.SeekPastEnd | src/scheme/acpi.rs:211-220 | a seek to or past the end gives the length, and then nothing is read |
| AcpiScheme.SeekReplies | src/scheme/acpi.rs:185-226 | exactly which seeks give EBADF, EINVAL or a panic, and none of them changes anything |
| AcpiScheme.ReadReplies | src/scheme/acpi.rs:243-293 | exactly which reads give EBADF, EBADFD or the number of bytes delivered |
| AcpiScheme.StepFrame | src/scheme/acpi.rs:82-293 | an operation changes no handle but its own, keeps all descriptors below the counter, and changes nothing if it fails |
| AcpiScheme.ClosedStaysClosed | src/scheme/acpi.rs:174-187 | once a descriptor is gone every operation on it gives EBADF, in every later run |
| AcpiScheme.CloseReplies | src/scheme/acpi.rs:174-179 | a close gives 0 on an open descriptor and EBADF on any other, and the descriptor is gone |
| AcpiScheme.ClosedForGood | src/scheme/acpi.rs:174-187 | in any run every operation on a descriptor after its successful close gives EBADF |
| AcpiScheme.HandleKept | src/scheme/acpi.rs:82-293 | in any run that does not close it a descriptor keeps its file and its status flag |
| AcpiScheme.OpenThenRead | src/scheme/acpi.rs:102-139 | after a granted open reads deliver, from byte 0 on, the listing, the tables or the one byte 0x42, by the opened name, whatever happens on other descriptors |
| AcpiScheme.StatusOnly | src/scheme/acpi.rs:190-240 | in any run without a close, polling and seeking a descriptor give EBADF if it was opened for its status; otherwise polling gives 0 |
| AcpiScheme.OpensCountUp | src/scheme/acpi.rs:127-141 | the n-th successful open of a run returns the counter plus n |
| AcpiScheme.FreshDescriptors | src/scheme/acpi.rs:127-141 | no descriptor is returned twice within 2^64 opens |
| AcpiScheme.OpenGrantedIff | src/scheme/acpi.rs:83-125 | exactly which calls may open a handle |
| AcpiScheme.OpenReplies | src/scheme/acpi.rs:83-141 | exactly which calls get which error or the counter |
| AcpiScheme.TrimSlashesMeans | src/scheme/acpi.rs:84 | leading slashes and nothing else are removed |
| AcpiScheme.Scheme.Open | src/scheme/acpi.rs:83-142 | refines the specification's open, errors in order |
| AcpiScheme.Scheme.Close | src/scheme/acpi.rs:174-179 | refines the specification's close; afterwards the descriptor is not in the table |
| AcpiScheme.Scheme.Write | src/scheme/acpi.rs:181-183 | always EBADF |
| AcpiScheme.Scheme.Fevent | src/scheme/acpi.rs:228-241 | refines the specification's event query |
| AcpiScheme.Scheme.Seek | src/scheme/acpi.rs:185-226 | refines the specification's seek with wrapping, saturation, EINVAL and panics |
| AcpiScheme.Scheme.Read | src/scheme/acpi.rs:243-293 | all three kinds of handle read as abstract files, the pipe as a file of one byte; the rest of the buffer stays |
| LargeNumbers.OverflowingAdd256 | src/common/large_numbers.rs:17-29 | sum plus carry times 2^256 is the sum of the values |
| LargeNumbers.OverflowingSub256 | src/common/large_numbers.rs:31-43 | difference less borrow times 2^256 is exact, and the borrow says Less |
| LargeNumbers.Not256 | src/common/large_numbers.rs:806-818 | the value is 2^256 - 1 less the operand |
| LargeNumbers.Neg256 | src/common/large_numbers.rs:820-832 | the additive inverse modulo 2^256 |
| LargeNumbers.Cmp256 | src/common/large_numbers.rs:334-348 | the order of the values |
| LargeNumbers.Add512 | src/common/large_numbers.rs:1199-1215 | addition modulo 2^512 |
| LargeNumbers.WrapIsMod | src/common/large_numbers.rs:1199-1239 | the reduction used for sums and differences is reduction modulo 2^512 |
| LargeNumbers.Sub512 | src/common/large_numbers.rs:1223-1239 | subtraction modulo 2^512 |
| LargeNumbers.Neg512 | src/common/large_numbers.rs:1460-1472 | the additive inverse modulo 2^512 |
| LargeNumbers.Cmp512 | src/common/large_numbers.rs:1968-1982 | the order of the values |
| LargeNumbers.AddSubNeg | src/common/large_numbers.rs:1199-1239 | (a + b) - b is a, and a - b is a + (-b), limb for limb |
| LargeNumbers.ToLeBytes256 | src/common/large_numbers.rs:10-15 | 32 bytes whose base-256 value is the number |
| LargeNumbers.ToLeBytes512 | src/common/large_numbers.rs:1190-1197 | 64 bytes whose base-256 value is the number |
| Bitmap.RunRefinesSet | src/drivers/pci_impl.rs:178-200 | after any run of set calls membership is what the last call for the index said |
| Bitmap.SetInMeans | src/drivers/pci_impl.rs:178-184 | one set call adds or removes exactly that index, or nothing beyond the blocks |
| Bitmap.CalculateBlocks | src/drivers/pci_impl.rs:114-120 | the fewest blocks that hold the bits |
| Bitmap.BlockMap.NewIn | src/drivers/pci_impl.rs:145-151 | a new bitmap is the empty set |
| Bitmap.BlockMap.Set | src/drivers/pci_impl.rs:178-184 | exactly the index is added to or taken from the set, and an index beyond the blocks changes nothing |
| Bitmap.BlockMap.IsSet | src/drivers/pci_impl.rs:195-200 | membership |
| Bitmap.BlockMap.FindFirstSet | src/drivers/pci_impl.rs:247-266 | the least member, or none for the empty set |
| Bitmap.BlockMap.FindFirstUnset | src/drivers/pci_impl.rs:213-234 | the least non-member if and only if block 0 is not full, or index 64 is a clear bit of a second block |
| Bitmap.FullBlockHides | src/drivers/pci_impl.rs:213-234 | a bitmap with a full block 0 whose least non-member is 65 while index 64 is a member, and one that has no index 64 |
| Bitmap.LowestSet | src/drivers/pci_impl.rs:252-259 | the shift loop ends at the lowest set bit |
| Bitmap.LowestClear | src/drivers/pci_impl.rs:223-228 | the shift loop ends at the lowest clear bit, at 64 for a full block |
| Canvas.RoundTrip | src/drm/mod.rs:402-426 | decoding and merging down keeps the colour bytes of the first min(width * height, length / 4) pixels, clears their fourth byte and keeps every other byte, for a buffer of any length |
| Canvas.DecodeEncode | src/drm/mod.rs:370-399 | the three strided streams decode each whole pixel to the colour that encodes back to its bytes |
| Canvas.PointsAt | src/drm/mod.rs:28-31 | points run column by column |
| Canvas.PixelAt | src/drm/mod.rs:402-407 | a decoded pixel carries the point of its place in the column order |
| Canvas.LastDrawWins | src/drm/mod.rs:513-550 | a cell holds the last pixel drawn there, or its old one |
| Canvas.ConvertedKeepsColor | src/drm/mod.rs:523-537 | red, green and blue survive the change of channel order, and the stored colour is in the screen's order |
| Canvas.DrawnBytes | src/drm/mod.rs:523-550 | the four bytes of a drawn colour on each kind of screen, for each kind of colour |
| Canvas.DrawThenMerge | src/drm/mod.rs:467-491 | merging down after drawing writes the last drawn colour at byte 4 * (y * stride + x), in the screen's channel order |
| Canvas.FramebufferAfter | src/drm/mod.rs:402-550 | every byte of the framebuffer after decoding, drawing and merging down: red, green or blue of the colour drawn last at its cell in the screen's order, or the old colour byte, with the fourth byte cleared, or beyond the canvas the old byte |
| Canvas.ScreenDrawableIff | src/drm/mod.rs:520-529 | on a full framebuffer every screen point can be drawn if and only if rows have no padding or there is one row |
| Canvas.CellsDistinct | src/drm/mod.rs:520-521 | where the stride is at least the width no two points of the screen share a cell |
| Canvas.CanvasBuf.constructor | src/drm/mod.rs:420-426 | there is a pixel for every screen point that has its bytes, none more than screen points, and each encodes to its own colour bytes |
| Canvas.CanvasBuf.DrawIter | src/drm/mod.rs:513-550 | the canvas after the whole list of draws |
| Canvas.CanvasBuf.MergeDown | src/drm/mod.rs:467-491 | the framebuffer after encoding the canvas over it |
| IpiRing.RingPosition | src/arch/x86_64/interrupts.rs:184-207 | firing k + 1 activates ids[k mod n] and from the second on sends to that core |
| IpiRing.FirstFiring | src/arch/x86_64/interrupts.rs:184-189 | the first firing activates ids[0] and sends to ids[1 mod n] |
| IpiRing.FairIff | src/arch/x86_64/interrupts.rs:184-207 | from the second firing every n firings reach each core exactly once if and only if no id is zero or there is one core |
| IpiRing.ZeroRestarts | src/arch/x86_64/interrupts.rs:184-189 | with id zero in the list the first core is never sent the interrupt |
| IpiRing.Scheduler.TaskSched | src/arch/x86_64/interrupts.rs:184-207 | the search ends within one turn; active id and target after a firing |
| IrqGuards.RunNested | src/drivers/ahci/util/sync.rs:26-101 | in every well-nested run interrupts are on exactly when they were on at first and no masking guard lives, each guard saved the flag below it, and exactly the locks of live guards are held |
| IrqGuards.DropRestores | src/drivers/ahci/util/sync.rs:136-149 | once an acquisition and all inside it are dropped, flag and locks are those at its acquisition |
| IrqGuards.RunMarked | src/drivers/ahci/util/sync.rs:26-149 | in every run, guards dropped in any order: interrupts are on exactly when they were at first and no live guard is to bring them back, at most one is, and exactly the locks of live guards are held |
| IrqGuards.LockHeldIff | src/drivers/ahci/util/sync.rs:76-149 | after any run a lock is held, and cannot be taken, exactly while a guard that took it lives |
| IrqGuards.TakeThenDrop | src/drivers/ahci/util/sync.rs:76-149 | taking a lock holds it and dropping that guard frees it |
| IrqGuards.RunProtectsIff | src/drivers/ahci/util/sync.rs:26-149 | after any run live masking guards have interrupts off if and only if they were off at first, no guard masks them, or the guard that found them on is live |
| IrqGuards.DropProtectsIff | src/drivers/ahci/util/sync.rs:39-47 | in every reachable state, a drop leaves the remaining guards protected if and only if interrupts were off at first, none of them masks, or the one that found them on is among them; from a protected state, if and only if the dropped guard had not found them on or no other masks |
| IrqGuards.OuterDroppedFirst | src/drivers/ahci/util/sync.rs:39-47 | two nested guards, the outer dropped first: interrupts are on while the inner one lives |
| IrqGuards.NestedMarked | src/drivers/ahci/util/sync.rs:26-101 | well-nested states are always protected |
| IrqGuards.ReleasedBeforeEnabled | src/drivers/ahci/util/sync.rs:136-149 | the lock is given back while interrupts are still off |
| IrqGuards.Processor.NewIrqGuard | src/drivers/ahci/util/sync.rs:28-36 | saves the flag and disables interrupts |
| IrqGuards.Processor.Lock | src/drivers/ahci/util/sync.rs:76-81 | takes the lock and leaves interrupts alone |
| IrqGuards.Processor.LockIrq | src/drivers/ahci/util/sync.rs:90-101 | disables interrupts, then takes the lock |
| IrqGuards.Processor.DropIrqGuard | src/drivers/ahci/util/sync.rs:39-47 | enables interrupts if they had been on |
| IrqGuards.Processor.DropMutexGuard | src/drivers/ahci/util/sync.rs:136-149 | gives the lock back, then enables interrupts if they had been on |

## Left out

- Device waits, resets and error bits of the AHCI port; commands complete when they are issued.
- The page mappings `pmm_alloc` and `start` enter: the fill clears physical memory from the block on, and faults on
  pages it does not find mapped, or on page tables it has itself cleared, are not modelled.
- Writes to the disk: the driver only ever builds read requests.
- Wrap-around of the frame cursor at 2^64, and of the AHCI byte counts beyond the largest slice.
- Page-table internals: `map_to` is the number of frames it draws and whether it accepts the page.
- `fstat`, and the wait for the shutdown flag in a read of `kstop`; the bytes behind `rxsdt` are any fixed string.
- The bit positions of the open flags: each flag the scheme tests is a boolean.
- Multiplication, division, remainder, shifts and mixed-width comparison of u256 and u512.
- The `Add` and `Sub` operators of u256, which repeat the loops of `overflowing_add` and `overflowing_sub`.
- Alpha blending, PNG decoding and the round trip of grey framebuffers, which loses colour.
- Framebuffers of unknown pixel format, which panic.
- The process-table half of `task_sched`, and where the list of LAPIC ids comes from: the ids are any fixed list.
- More than one CPU in the lock model; `force_unlock`.
- HMFS, ACPI and AML parsing, APIC, xHCI, processes, signals and the runner.
