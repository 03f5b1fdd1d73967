# KernelX: verified models

Dafny models of the parts of KernelX whose guarantees span many functions, with proofs of those
guarantees. `dafny verify dfyconfig.toml` checks everything.

Four groups are modelled.

**The kernel heap** (`Bits`, `Tlsf*`). The two-level segregated-fit allocator runs on a map from
addresses to words, with the header flags, the back pointer that lies inside the block before it, the
doubly linked free lists and both bitmaps as in the source. `TlsfTiling` says what the words mean: a
map from block addresses to sizes and marks. `TlsfHeap.Heap.Valid` is the heap invariant: blocks tile
the pool exactly, neighbours are coalesced, prev-free bits and back pointers agree with the block
before, every free block is in the one list of its size class, the bitmaps mark exactly the non-empty
lists, and clients hold exactly the used payloads. Every store of the allocator goes through
`Heap.Store`, which demands that the word is outside every live client range; that is what "no
allocator step writes into a live payload" means here. `TlsfClients` puts it all together: whole programs
run on the heap see private memory.

**The flattened devicetree library** (`Fdt*`). Trees are read and written as bytes. `FdtTokens` gives
the structure block a meaning as a sequence of tokens, `FdtParse` as the events a walk sees.
`FdtFormat` gives the bytes of a tree as the Devicetree Specification has them and shows that the reader takes
exactly those. `FdtWriter` is the sequential writer with its phases, its two blocks that grow towards each other in
one buffer, the relocation of the strings and the patching of name offsets; `FdtPadding` follows its
padding. `FdtCheck` is the validator, `FdtProgram` whole programs of the writer, `FdtEdit` the editing by
splices. The header is a record of words beside the buffer; the first 48 bytes of the buffer are its place
and are not read.

**Memory and storage** (`Cow*`, `Sv39*`, `Ext4*`). Copy-on-write areas are proved to behave
as if each fork had copied all memory (`CowPlain`). The Sv39 page table is proved to be a map from virtual pages,
the one the hardware walk sees (`Sv39Hardware`), to free each table page once, and never to free a page
that is mapped. File reads that merge physically consecutive blocks are proved equal to reading one
sequence of bytes, and writes to overlaying it exactly when no unmapped hole is covered in part;
`Ext4Device` says which bytes of the device a write leaves alone.

**Kernel state machines** (`SchedState`, `SchedSteps`, `Scheduler`, `Processes`, `Timer`,
`Signals`). One hart; each
system call or interrupt body is one step. Each class has an invariant over all runs and, where it
says more, a `Run` method that executes any sequence of steps or a lemma about every run. `Common` holds
what several models use.

## What the proofs found

- A pool of exactly `block_size_max` bytes passes the size test of `tlsf_add_pool` and maps past the
  last list. `TlsfMapping.ClassInRange` shows that the list index is in range exactly for smaller sizes.
- `align_up` wraps for the last seven request sizes. `TlsfMapping.AdjustWord` shows that the adjusted
  size is too small exactly there.
- `tlsf_memalign` with an alignment of 2^63 searches for the smallest block. `TlsfMapping.SearchExactly`
  shows that every smaller alignment is searched with a size that leaves room.
- The room test of the writer's `fdt_add_string_` subtracts on 32-bit words and lets a name pass that is
  larger than the whole buffer (`FdtDraft.RoomExample`). `FdtDraft.RoomTest` and
  `FdtWriter.Writer.AddString` show exactly for which sizes it answers right.
- A write that covers an unmapped hole only in part shows what the device held in the rest of the block
  (`Ext4Holes.StaleExample`), and without extents the bytes for a hole go to device block 0.
  `Ext4Holes.OverlayExactly` gives the exact condition under which a write overlays the old contents.
- `mmap_replace_perm` on a page that is not mapped maps the frame number its entry still holds, which may by
  now be a table page (`Sv39.StaleFrame`). `Sv39.PageTable.MmapReplacePerm` shows exactly when it is safe.
- A vfork parent is woken exactly when its child itself exits or calls exec. It waits for ever when the child dies by a
  signal (`Scheduler.StuckBySignal`), and when another task of the child's process calls `exit_group` or `execve`, which
  mark every task of the process and wake the parent of the caller only (`Scheduler.StuckByThread`).
  `SchedSteps.NextVfork` gives the condition for each step, `SchedSteps.VforkFate` for every run.
- A periodic timer of a process that exited is armed again exactly when its exit status has been collected by then, because
  such a process no longer counts as exited (`Timer.ExpiryAfterExit`).
- A task that is woken in `wait_any_child` for a child another waiter collected blocks again without being registered, so
  that the next exit does not wake it (`Processes.WaiterForgotten`, with the condition in
  `Processes.Table.WaitAnyChildResume`).
- `fdt_begin_node` holds the length of the name in an `int`: a name of 2^32 - 1 bytes passes for one without bytes.
  `FdtWriter.Writer.BeginNode` shows exactly for which names this goes wrong.
- `wait_child` marks a child dead when it asks for a status that is not there yet, and a status it
  collects without blocking leaves the child in the list. `Processes.Table` keeps both as they are;
  each status is still collected at most once, because the later exit overwrites the mark.
- `wakeup_task_uninterruptible` queues its task whatever the task's state is. `Scheduler` shows that the
  only caller never does this to a task that is already queued.

## Model

| member | source | states |
|---|---|---|
| `Bits.Ffs` | clib/lib/tlsf/tlsf.c:60-76 | the lowest set bit of a word, -1 for zero |
| `Bits.Clz` | clib/lib/tlsf/tlsf.c:80-90 | by halving shifts, the number of leading zeros |
| `Bits.Fls` | clib/lib/tlsf/tlsf.c:92-96 | the highest set bit, -1 for zero |
| `Bits.FlsSizet` | clib/lib/tlsf/tlsf.c:202-216 | the highest set bit of a 64-bit size from two 32-bit scans |
| `TlsfMapping.ClassThreshold` | clib/lib/tlsf/tlsf.c:538-555 | the lists partition the sizes in order: a size is in list c exactly when it lies between the floors of c and c + 1 |
| `TlsfMapping.ClassInRange` | clib/lib/tlsf/tlsf.c:1023-1036 | the list index lies inside the control structure exactly for sizes below `block_size_max` |
| `TlsfMapping.MappingInsert` | clib/lib/tlsf/tlsf.c:538-555 | the bit tricks give the list whose range holds the size |
| `TlsfMapping.MappingSearch` | clib/lib/tlsf/tlsf.c:558-566 | the rounded search gives the first list whose every block holds the size |
| `TlsfMapping.GoodFit` | clib/lib/tlsf/tlsf.c:538-598 | the round-up exceeds a request of 256 bytes or more by less than 1/32 of it and a smaller one by nothing, and no earlier list is safe |
| `TlsfMapping.SearchReaches` | clib/lib/tlsf/tlsf.c:568-598 | a free block is in a searched list exactly when it reaches the round-up |
| `TlsfMapping.AdjustOk` | clib/lib/tlsf/tlsf.c:517-531 | an adjusted request is aligned, in range and holds the request; it is zero exactly for an empty request and one that rounds up to the maximum |
| `TlsfMapping.AdjustWord` | clib/lib/tlsf/tlsf.c:493-531 | the adjusted size holds the request exactly when `align_up` does not wrap |
| `TlsfMapping.SpotOk` | clib/lib/tlsf/tlsf.c:1166-1196 | the aligned spot of `memalign` needs no gap, or a gap large enough for a block |
| `TlsfMapping.SpotFirst` | clib/lib/tlsf/tlsf.c:1166-1196 | an earlier aligned address is passed over only when the gap before it is not empty and too small for a block |
| `TlsfMapping.SearchExactly` | clib/lib/tlsf/tlsf.c:1166-1181 | the size `memalign` searches with leaves room for the request and any gap exactly for alignments up to 2^62; for 2^63 the rounding wraps and the smallest block is searched for |
| `TlsfMapping.SearchSizes` | clib/lib/tlsf/tlsf.c:1166-1181 | for alignments from 16 to 2^62 the size searched for holds the request, the alignment and a smallest block and exceeds that by less than the alignment; it is zero exactly when the request, twice the alignment and the block pass the maximum; for smaller alignments it is the request |
| `TlsfControl.Control.constructor` | clib/lib/tlsf/tlsf.c:822-838 | empty lists, cleared bitmaps |
| `TlsfControl.Control.SearchSuitableBlock` | clib/lib/tlsf/tlsf.c:568-598 | the head of the first non-empty list from the given one on, zero exactly when all those lists are empty |
| `TlsfSteps.Header` | clib/lib/tlsf/tlsf.c:390-434 | the header word of a block decodes to the block's size and marks |
| `TlsfSteps.CutHeaders` | clib/lib/tlsf/tlsf.c:672-691 | the stores of a split leave memory that describes the cut tiling |
| `TlsfSteps.AbsorbHeader` | clib/lib/tlsf/tlsf.c:694-701 | the store of an absorb leaves memory that describes the joined tiling |
| `TlsfSteps.ClientWrite` | clib/lib/tlsf/tlsf.c:317-338 | a client's store into its own range disturbs nothing the allocator relies on |
| `TlsfLayout.Unlink` | clib/lib/tlsf/tlsf.c:601-627 | a block has exactly one place in the lists; taking it out leaves the lists right |
| `TlsfLayout.Link` | clib/lib/tlsf/tlsf.c:630-648 | putting a free block at the head of its list leaves the lists right |
| `TlsfLayout.Disjoint` | clib/lib/tlsf/tlsf.c:1143-1149 | live client ranges are pairwise disjoint, aligned and inside the pool |
| `TlsfLayout.RestFits` | clib/lib/tlsf/tlsf.c:735-745 | what an allocation leaves of a block serves any request it is large enough for |
| `TlsfTiling.TilesCut` | clib/lib/tlsf/tlsf.c:672-691 | cutting a block in two keeps the tiling |
| `TlsfTiling.AllocCoherent` | clib/lib/tlsf/tlsf.c:808-819 | allocating keeps the tiling, the prev-free bits and coalescing |
| `TlsfTiling.AllocCarved` | clib/lib/tlsf/tlsf.c:735-745 | what an allocation makes of a block, in numbers: exactly the request, and the rest as a free block, when the rest makes a block; otherwise the whole; nothing else changes but the mark behind |
| `TlsfTiling.AlignedCoherent` | clib/lib/tlsf/tlsf.c:762-776 | allocating behind a leading gap does too |
| `TlsfTiling.AlignedCarved` | clib/lib/tlsf/tlsf.c:735-776 | the same behind a leading gap, which becomes a free block |
| `TlsfTiling.FreeCoherent` | clib/lib/tlsf/tlsf.c:704-732 | freeing with both merges keeps the tiling and leaves no two free neighbours |
| `TlsfTiling.FreeUndoesAlloc` | clib/lib/tlsf/tlsf.c:704-745 | freeing undoes an allocation: the same sizes and marks |
| `TlsfTiling.FreeUndoesAligned` | clib/lib/tlsf/tlsf.c:704-776 | freeing undoes an aligned allocation through both merges |
| `TlsfHeap.Heap.constructor` | clib/lib/tlsf/tlsf.c:1008-1055 | a new heap of one free block and a sentinel, or no pool at all when the size is refused; the pool begins behind the bitmaps and list heads; the invariant holds |
| `TlsfHeap.Heap.AddPool` | clib/lib/tlsf/tlsf.c:1036-1054 | the first block, its list and the sentinel make a valid heap |
| `TlsfHeap.Heap.Store` | clib/lib/tlsf/tlsf.c:462-491 | no allocator store falls into a live client range |
| `TlsfHeap.Heap.RemoveFreeBlock` | clib/lib/tlsf/tlsf.c:601-627 | unlinking, with the head and both bitmaps |
| `TlsfHeap.Heap.InsertFreeBlock` | clib/lib/tlsf/tlsf.c:630-648 | linking at the head, with both bitmaps |
| `TlsfHeap.Heap.BlockSplit` | clib/lib/tlsf/tlsf.c:672-691 | splits off a free remainder and leaves every client word alone |
| `TlsfHeap.Heap.BlockMergePrev` | clib/lib/tlsf/tlsf.c:704-716 | joins a free block with a free block before it, which leaves its list |
| `TlsfHeap.Heap.BlockMergeNext` | clib/lib/tlsf/tlsf.c:719-732 | joins a free block with a free block behind it, which leaves its list |
| `TlsfHeap.Heap.BlockTrimFree` | clib/lib/tlsf/tlsf.c:735-745 | splits exactly when the rest makes a block, which goes back to its list |
| `TlsfHeap.Heap.BlockTrimFreeLeading` | clib/lib/tlsf/tlsf.c:762-776 | a leading gap of at least a block's size goes back as a free block |
| `TlsfHeap.Heap.BlockLocateFree` | clib/lib/tlsf/tlsf.c:778-806 | the block found reaches the round-up and is of the smallest such class; nothing is found exactly when no free block reaches it |
| `TlsfHeap.Heap.BlockPrepareUsed` | clib/lib/tlsf/tlsf.c:808-819 | trims and marks used: exactly the allocation step of the tiling (`TlsfTiling.AllocCarved`) |
| `TlsfHeap.Heap.Malloc` | clib/lib/tlsf/tlsf.c:1143-1149 | null exactly when the request is empty, too large or finds no fit; otherwise a fresh range that holds it and is less than 32 bytes larger, the rest of the block being free; the invariant holds and no client word changed |
| `TlsfHeap.Heap.Memalign` | clib/lib/tlsf/tlsf.c:1151-1206 | the same, at the first aligned address of the block that leaves no gap or one that makes a block; whenever a gap is needed the leading split succeeds |
| `TlsfHeap.Heap.Free` | clib/lib/tlsf/tlsf.c:1208-1221 | the range goes back, coalesced with both neighbours; the invariant holds and no other client word changed |
| `TlsfRuns.StepKeeps` | clib/lib/tlsf/tlsf.c:601-760 | every successful call keeps the invariant of tiling and clients |
| `TlsfRuns.RunSafe` | clib/lib/tlsf/tlsf.c:601-760 | in every run, in every state, any two live ranges are disjoint and inside the pool |
| `TlsfRuns.FreeRestores` | clib/lib/tlsf/tlsf.c:704-732 | malloc or memalign and an immediate free restore the same tiling and clients |
| `TlsfRuns.MallocTwice` | clib/lib/tlsf/tlsf.c:1143-1149 | a second request is not refused when the block the first came from held both |
| `TlsfRuns.WalkAll` | clib/lib/tlsf/tlsf.c:932-947 | the pool walk visits every block once, in address order |
| `TlsfRuns.WalkBytes` | clib/lib/tlsf/tlsf.c:932-947 | the bytes of the blocks add up to the pool |
| `TlsfRuns.CheckPool` | clib/lib/tlsf/tlsf.c:852-967 | the allocator's pool check finds no fault in any heap it can produce |
| `TlsfRuns.Check` | clib/lib/tlsf/tlsf.c:869-919 | nor does the check of lists and bitmaps |
| `TlsfClients.Run` | clib/src/klib/malloc.c:7-33 | any program of `malloc`, `malloc_aligned`, `free`, stores and loads on a new heap answers as clients would that each keep their words in a map of their own |
| `TlsfClients.Separate` | clib/lib/tlsf/tlsf.c:1143-1221 | in every state of every such run the ranges as requested are pairwise disjoint |
| `TlsfClients.ReadsBack` | clib/lib/tlsf/tlsf.c:462-491 | a load gives the word stored there last, whatever calls came between, as long as the range was not freed |
| `TlsfClients.OwnStore` | clib/lib/tlsf/tlsf.c:317-338 | a client's store is seen in its own range only |
| `TlsfClients.Granted` | clib/lib/tlsf/tlsf.c:1143-1206 | a new range overlaps none that is held, and every word stored so far is still there |
| `TlsfClients.Released` | clib/lib/tlsf/tlsf.c:1208-1221 | after a free every word of the other ranges is still there |
| `FdtTokens.TokensConcat` | clib/lib/libfdt/fdt.c:162-221 | parsing is local: the tokens of a concatenation are those of its parts |
| `FdtParse.NextTag` | clib/lib/libfdt/fdt.c:162-221 | the tag scanner reports the token that is there and the next aligned offset, or why there is none; `FdtFormat.TagIsWord` says in bytes what is there |
| `FdtParse.FindString` | clib/lib/libfdt/fdt.c:315-325 | the first place where a string with its NUL occurs, -1 exactly when there is none |
| `FdtFormat.WordRead` | clib/lib/libfdt/libfdt.h:141-149 | reading a word takes the first of four bytes as the most significant |
| `FdtFormat.WordWritten` | clib/lib/libfdt/libfdt_env.h:29-56 | so does writing one, for every 32-bit word |
| `FdtFormat.TagIsWord` | clib/lib/libfdt/fdt.c:162-221 | the tag reported is the word at the offset, one of 1, 2, 3, 4 and 9 |
| `FdtFormat.FormatExactly` | clib/lib/libfdt/fdt.c:162-221 | a walk sees exactly the events whose bytes, as section 5.4 of the Devicetree Specification v0.4 gives them, the structure block consists of |
| `FdtFormat.ExampleRead` | clib/lib/libfdt/fdt.c:162-221 | a structure block given byte by byte is read as one unnamed root with one property |
| `FdtFormat.ExampleTags` | clib/lib/libfdt/fdt.c:162-221 | the scanner reports the tags 1, 3, 2 and 9 of those bytes at offsets 0, 8, 24 and 28 |
| `FdtFormat.MapSpelled` | clib/lib/libfdt/fdt_ro.c:160-199 | a reserve map that reads as some entries holds for each its address and size in eight bytes, the most significant first |
| `FdtFormat.HeaderExactly` | clib/lib/libfdt/fdt.c:89-138 | the header fields that are accepted, with the magic number and sizes written out |
| `FdtChunks.BeginChunk` | clib/lib/libfdt/fdt_sw.c:219-234 | the bytes of a node header parse as that node header, whatever the padding holds |
| `FdtChunks.PropChunk` | clib/lib/libfdt/fdt_sw.c:314-334 | the bytes of a property parse as that property, whatever the padding holds |
| `FdtPatch.PatchRound` | clib/lib/libfdt/fdt_sw.c:359-373 | one round of the patching loop corrects one token and leaves the others |
| `FdtPatch.PatchDone` | clib/lib/libfdt/fdt_sw.c:359-374 | when the loop ends every name offset is shifted and nothing else changed |
| `FdtPadding.PadsRound` | clib/lib/libfdt/fdt_sw.c:359-373 | correcting a name offset touches no padding |
| `FdtPadding.EmitDraft` | clib/lib/libfdt/fdt_sw.c:94-107 | a token written into zeroed space leaves the tree its meaning and padding of zeros |
| `FdtFormat.PadsSpelled` | clib/lib/libfdt/fdt_sw.c:337-384 | a block with padding of zeros and nothing behind its end consists of exactly the bytes of its events |
| `FdtReserve.MapAt` | clib/lib/libfdt/fdt_sw.c:188-206 | every reserve entry written is read back |
| `FdtDraft.SwEventPrepend` | clib/lib/libfdt/fdt_sw.c:250-265 | a string added in front leaves every name already written as it was, because offsets count from the end |
| `FdtDraft.ShiftedEvents` | clib/lib/libfdt/fdt_sw.c:359-373 | shifting offsets by the size of the strings turns them into offsets from the start: the same names |
| `FdtDraft.RoomTest` | clib/lib/libfdt/fdt_sw.c:257-260 | the 32-bit room test refuses strings exactly when there is no room for them, if and only if their size is outside two ranges given by the sizes of the buffer and of what it holds |
| `FdtDraft.RoomExample` | clib/lib/libfdt/fdt_sw.c:257-260 | strings one byte larger than the whole buffer pass the test |
| `FdtWriter.Writer.Create` | clib/lib/libfdt/fdt_sw.c:109-141 | opens the reserve phase exactly for a large enough buffer and known flags, with the buffer cleared |
| `FdtWriter.Writer.AddReservemapEntry` | clib/lib/libfdt/fdt_sw.c:188-206 | one more entry, or an error for the phase or the space and no change |
| `FdtWriter.Writer.FinishReservemap` | clib/lib/libfdt/fdt_sw.c:208-217 | moves to the structure phase, or fails without change |
| `FdtWriter.Writer.ProbeMemrsv` | clib/lib/libfdt/fdt_sw.c:38-46 | succeeds exactly in the reserve phase |
| `FdtWriter.Writer.ProbeStruct` | clib/lib/libfdt/fdt_sw.c:64-73 | succeeds exactly in the structure phase |
| `FdtWriter.Writer.GrabSpace` | clib/lib/libfdt/fdt_sw.c:94-107 | grows the structure block exactly when it stays below the strings |
| `FdtWriter.Writer.BeginNode` | clib/lib/libfdt/fdt_sw.c:219-234 | appends one event exactly when the phase is right and there is room, else changes nothing; astray exactly where the length is no `int` and what is left of it fits |
| `FdtWriter.Writer.EndNode` | clib/lib/libfdt/fdt_sw.c:236-248 | appends one event exactly when the phase is right and there is room, else changes nothing |
| `FdtWriter.Writer.AddString` | clib/lib/libfdt/fdt_sw.c:250-265 | for every name: the copy goes astray exactly where the room test is wrong; otherwise it is refused exactly when there is no room, and a string in front of the others leaves the tree its meaning |
| `FdtWriter.Writer.NameOffset` | clib/lib/libfdt/fdt_sw.c:276-307 | an offset at which the name is read, shared exactly when it is there and sharing is on; 0 exactly when it has to be added and does not fit |
| `FdtWriter.Writer.Property` | clib/lib/libfdt/fdt_sw.c:293-335 | appends the property exactly when it and, where needed, its name fit; otherwise both blocks and the events are as before, the string taken back |
| `FdtWriter.Writer.CorrectNames` | clib/lib/libfdt/fdt_sw.c:359-375 | the in-place loop ends, patches every property and touches nothing outside the structure block |
| `FdtWriter.Writer.Finish` | clib/lib/libfdt/fdt_sw.c:337-384 | the finished blob shows exactly the calls made, with the strings written and zeros for padding if the space was clean; or there was no room for the end tag and nothing changed |
| `FdtRoundTrip.RoundTrip` | clib/lib/libfdt/fdt_sw.c:219-384 | walking a finished blob yields the same nodes, properties and values in order, and the validator accepts it exactly when the calls form one unnamed root |
| `FdtRoundTrip.ReserveMap` | clib/lib/libfdt/fdt_sw.c:188-217 | the reserve entries of a finished blob are read back in order |
| `FdtProgram.Write` | clib/lib/libfdt/fdt_sw.c:109-384 | a whole program of reserve entries, nodes and properties, finished and validated, succeeds exactly when the blob fits the buffer; then the structure block, strings and reserve map are, byte by byte, those of the specification for the program, padded with zeros, the walk gives the calls back, and the validator accepts exactly one unnamed root |
| `FdtProgram.WriteExample` | clib/lib/libfdt/fdt_sw.c:109-384 | one unnamed root with one property is written as the literal bytes |
| `FdtProgram.CheckExample` | clib/lib/libfdt/fdt_check.c:13-96 | a blob given by its literal bytes is accepted |
| `FdtProgram.FitBefore` | clib/lib/libfdt/fdt_sw.c:94-107 | if the whole program fits, so does each part of it: a call fails only when the program does not fit |
| `FdtBlob.CheckHeader` | clib/lib/libfdt/fdt.c:89-138 | accepts exactly the headers whose blocks lie inside the blob, despite wrapping sums |
| `FdtBlob.NumMemRsv` | clib/lib/libfdt/fdt_ro.c:160-199 | the index of the first entry of size zero, an error exactly when there is none |
| `FdtBlob.GetString` | clib/lib/libfdt/fdt_ro.c:34-98 | succeeds exactly on a NUL-terminated string inside the strings block |
| `FdtBlob.GetName` | clib/lib/libfdt/fdt_ro.c:303-334 | the name of the node header at an offset, an error exactly when there is none |
| `FdtCheck.CheckTree` | clib/lib/libfdt/fdt_check.c:13-96 | the depth-counting loop ends on every buffer and accepts exactly the well-formed trees |
| `FdtCheck.CheckFull` | clib/lib/libfdt/fdt_check.c:13-96 | accepts exactly the blobs with a good header, a terminated reserve map and a walk with balanced tags, depth never negative, at most one top-level node, unnamed, and every name resolved |
| `FdtCheck.OneRoot` | clib/lib/libfdt/fdt_check.c:45-83 | in an accepted tree the top-level node stays open to the last event |
| `FdtCursor.NextNode` | clib/lib/libfdt/fdt.c:247-285 | the next node begin, or the place after the end of the enclosing node, with the right depth |
| `FdtCursor.NodeEndOffset` | clib/lib/libfdt/fdt_wip.c:73-81 | the place after the matching end tag, an error exactly when the node is not closed |
| `FdtCursor.SubnodeOffset` | clib/lib/libfdt/fdt_ro.c:225-242 | the first direct child that answers to a name, none before it does, an error exactly when none does |
| `FdtCursor.NodenameEq` | clib/lib/libfdt/fdt_ro.c:13-32 | a node answers to its name and to its name without the unit address |
| `FdtCursor.NodeUnique` | clib/lib/libfdt/fdt_wip.c:73-81 | a node ends in one place only |
| `FdtCursor.SpliceTokens` | clib/lib/libfdt/fdt_rw.c:83-95 | replacing the bytes between two token boundaries replaces exactly the tokens between them |
| `FdtProps.GetProperty` | clib/lib/libfdt/fdt_ro.c:397-425 | the first property of a node with a name, past fillers; not found exactly when the run of properties has none |
| `FdtEdit.Edited` | clib/lib/libfdt/fdt_rw.c:54-95 | a splice of whole tokens is that edit of the parsed tree and no other |
| `FdtEdit.Tree.SpliceStruct` | clib/lib/libfdt/fdt_rw.c:54-95 | the bytes before and behind the splice and the strings arrive whole; no space means no change |
| `FdtEdit.Tree.DelNode` | clib/lib/libfdt/fdt_rw.c:382-394 | succeeds exactly on a closed node and takes out exactly its tokens |
| `FdtEdit.Tree.AddSubnode` | clib/lib/libfdt/fdt_rw.c:333-375 | a new empty node behind the parent's properties; refused exactly when a child answers to the name; unchanged on every error |
| `FdtEdit.Tree.FindAddString` | clib/lib/libfdt/fdt_rw.c:127-153 | an offset at which the name is read; names already there keep their meaning |
| `FdtEdit.Tree.AddProperty` | clib/lib/libfdt/fdt_rw.c:202-233 | a new first property, exactly when it and, where needed, its name fit; otherwise the header, blocks and tree are as before, the string taken back |
| `FdtEdit.Tree.SetProp` | clib/lib/libfdt/fdt_rw.c:258-289 | replaces the value of the first property so named, or adds one, exactly when the difference in size fits; every error with its cause; nothing else in the tree changes, and nothing at all on an error |
| `CowState.MapKeeps` | src/kernel/mm/maparea/anonymous.rs:38-61 | mapping a frame no other slot holds, with the old contents, keeps the invariant and every contents |
| `CowState.WriteKeeps` | src/kernel/mm/maparea/anonymous.rs:106-135 | a write through an allocated slot is seen in that page of that area only |
| `CowState.ForkKeeps` | src/kernel/mm/maparea/anonymous.rs:141-210 | a fork shares every frame, changes no contents and gives the child the parent's |
| `CowState.DropKeeps` | src/kernel/mm/maparea/anonymous.rs:301-316 | letting a slot go frees the frame with its last reference, and no entry can reach it |
| `CowPlain.WriteReads` | src/kernel/mm/maparea/anonymous.rs:106-135 | a byte written is read back at its address, and every other address of every area reads as before |
| `CowPlain.ReadsLatest` | src/kernel/mm/maparea/anonymous.rs:84-246 | after any sequence of calls an address reads as the last store to it since the area was made, forked or unmapped, or as it did before |
| `Cow.Machine.AllocatePage` | src/kernel/mm/maparea/anonymous.rs:38-50 | a zeroed frame for an untouched page changes nothing anyone reads |
| `Cow.Machine.CopyOnWritePage` | src/kernel/mm/maparea/nofilemap.rs:68-87 | the last holder keeps the frame, any other gets a copy; nothing anyone reads changes |
| `Cow.Machine.TranslateRead` | src/kernel/mm/maparea/anonymous.rs:84-104 | an address whose byte is the one the area reads there |
| `Cow.Machine.TranslateWrite` | src/kernel/mm/maparea/anonymous.rs:106-135 | an address in a frame no other slot holds, exactly for writable areas and addresses in range |
| `Cow.Machine.TryToFixMemoryFault` | src/kernel/mm/maparea/anonymous.rs:213-246 | its panics are unreachable, nothing anyone reads changes, and the access goes through afterwards |
| `Cow.Machine.LoadUser` | src/kernel/mm/maparea/anonymous.rs:213-246 | a user load or instruction fetch, its fault handled, gives the byte of unshared memory |
| `Cow.Machine.StoreUser` | src/kernel/mm/maparea/anonymous.rs:213-246 | a user store, its fault handled, changes that byte of unshared memory and no other (`CowPlain.WriteReads`) |
| `Cow.Machine.ForkArea` | src/kernel/mm/maparea/anonymous.rs:141-210 | the two passes of a fork copy the area of unshared memory |
| `Cow.Machine.UnmapArea` | src/kernel/mm/maparea/anonymous.rs:301-316 | all pages of the area are untouched again |
| `Cow.Machine.Run` | src/kernel/mm/maparea/anonymous.rs:38-246 | any interleaving of faults, stores, kernel accesses, forks and unmaps reports and leaves what it would if each fork had copied all memory, and each load reports the last byte stored at its address |
| `Sv39Pte.FlagsFields` | src/arch/riscv/pagetable/pte.rs:167-174 | setting flags sets the flags and keeps the page number |
| `Sv39Pte.PpnFields` | src/arch/riscv/pagetable/pte.rs:176-183 | setting the page number sets it and keeps the flags |
| `Sv39Pte.PermRoundTrip` | src/arch/riscv/pagetable/pte.rs:132-152 | permissions survive the trip through flags |
| `Sv39Pte.FlagBits` | src/arch/riscv/pagetable/pte.rs:119-152 | valid, read, write, execute and user are bits 0 to 4 of an entry, accessed and dirty bits 6 and 7 |
| `Sv39Pte.PpnBits` | src/arch/riscv/pagetable/pte.rs:167-183 | the page number is bits 10 to 53; setting it changes no other bit, and setting flags changes none of these |
| `Sv39Pte.VpnDigits` | src/arch/riscv/pagetable/pte.rs:48-54 | the three table indices are the nine-bit digits of the page number, the highest first |
| `Sv39Pte.SameEntry` | src/arch/riscv/pagetable/pte.rs:48-54 | two addresses use the same entry exactly when they have the same 27-bit page number |
| `Sv39Table.GrowKeeps` | src/arch/riscv/pagetable/pagetable.rs:83-107 | a new table page keeps the tables a tree in which no page is reached twice |
| `Sv39Table.GrowTranslates` | src/arch/riscv/pagetable/pagetable.rs:83-107 | a new table page changes no translation and no leaf entry |
| `Sv39Table.StoreKeeps` | src/arch/riscv/pagetable/pte.rs:194-202 | writing a leaf entry changes that entry and no other |
| `Sv39Table.ExclusiveAt` | src/arch/riscv/pagetable/pagetable.rs:196-260 | after a change of one key the mapped pages are apart from the table pages and the allocator's exactly when the new page is |
| `Sv39Hardware.HardwareAgrees` | src/arch/riscv/pagetable/pagetable.rs:58-107 | the walk of the RISC-V privileged architecture over the same words finds exactly the pages the map has, with their frames and permissions, and faults on all others |
| `Sv39.PageTable.FindPte` | src/arch/riscv/pagetable/pagetable.rs:58-76 | the walk finds the leaf entry exactly when the page is mapped |
| `Sv39.PageTable.FindPteOrCreate` | src/arch/riscv/pagetable/pagetable.rs:83-107 | the leaf entry as it was, its tables created from pages of the allocator that were not in memory; no translation changes |
| `Sv39.PageTable.Mmap` | src/arch/riscv/pagetable/pagetable.rs:196-207 | exactly one key of the map changes, to this frame and these flags; mapped pages stay apart from tables and allocator, and no page but tables is written |
| `Sv39.PageTable.MmapReplace` | src/arch/riscv/pagetable/pagetable.rs:218-225 | exactly one key changes; new tables come from the allocator, and no page but tables is written |
| `Sv39.PageTable.MmapReplaceKaddr` | src/arch/riscv/pagetable/pagetable.rs:227-231 | the frame of one key changes; a page that is not mapped stays so; new tables come from the allocator, and no page but tables is written |
| `Sv39.PageTable.MmapReplacePerm` | src/arch/riscv/pagetable/pagetable.rs:233-239 | the flags of one key change; a page that was not mapped becomes mapped with the frame number its entry still holds, and mapped pages stay apart from tables and allocator exactly when that frame is |
| `Sv39.PageTable.Munmap` | src/arch/riscv/pagetable/pagetable.rs:241-245 | exactly one key is removed; the frame number stays in the entry |
| `Sv39.PageTable.MunmapWithCheck` | src/arch/riscv/pagetable/pagetable.rs:247-260 | removes the key exactly when it maps this frame |
| `Sv39.PageTable.TakeAccessDirtyBit` | src/arch/riscv/pagetable/pagetable.rs:262-270 | reports and clears two flags of one key |
| `Sv39.PageTable.FreePagetable` | src/arch/riscv/pagetable/pagetable.rs:109-120 | frees exactly the table pages at and below a table, each once |
| `Sv39.PageTable.Drop` | src/arch/riscv/pagetable/pagetable.rs:185-190 | frees every table page once and nothing else, and no page that is mapped |
| `Sv39.StaleFrame` | src/arch/riscv/pagetable/pagetable.rs:233-245 | map, unmap, give the frame back and change permissions: the page is mapped again to a frame that is the allocator's or a table |
| `Sv39Runs.Use` | src/arch/riscv/pagetable/pagetable.rs:196-270 | after any sequence of calls the table translates as the map that the calls make as updates, as far as the allocator has pages, and so does the hardware walk |
| `Sv39Runs.Lifetime` | src/arch/riscv/pagetable/pagetable.rs:185-270 | a table made, used by any sequence of calls and dropped: memory is as before, and the pages freed are those taken from the allocator, each once, none of them mapped |
| `Sv39Table.OwnOn` | src/arch/riscv/pagetable/pagetable.rs:83-107 | calls that write only tables compose |
| `Ext4Blocks.RunIsSeg` | lib/lwext4_rust/src/inode/file.rs:107-119 | a run of device blocks is the run of logical blocks that lies there |
| `Ext4Blocks.PutRunFull` | lib/lwext4_rust/src/inode/file.rs:197-204 | writing a run of device blocks writes those logical blocks and no others |
| `Ext4.Inode.ReadBlocks` | lib/lwext4_rust/src/inode/file.rs:105-134 | the merging loop gives exactly the bytes of the blocks, holes as zeros, and never takes more buffer than there is |
| `Ext4.Inode.ReadAt` | lib/lwext4_rust/src/inode/file.rs:67-150 | exactly the file's bytes from the position; the remaining length is below a block where the source asserts it |
| `Ext4.Inode.WriteBlocks` | lib/lwext4_rust/src/inode/file.rs:194-214 | the merging loop writes exactly the next bytes of the buffer, initialising or appending blocks |
| `Ext4.Inode.InitInodeFblock` | lib/lwext4_rust/c/lwext4/src/ext4_extent.c:2048-2125 | the device block of a logical block; a hole in an inode with extents gets one, cleared only where the extent was unwritten; without extents the answer for a hole is 0 |
| `Ext4.Inode.SetLen` | lib/lwext4_rust/src/inode/file.rs:268-302 | the contents cut, or those of `Outcome` with zeros behind the old end; it panics exactly when an inode without extents ends inside a hole; a clean extension adds zeros and nothing else; every device block that is not the file's keeps its bytes |
| `Ext4.Inode.WriteAt` | lib/lwext4_rust/src/inode/file.rs:152-230 | the contents become those of `Outcome`, for every file, position and buffer; a clean write gives the old contents, zero-padded up to the position and overlaid with the buffer; appended blocks have the expected index; every device block that is not the file's keeps its bytes, but without extents block 0 takes the bytes for holes (`Ext4Device.LostAt`) |
| `Ext4Holes.OutcomeIs` | lib/lwext4_rust/src/inode/file.rs:182-220 | byte by byte: what is written, what the device held where a touched hole is not covered, zeros where an inode without extents lost the bytes, and the old bytes elsewhere |
| `Ext4Holes.OverlayExactly` | lib/lwext4_rust/src/inode/file.rs:172-220 | a write overlays the old contents, whatever the device holds and whatever is written, if and only if every hole it touches is unwritten or wholly covered, and without extents it touches none |
| `Ext4Holes.StaleShown` | lib/lwext4_rust/c/lwext4/src/ext4_extent.c:2094-2120 | for any bytes written, a write that is not clean shows stale bytes on some device |
| `Ext4Holes.BytesLost` | lib/lwext4_rust/c/lwext4/src/ext4_fs.c:1378-1388 | without extents, a write that is not clean loses bytes |
| `Ext4Device.LostAt` | lib/lwext4_rust/c/lwext4/src/ext4_fs.c:1378-1388 | without extents, a byte of device block 0 becomes the one the write has for that place of the last hole that gives one |
| `Ext4Device.LostElse` | lib/lwext4_rust/c/lwext4/src/ext4_fs.c:1378-1388 | and keeps its value where no hole gives one |
| `Ext4Holes.StaleExample` | lib/lwext4_rust/c/lwext4/src/ext4_extent.c:2094-2120 | one byte written into a file of one unmapped block shows the rest of the block as the device held it |
| `Ext4.TwoWrites` | lib/lwext4_rust/src/inode/file.rs:152-160 | extending and then writing is one write with zeros in front |
| `SchedState.NoneLost` | src/kernel/scheduler/scheduler.rs:23-78 | a task that was not killed is Ready exactly when it is queued, once, and Running exactly when it is on the processor |
| `SchedState.QueueTids` | src/kernel/scheduler/scheduler.rs:23-29 | queued tasks have different tids |
| `Scheduler.Kernel.PushTask` | src/kernel/scheduler/scheduler.rs:23-29 | its debug assertion holds at every call |
| `Scheduler.Kernel.WakeupTask` | src/kernel/scheduler/scheduler.rs:46-50 | a blocked task is queued with its event, any other is left alone |
| `Scheduler.Kernel.WakeParentWaitingVfork` | src/kernel/task/tcb.rs:437-442 | the unconditional push never queues a task twice |
| `Scheduler.Kernel.RunNext` | src/kernel/scheduler/scheduler.rs:57-78 | the first task leaves the queue, a killed one is dropped and any other runs; a task resumed from a block is told the event it was woken with, behind a vfork the right one; all other tasks stay as they are |
| `Scheduler.Kernel.Yield` | src/kernel/task/tcb.rs:471-478 | the current task goes to the end of the queue, all others stay as they are |
| `Scheduler.Kernel.Block` | src/kernel/scheduler/current.rs:146-150 | the current task leaves the processor, blocked and not queued; all others stay as they are |
| `Scheduler.Kernel.CloneVfork` | src/kernel/syscall/task.rs:101-112 | the child is queued under a new tid and remembers its parent, which blocks uninterruptibly; all others stay as they are |
| `Scheduler.Kernel.Kill` | src/kernel/ipc/signal/handle.rs:29-47 | a death by a signal: exactly the group is killed and nothing is queued |
| `Scheduler.Kernel.Exit` | src/kernel/syscall/task.rs:203-223 | exactly the group is killed; the vfork parent of the caller, and of no other task of the group, is queued, ready with its event unless it was killed |
| `Scheduler.Kernel.Exec` | src/kernel/task/pcb.rs:179-201 | exactly the group is killed; a new task object takes over the tid of the caller, which is replaced for good and in no queue; the vfork parent of the caller is queued, ready with its event unless it was killed |
| `Scheduler.Kernel.Do` | src/kernel/scheduler/scheduler.rs:23-78 | any step: no task is forgotten, a task is killed exactly when it is the caller or in the group of a step that kills, and a vfork parent is woken exactly when its child itself exits or calls exec |
| `Scheduler.Kernel.Run` | src/kernel/scheduler/scheduler.rs:57-78 | every run keeps the invariant; no task is lost, and one is killed exactly when some step kills it; a killed task never runs again, a replaced one is never queued again, a vfork parent whose child died without waking it is never woken, and every task resumed is told what `SchedSteps.Answered` says |
| `Scheduler.StuckBySignal` | src/kernel/ipc/signal/handle.rs:29-47 | a run in which a vfork child dies by a signal and its parent stays blocked |
| `Scheduler.StuckByThread` | src/kernel/syscall/task.rs:214-218 | a run in which a second task of the child's process calls `exit_group` or `execve` and the parent stays blocked |
| `SchedSteps.NextTasks` | src/kernel/task/pcb.rs:179-212 | one step forgets no task, keeps its tid, and kills exactly those it is to kill |
| `SchedSteps.NextVfork` | src/kernel/task/tcb.rs:433-442 | one step wakes a vfork parent exactly when it is an exit or exec of the child itself, and otherwise leaves it waiting or killed |
| `SchedSteps.RunTasks` | src/kernel/scheduler/scheduler.rs:57-78 | over every run no task is forgotten, and the tasks killed are exactly those some step kills |
| `SchedSteps.VforkFate` | src/kernel/syscall/task.rs:101-112 | in every run, a vfork parent is woken by the death of its child exactly when the child itself exits or calls exec, and is otherwise stuck in every later state |
| `SchedSteps.StuckLater` | src/kernel/task/tcb.rs:437-442 | a stuck vfork parent stays stuck in every later state |
| `SchedSteps.Fair` | src/kernel/scheduler/scheduler.rs:23-33 | a queued task with k others before it is taken by the turn k + 1 of every run, and not before |
| `SchedSteps.TakenRuns` | src/kernel/scheduler/scheduler.rs:57-78 | a task that is taken runs, unless it was killed |
| `SchedSteps.Answered` | src/kernel/scheduler/scheduler.rs:46-78 | in every run, a task that blocks, is woken and is then taken is told the event of the first wakeup since it blocked |
| `Processes.OneList` | src/kernel/task/pcb.rs:155-242 | a process whose status was not collected is in one list of children, once, that of its parent |
| `Processes.ExitKeeps` | src/kernel/task/pcb.rs:203-242 | also when its parent exits and init takes it over |
| `Processes.RecycleKeeps` | src/kernel/task/pcb.rs:127-135 | a status is given once, and it is the status of the exit |
| `Processes.WithoutOnce` | src/kernel/task/pcb.rs:127-135 | taking a child off a list takes out that child and keeps the others in order |
| `Processes.Table.CloneTask` | src/kernel/task/pcb.rs:169-173 | the new process is in its parent's list |
| `Processes.Table.Exit` | src/kernel/task/pcb.rs:203-242 | the status is set, the parent's waiters are taken, the children move to init |
| `Processes.Table.WaitChild` | src/kernel/task/pcb.rs:244-260 | a status exactly when a listed child has one that was not collected; otherwise nothing is collected and, if it is to block, the task is registered |
| `Processes.Table.WaitChildResume` | src/kernel/task/pcb.rs:255-285 | woken for another child it registers again and blocks; else a status and the child off the list, or another waiter was faster |
| `Processes.Table.WaitAnyChild` | src/kernel/task/pcb.rs:298-315 | a status exactly when some listed child has one that was not collected, and it is that of the first such child |
| `Processes.Table.WaitAnyChildResume` | src/kernel/task/pcb.rs:317-343 | a status exactly when the child it was woken for is listed and was not collected; otherwise it blocks again and is not registered |
| `Processes.WaiterForgotten` | src/kernel/task/pcb.rs:315-343 | a run in which a waiter is not woken although a child has exited |
| `Processes.Table.Run` | src/kernel/task/pcb.rs:155-343 | in every run each exit status is collected at most once, and it is the status of that exit; no process is lost, and one has exited exactly when some step said so |
| `Timer.OneEvent` | src/kernel/syscall/event.rs:394-455 | the heap holds at most one event for each interval timer of a process |
| `Timer.PassOn` | src/kernel/event/timer/timer.rs:40-55 | one event of a pass: what is due shrinks by it, what is not due stays, and what fired before stays settled |
| `Timer.Timers.AddTimer` | src/kernel/event/timer/timer.rs:29-38 | a new id and an event due after the given time |
| `Timer.Timers.Remove` | src/kernel/event/timer/timer.rs:57-60 | the event is gone and its id never fires |
| `Timer.Timers.Call` | src/kernel/syscall/event.rs:394-410 | a callback changes the heap and the ids exactly as the source says: a period is armed again unless its process has exited or the timer was disarmed |
| `Timer.Timers.WakeupExpired` | src/kernel/event/timer/timer.rs:40-55 | one pass ends and fires the due timers and no others, each once with its own callback, in deadline order, none before its deadline; all other events stay, what is new is due one period after the time its callback ran, and every timer that fired is forgotten or armed again |
| `Timer.Timers.SetItimer` | src/kernel/syscall/event.rs:412-455 | the heap is the old one without the event of this timer and, when armed, with the new one; the events of others stay |
| `Timer.ExpiryAfterExit` | src/kernel/syscall/event.rs:394-410 | a periodic timer of a process that exits before it expires is armed again exactly when the status has been collected by then |
| `Signals.FrameRoundTrip` | src/arch/riscv/process/context.rs:76-166 | a frame gives back the mask, the pc, the floating-point state and every register but the zero register |
| `Signals.FrameThere` | src/arch/riscv/process/context.rs:76-166 | the words of a frame in memory: where the signal information, the user context, its mask and its registers lie |
| `Signals.FramesKept` | src/kernel/ipc/signal/handle.rs:77-79 | a frame below the others changes none of them |
| `Signals.Nested` | src/kernel/ipc/signal/handle.rs:55-103 | from a delivery to the return at the same depth, whatever is delivered, computed and returned from in between, the interrupted context, mask and frames come back |
| `Signals.Task.HandleSignal` | src/kernel/ipc/signal/handle.rs:55-94 | the interrupted context and mask are saved in an aligned frame below the stack pointer, and the handler starts with the addresses of the signal information and of the saved user context |
| `Signals.Task.ReturnFromSignal` | src/kernel/ipc/signal/handle.rs:97-103 | exactly the interrupted registers, floating-point state, pc and mask come back, at any depth of nesting |
| `Signals.Task.Run` | src/kernel/ipc/signal/handle.rs:55-103 | any sequence of deliveries, user code and returns on the task; a balanced one ends in the context, mask and frames in which it began |

## Left out

- `tlsf_realloc`, `tlsf_remove_pool` and pools added later, which the kernel does not call, and `calloc`, a `malloc` and a fill.
- TlsfHeap.Heap.constructor: memory is aligned, is at least as large as the control structure, and its pool is not exactly `block_size_max` bytes, which the size test accepts and the lists do not cover.
- TlsfHeap.Heap.AddPool: not for the pool of exactly `block_size_max` bytes, whose block would be put past the last list (`TlsfMapping.ClassInRange`).
- TlsfHeap.Heap.Memalign: alignments up to 2^62, the exact range in which the search size is right (`TlsfMapping.SearchExactly`); what the heap is like after the one larger power of two is not modelled.
- TlsfClients.Run: clients store and load aligned words; a call that a client may not make, such as freeing twice, is skipped.
- TlsfHeap.Heap.Store: words, not bytes; partial-word stores inside a header do not occur in the source.
- FdtWriter.Writer.constructor: buffers are smaller than 2^31 - 1 bytes.
- FdtWriter.Writer.AddString: once the copy goes astray nothing is said about the buffer; `Property` and `BeginNode` likewise.
- FdtFormat.HeaderExactly: the header is a record of words; where its fields lie in the first 40 bytes is not modelled.
- FdtCheck.CheckFull: only versions from 17 on, where the header gives the size of the structure block; the alignment of the blob's address is assumed.
- FdtBlob.CheckHeader: the same versions.
- FdtBlob.GetString: finished blobs; the source also looks up names in a blob that is still being written.
- FdtCursor.NextNode: offsets are boundaries between tokens, as every call of the library returns them, and the walk starts at a node and not at -1; `NodeEndOffset`, `SubnodeOffset` and `FdtProps.GetProperty` likewise.
- FdtCursor.NodenameEq: the offset is a boundary between tokens.
- FdtEdit.Tree.SetProp: offsets given by a caller are boundaries between tokens, and names and values are shorter than 2^30 bytes, so that `int` lengths do not overflow; the other editing calls assume the same.
- `fdt_resize`, `fdt_set_name`, `fdt_appendprop`, `fdt_delprop`, `fdt_open_into`, `fdt_pack`, editing of the reserve map and the in-place editing of `fdt_wip.c`: the same splices with easier contents.
- Path lookup, phandles, string lists and ancestors of `fdt_ro.c`, and overlays.
- Cow.Machine.Run: private areas without swapping; `set_perm`, `split` and `set_ubase` are left out, and an area is taken with its own part of the page table, so that the areas of one address space do not meet.
- The accessed and dirty bits that a copy-on-write mapping leaves clear, and the trap that some hardware takes for it.
- Sv39.PageTable.Mmap: frames are given by page number, and the frame to map is neither a table page nor with the allocator; the direct map between kernel and physical addresses is taken as a bijection, and the page allocator hands out unused pages.
- `mmap_kernel`, `mmap_paddr` and the `mark_page_*` methods: the same steps with other flags.
- Ext4.Inode.ReadAt: no symbolic links with inline data and no device errors; a byte address on the device is a block number and an offset in the block.
- Ext4.Inode.WriteAt: the C library is taken by contract: an appended block gets the next logical index, a new block is one the file does not use, block numbers fit 32 bits, device blocks 0 and 1 are never a file's, and a block has at most 4096 bytes.
- Scheduler.Kernel.Run: one hart; the select and poll paths that block and unblock within one call, and kernel threads, are left out.
- No liveness of blocked tasks is claimed; queued ones have their turn (`SchedSteps.Fair`).
- Processes.Table.Exit: not for init, whose exit halts the system; signals to the parent are left out.
- Processes.Table.WaitChildResume: a wait interrupted by a signal, which leaves the task registered, is not a step.
- Sv39Runs.Lifetime: pages to map are none of the allocator's; a call that would panic, and a change of permissions of a page that is not mapped, are skipped.
- Timer.Timers.WakeupExpired: the binary heap is taken as a map from ids whose peek gives an event with the earliest deadline.
- Signals.Task.HandleSignal: handlers without the alternate stack, on a stack with room for the frame; default actions and pending signals are left out.
- Signals.Task.ReturnFromSignal: the handler returns with the stack pointer it was started with and leaves saved frames intact; the zero register is not part of a frame.
- The pipe ring, dentry cache, drivers, system call dispatch, swapping and multi-hart interleavings.
