# A verified model of USBLoader's allocator, UHCI transfers and debug stub

USBLoader is a freestanding 32-bit bootloader. This project models, in Dafny,
its three stateful cores and proves what they promise:

* the first-fit heap allocator (`mem/mem.c`), whose free-list nodes and
  allocation headers live in the very bytes they manage;
* the UHCI control-transfer machinery (`drivers/usb/uhci.c`): TD chains made of
  masked 32-bit pointers, a hardware queue, a software list of pending
  transfers, an interrupt routine, and a driver that submits and waits;
* the packet layer, hex codecs and memory and register commands of the GDB stub
  (`utils/i386-stub.c`), with `itoa` (`drivers/display/print.c`).

Run `dafny verify dfyconfig.toml` to check everything.

## How it is organised

| file | contents |
|---|---|
| `Words.dfy` | 32-bit words, `&`, `|`, wrap-around, and the arithmetic meaning of masks and flags |
| `Sequences.dfy` | sequences without repetition, and their elements |
| `ByteMemory.dfy` | flat byte memory with little-endian words at any address, ASCII text as bytes |
| `Alignment.dfy` | `align_ptr`, `aligned_size` and the unbounded rounding they agree with |
| `FreeList.dfy`, `FreeListBytes.dfy` | the free list as a value, and as linked nodes in bytes |
| `Allocator.dfy` | the allocator as a transition system on free list and live allocations |
| `AllocatorProperties.dfy` | what it promises: first fit, canonical list, round trips, runs |
| `HeapMemory.dfy` | the C code on real bytes; every method follows `Allocator` |
| `TransferDescriptors.dfy`, `TdChains.dfy` | the words of a TD read back, chains, stages, the data buffer |
| `TransferQueue.dfy` | the list of pending transfers and what an interrupt leaves of it |
| `UhciDriver.dfy` | building, scheduling, completing and interrupting on linked structures |
| `TransferLifecycle.dfy` | driver, controller and interrupt steps in every interleaving |
| `DriverRefinement.dfy` | the driver's memory follows that state machine: the first state and every step |
| `TdAllocation.dfy` | the allocator provides what TD chains need and gets everything back |
| `ControlTransfers.dfy` | whole transfers on heap and driver memory, under any behaviour of the hardware |
| `HexCodec.dfy`, `HexNumbers.dfy`, `Itoa.dfy` | hexadecimal and decimal text and back |
| `Packets.dfy`, `PacketText.dfy`, `GdbStub.dfy` | the packet parser and its grammar, transmission, the commands |

The imperative code is kept imperative: classes with the source's globals as
fields, its loops, and its order of writes. Each method is proved against a
function or relation on values, and the promises are lemmas about those. Longer C
functions are cut into several methods at the comments that divide them.

## Choices

* Addresses are naturals below 2^32 and 0 is NULL. Additions and subtractions that the
  code does on `uint32_t` are written with `Wrap`. Heap bounds are arbitrary, with the
  heap above address 8 (the linker script puts it above 0x8000, `linker.ld:4-19`).
* Both allocator structs are 8 bytes (32-bit target).
* The free list is canonical: ascending, with a gap between any two blocks. This is the
  invariant behind order independence and behind first fit being stated without blocks.
* In `memalloc_aligned` the third argument of `coalesce_blocks` is the location of
  `curr->next` itself. The proof shows that nothing is ever merged there, as the comment
  in the code says.
* `memfree` requires a live pointer or NULL, as `mem/mem.h:30-36` does.
* The serial line is the sequence of characters still to come. Where the code would wait
  for ever at its end, the model returns and says so. Likewise it stops, with an outcome of
  its own, where `m` writes behind the output buffer, where `M` reads behind the input
  buffer, and where a driver goes on with a NULL from `memalloc`.
* The memory that the stub can access is the addresses below the length of an array; the
  others fault. The assembly that turns a fault into `mem_err` is taken to do that.
* Interrupt, controller and driver steps are atomic; the driver's two list updates in
  `uhci_schedule_queue` are separate steps, of the state machine and in memory, and the
  hardware may act in between. TDs and entry are built as part of the first one.

## Where the code does not do what one would expect

* `uhci_isr` sets the list head to NULL when the head completes
  (`drivers/usb/uhci.c:411-413`), so the entries behind it are dropped.
  `TransferQueue.AfterIsrKeepsActive` gives the exact condition under which the list is
  the list of active entries, `TransferQueue.HeadCompletionDropsRest` an instance of the
  loss. `TransferLifecycle.NothingIsDropped` shows that under submit-and-wait it cannot happen.
* `UHCI_TD_MAX_LEN` keeps six bits (`drivers/usb/uhci.c:154`), although the layout comment
  at `drivers/usb/uhci.c:120-123` has a wider field. `TdChains.DataCovered` gives the exact
  condition under which the data buffer is transferred completely;
  `TdChains.LargePacketLeavesHole` is a read of 255 bytes in packets of 255 that misses
  offset 63. The status stage's 0x7ff is stored as 0x3f.
* In base 16 `itoa` drops the sign. `HexNumbers.ScanItoa` says exactly which numbers come
  back through `hexToInt`.
* A packet of fewer than two characters leaves the third place of the buffer as it was;
  an old `:` there makes `getpacket` return the old text. `PacketText.TransmittedIsReceived`
  says exactly when the text handed out is the text sent, and `PacketText.OldColonIsRead`
  has `g`, sent behind `ab:x`, arrive as `x`.
* The length of `m` is not checked. `GdbStub.ReadInside` says for which lengths the reply
  stays inside its buffer, and `GdbStub.TwoHundredBytesOverrun` is the first for which it does not.

## Model

| member | source | states |
|---|---|---|
| Alignment.AlignPtrIsAlignUp | mem/mem.c:38-40 | without 32-bit overflow the masked sum is the exact rounding; with it, exactly 2^32 less |
| Alignment.AlignUpIsLeastMultiple | mem/mem.c:38-40 | for a power of two the rounding is a multiple and no multiple at or above the address is smaller |
| Alignment.AlignPtrPow2 | mem/mem.c:38-40 | the 32-bit result for a power of two: the least multiple if there is one below 2^32, else 0 |
| Alignment.AlignPtrBits | mem/mem.c:38-40 | for every alignment, also no power of two: the bits of the 32-bit sum that are clear in align - 1 |
| Alignment.WrappedSizeIsZero | mem/mem.c:64-72 | a rounding that wraps around leaves usable size 0 for every alignment, so it is never allocated |
| Alignment.AlignedSizeIsFit | mem/mem.c:64-72 | the unsigned size test of the search loop is exactly "the aligned payload ends inside the block" |
| FreeList.CanonicalUnique | mem/mem.c:95-135 | two canonical lists that own the same bytes are the same list |
| FreeList.MergedOwns | mem/mem.c:108-134 | three-way coalescing neither loses nor gains a byte |
| FreeList.MergedCanonical | mem/mem.c:108-134 | coalescing around an inserted block restores the canonical form |
| FreeListBytes.ChainUnique | mem/mem_internal.h:4-7 | the bytes of the nodes determine the list read from the head |
| FreeListBytes.Relinked | mem/mem.c:185-201 | redirecting one `next` field replaces the rest of the list in memory and nothing else |
| FreeListBytes.GrowNode | mem/mem.c:111-132 | rewriting one node absorbs the run of blocks behind it |
| Allocator.InitialInv | mem/mem.c:24-28 | the single initial block satisfies the invariant |
| Allocator.FirstFit | mem/mem.c:142-148 | the search index: that block fits and no earlier one does |
| Allocator.CarvedOwns | mem/mem.c:173-250 | carving takes exactly the extent of slack, header and payload out of the free bytes |
| Allocator.CarvedCanonical | mem/mem.c:173-250 | in all four slack cases the list stays canonical |
| Allocator.AllocInv | mem/mem.c:138-255 | an allocation keeps the tiling of the heap; a failed one changes nothing; a successful one adds one fresh live extent made of formerly free bytes |
| Allocator.ExtentBetween | mem/mem.c:264-278 | the search of memfree separates the free blocks below the extent from those above it |
| Allocator.ReleaseInv | mem/mem.c:257-286 | a release keeps the invariant and frees exactly the bytes of the extent |
| AllocatorProperties.AllocIsLowestRoom | mem/mem.c:138-156 | for powers of two the result is the lowest aligned address with room for header and payload among the free bytes, NULL exactly if there is none |
| AllocatorProperties.AllocIsFirstFit | mem/mem.c:138-156 | for every alignment: NULL exactly if size or align is 0 or no block fits, otherwise the rounding in the lowest block that fits; the new extent meets no live one |
| AllocatorProperties.FreeListFromLive | mem/mem.c:257-286 | the free list is a function of the bytes in use |
| AllocatorProperties.ReleaseUndoesAlloc | mem/mem.c:175-285 | freeing a fresh allocation restores the heap exactly, whatever happened to the slack on both sides |
| AllocatorProperties.ReleaseOrderIrrelevant | mem/mem.c:257-286 | freeing the same allocations in any order gives the same heap |
| AllocatorProperties.ReleaseEverything | mem/mem.c:257-286 | freeing all allocations restores the heap of init_memory |
| AllocatorProperties.ReleaseKeepsRoom | mem/mem.c:257-286 | after a free, a request that would have succeeded still succeeds, at the same or a lower address |
| AllocatorProperties.RunInv | mem/mem.c:24-286 | every heap of every run is tiled by a canonical list and disjoint live extents |
| AllocatorProperties.RunsAgree | mem/mem.c:24-286 | two runs that leave the same bytes in use leave the same list; a run that gave everything back is at the start |
| AllocatorProperties.FirstAllocation | mem/mem.c:138-255 | the whole heap after a first allocation, by numbers: slack of 8 bytes or more on either side is a block, less goes to header size or front offset |
| AllocatorProperties.SlackExamples | mem/mem.c:175-250 | slack of 8 and of 7 bytes on each side, with addresses and sizes |
| HeapMemory.ByteHeap.InitMemory | mem/mem.c:24-28 | the two words written make the bytes represent the initial heap |
| HeapMemory.ByteHeap.CoalesceBlocks | mem/mem.c:95-135 | the bytes become the merged list, swallowed blocks are reported as NULL, only free bytes change |
| HeapMemory.ByteHeap.FindBlock | mem/mem.c:142-148 | the loop over the nodes ends at the first block that fits, with its predecessor |
| HeapMemory.ByteHeap.SplitTail | mem/mem.c:175-202 | slack behind the payload becomes a node, or the block is unlinked and the slack joins the header size |
| HeapMemory.ByteHeap.SplitFront | mem/mem.c:226-250 | slack in front becomes a node in its place, or is returned for `start_off` |
| HeapMemory.ByteHeap.KeepFront | mem/mem.c:231-241 | the new front block needs no merging with its neighbours |
| HeapMemory.ByteHeap.TakeFrom | mem/mem.c:153-254 | the whole carving with its header, written over the old node |
| HeapMemory.ByteHeap.MemallocAligned | mem/mem.c:138-255 | bytes and result follow Alloc; only formerly free bytes are written, all other extents keep their bytes |
| HeapMemory.ByteHeap.Memalloc | mem/mem.c:137 | memalloc is the allocation with alignment 4 |
| HeapMemory.ByteHeap.Reinsert | mem/mem.c:261-283 | the extent is linked in address order, its header read before the node overwrites it |
| HeapMemory.ByteHeap.Memfree | mem/mem.c:257-286 | the bytes follow Release; only bytes that end up free are written, live extents keep theirs |
| HeapMemory.ByteHeap.ClientStore | mem/mem.h:11-36 | a store inside a payload disturbs neither list nor headers |
| HeapMemory.HeadersKeep | mem/mem.c:138-286 | writes to free bytes leave every byte of every live extent alone |
| HeapMemory.AllocBytes | mem/mem.c:243-252 | writing the header completes the representation of the new heap |
| HeapMemory.ReleaseBytes | mem/mem.c:269-285 | after insertion and merging the remaining headers are intact |
| HeapMemory.Layout | mem/mem_internal.h:4-12 | the words at each free block and in front of each payload, little-endian, are the fields of the two structs in their order |
| TransferDescriptors.LinkRoundTrip | drivers/usb/uhci.c:134-166 | masking and the depth flag lose nothing of a 16-aligned address and never look like TERM |
| TransferDescriptors.TokenFields | drivers/usb/uhci.c:626-654 | every token decodes to packet type, device address, endpoint 0, toggle and the six-bit length |
| TransferDescriptors.StatusBits | drivers/usb/uhci.c:621-652 | every TD starts active, with three errors allowed and the device's speed, and only the last one interrupts; no other bit is set |
| TransferDescriptors.FlagBits | drivers/usb/uhci.c:143-144 | the activity test is bit 23, the interrupt flag bit 24 |
| TdChains.ChainDistinct | drivers/usb/uhci.c:538-540 | a chain that reaches TERM is acyclic, so the walk ends |
| TdChains.ChainAppend | drivers/usb/uhci.c:538-542 | redirecting the one TERM link appends the second chain |
| TdChains.BuiltChain | drivers/usb/uhci.c:612-658 | the links visit all TDs in order, each being the address of the next TD, 32 bytes on, with the depth-first flag and without the queue-head flag; the last link is the only TERM |
| TdChains.BuiltStages | drivers/usb/uhci.c:619-656 | SETUP with DATA0, data alternating from DATA1, status with DATA1; device, endpoint, speed, errors allowed, activity and interrupt bits; the request's address and length in the first TD; the number of each TD |
| TdChains.DataPackets | drivers/usb/uhci.c:612-647 | from packet size and length alone: the least number of packets of m bytes that cover the length, m being the packet size but at least 8, at buf, buf + m, and so on, each for m bytes when six bits can say so |
| TdChains.DescriptorPackets | drivers/usb/uhci.c:612-647 | 18 bytes in packets of 8: five TDs, data at offsets 0, 8 and 16 with length field 7 |
| TdChains.DataBuffer | drivers/usb/uhci.c:631-647 | data packets start inside the buffer and exceed it by less than one packet |
| TdChains.DataCovered | drivers/usb/uhci.c:154-154 | the whole buffer is transferred exactly if the packet size is at most 64 or the length fits the truncated first packet |
| TdChains.LargePacketLeavesHole | drivers/usb/uhci.c:154-154 | a device and a length for which a byte in the middle is not transferred |
| TransferQueue.AfterIsrKeepsActive | drivers/usb/uhci.c:406-421 | an interrupt leaves the active entries exactly if the head is active or no entry is |
| TransferQueue.HeadCompletionDropsRest | drivers/usb/uhci.c:412-412 | a two-entry list whose second entry is lost |
| TransferQueue.OnlyIsOnce | drivers/usb/uhci.c:406-421 | each pending entry is either handled once or kept once |
| TransferQueue.LinkedRemove | drivers/usb/uhci.c:409-416 | unlinking through the previous entry, or emptying the head, leaves the list the walk goes on with |
| UhciDriver.Driver.constructor | drivers/usb/uhci.c:371-371 | nothing pending, the queue terminated as in lines 468-471: the relation that all methods keep holds |
| UhciDriver.Driver.CreateTdControl | drivers/usb/uhci.c:595-659 | the loop fills in every TD of the chain and touches no other |
| UhciDriver.Driver.AppendPending | drivers/usb/uhci.c:522-531 | the list walk appends the entry at the end |
| UhciDriver.Driver.AppendChain | drivers/usb/uhci.c:533-542 | the chain walk ends at TERM and appends the TDs: the pointer stored, in `qelp` or in the last TD, is exactly the address of the first TD |
| UhciDriver.Driver.ScheduleQueue | drivers/usb/uhci.c:519-543 | both structures grow at their ends; only the old terminal links change, to exactly the entry and its first TD |
| UhciDriver.Driver.CallbackTransEnd | drivers/usb/uhci.c:691-700 | the walk visits all TDs of the transfer but the last, reports those with status bits, and raises the flag |
| UhciDriver.FlaggedIff | drivers/usb/uhci.c:691-699 | a TD is reported exactly if one of bits 17 to 23 of its status is set |
| UhciDriver.Driver.IsrStep | drivers/usb/uhci.c:407-420 | one turn of the loop keeps the relation between list, links, flags and handler calls |
| UhciDriver.Driver.Isr | drivers/usb/uhci.c:396-425 | the handlers of exactly the completed entries run, in list order, and the list becomes AfterIsr, the five interrupt bits are acknowledged; nothing happens when the status register is 0 |
| UhciDriver.Driver.Retire | drivers/usb/uhci.c:71-77 | the controller's completion of the head TD advances the queue by one |
| TransferLifecycle.RunInv | drivers/usb/uhci.c:702-726 | the phase invariant holds in every state of every interleaving |
| TransferLifecycle.RunSafe | drivers/usb/uhci.c:396-726 | at most one transfer pending, submitted = handled + pending, and only allocated memory is reachable from either list |
| TransferLifecycle.NothingIsDropped | drivers/usb/uhci.c:406-421 | in no reachable state does the interrupt routine drop an active transfer |
| TransferLifecycle.FreeingIsSafe | drivers/usb/uhci.c:587-726 | when the wait has returned the handler has run and neither list reaches entry or TDs |
| TransferLifecycle.WaitCanReturn | drivers/usb/uhci.c:587-593 | from every waiting state the remaining completions and one interrupt end the wait |
| DriverRefinement.CompletedAgree | drivers/usb/uhci.c:407-408 | the test on the bytes of the last TD and the state machine agree on what is completed |
| DriverRefinement.Initialize | drivers/usb/uhci.c:468-471 | the memory of a new driver is the first state |
| DriverRefinement.TakeInterrupt | drivers/usb/uhci.c:396-425 | the interrupt routine on memory is the interrupt step |
| DriverRefinement.RetireHead | drivers/usb/uhci.c:71-77 | the controller on memory is the retire step |
| DriverRefinement.Submit | drivers/usb/uhci.c:519-531 | building TDs and entry and the first list update of the scheduling are the submit step |
| DriverRefinement.Link | drivers/usb/uhci.c:533-542 | the second list update is the link step, with the `qelp` read before the first one; `qelp` is then exactly the address of the first TD |
| DriverRefinement.Poll | drivers/usb/uhci.c:587-593 | the flag in memory is true exactly when the return step is enabled |
| DriverRefinement.NothingReaches | drivers/usb/uhci.c:720-723 | when the wait is over and until everything is freed, `pending_queue` is NULL, `qelp` is TERM and all handlers have run |
| DriverRefinement.FreeEntry | drivers/usb/uhci.c:721-721 | freeing the entry in memory is the step of that name |
| DriverRefinement.FreeTds | drivers/usb/uhci.c:685-689 | freeing request and TDs in memory is the step of that name, the request being found through the first TD |
| TdAllocation.AllocatedChainLinks | drivers/usb/uhci.c:617-617 | what memalloc_aligned returns for the TDs makes their link words work |
| TdAllocation.AllocatedSizes | drivers/usb/uhci.c:604-712 | 8 bytes for the request, 32 for each TD at a multiple of 16, 20 for the entry, each at the lowest place with room, all disjoint |
| TdAllocation.TransferLeavesHeap | drivers/usb/uhci.c:685-723 | allocations and frees of one transfer restore the heap |
| ControlTransfers.Hardware | drivers/usb/uhci.c:396-425 | every event of the hardware, at any point of a transfer, keeps refinement and invariant and moves only status words |
| ControlTransfers.PlainlyServed | drivers/usb/uhci.c:587-593 | all TDs complete, then the interrupt bit and an interrupt: this ends a wait |
| ControlTransfers.Wait | drivers/usb/uhci.c:587-593 | the wait ends exactly if the TDs left in the queue are completed and then an interrupt finds a nonzero status register |
| ControlTransfers.Allocate | drivers/usb/uhci.c:604-712 | the three allocations on the bytes of the heap; success gives a place fit for the TDs |
| ControlTransfers.Free | drivers/usb/uhci.c:685-723 | what the transfer allocated is freed in the code's order and the heap is as before |
| ControlTransfers.Transfer | drivers/usb/uhci.c:702-726 | for every behaviour of the hardware: exactly when the transfer completes, and then its handler has run once, both lists are empty, heap and driver memory are as before |
| ControlTransfers.Session | drivers/usb/uhci.c:702-811 | any number of transfers from a new driver on: one handler call for each, nothing left behind |
| HexCodec.DecodeEncode | utils/i386-stub.c:579-616 | hex2mem after mem2hex is the identity on every byte block |
| HexCodec.EncodeDecode | utils/i386-stub.c:453-616 | mem2hex after hex2mem lower-cases a text, exactly if it is hexadecimal |
| HexCodec.HexDigits | utils/i386-stub.c:453-461 | exactly the 22 digit characters have a value, each its own |
| HexCodec.HexByteTruncates | utils/i386-stub.c:500-503 | two characters give 16 times the first plus the second modulo 256, -1 standing for what is no digit |
| HexCodec.DigitChars | utils/i386-stub.c:119-119 | the digits written are those of the C table |
| HexCodec.Mem2Hex | utils/i386-stub.c:579-596 | the loop writes the digits and the NUL and nothing else; at a faulting address it ends with the digits so far and no NUL |
| HexCodec.Hex2Mem | utils/i386-stub.c:600-616 | the loop writes the decoded bytes and nothing else; at a faulting address it ends with the bytes below it stored |
| Packets.GoodPacketReceived | utils/i386-stub.c:468-530 | behind noise, aborted, rejected and overlong packets the good packet is received, with one `-` for each rejected one |
| Packets.HuntSound | utils/i386-stub.c:468-530 | whatever is received is a good packet behind such segments |
| Packets.ReceptionIsParse | utils/i386-stub.c:468-530 | received if and only if the stream has such a decomposition, with its buffer, rest and replies |
| Packets.ChecksumIsSum | utils/i386-stub.c:482-494 | the 8-bit running sum is the sum of all characters modulo 256 |
| PacketText.TransmittedIsReceived | utils/i386-stub.c:477-556 | what putpacket sends getpacket receives behind any legal segments; exactly when the text is the one sent |
| PacketText.FrameSent | utils/i386-stub.c:540-553 | the characters of one transmission, with the sum of the text in two lower-case digits |
| PacketText.SumDecides | utils/i386-stub.c:486-526 | a packet that fits is received and answered by `+` exactly if the sum of its characters modulo 256 is the value behind `#`, otherwise answered by `-` |
| PacketText.DroppedSilently | utils/i386-stub.c:478-498 | noise, aborted packets and those of 399 characters get no reply |
| PacketText.CommandReceived | utils/i386-stub.c:477-526 | `$g#67` is received with `+`, `$g#8b` answered by `-` |
| PacketText.ReplySent | utils/i386-stub.c:540-553 | the reply OK is sent as `$OK#9a` |
| PacketText.UnderstoodIff | utils/i386-stub.c:486-556 | a transmission is understood exactly if it has no `$` or `#` and at most 398 characters |
| PacketText.OldColonIsRead | utils/i386-stub.c:518-525 | on a faultless line, `g` behind a packet with sequence id is handed out as that packet's text |
| PacketText.PutUntilPlus | utils/i386-stub.c:537-555 | with the first `+` at place k of the replies the packet is sent k+1 times |
| PacketText.PutForEver | utils/i386-stub.c:537-555 | without a `+` it is sent once more for every character received, without end |
| PacketText.Handshake | utils/i386-stub.c:468-556 | both ends: after n spoilt transmissions and an intact one the receiver holds the packet and the sender stops, having sent n+1 |
| GdbStub.Stub.constructor | utils/i386-stub.c:463-464 | the buffers have their sizes and share nothing: the condition of all methods |
| GdbStub.Stub.GetPacket | utils/i386-stub.c:468-530 | the loops with goto agree with the stream function on every input |
| GdbStub.Stub.ReadBody | utils/i386-stub.c:481-497 | the inner loop with its restarts, checksum and bound |
| GdbStub.Stub.PutPacket | utils/i386-stub.c:534-556 | the packet is sent until a `+` arrives |
| GdbStub.Stub.ReadRegisters | utils/i386-stub.c:763-765 | `g` replies with the digits of all registers |
| GdbStub.Stub.WriteRegisters | utils/i386-stub.c:766-769 | `G` sets the registers to the decoded digits and replies OK |
| GdbStub.Stub.ReadMemory | utils/i386-stub.c:788-810 | `m` replies with the digits of the memory named, E01 for a bad form, E03 for memory that faults, unless it leaves the output buffer |
| GdbStub.Stub.WriteMemory | utils/i386-stub.c:813-839 | `M` stores the decoded bytes and replies OK, changes nothing and replies E02, or stores what comes before the fault and replies E03, unless it leaves the input buffer |
| GdbStub.ReadInside | utils/i386-stub.c:788-810 | for memory that exists the reply and its NUL stay inside the buffer exactly for lengths below 200 |
| GdbStub.TwoHundredBytesOverrun | utils/i386-stub.c:579-596 | `m0,c8` does not |
| GdbStub.WriteInside | utils/i386-stub.c:813-839 | OK exactly if the memory exists and all digits are in the buffer; in every case no byte outside the range changes |
| GdbStub.ReadOutcome | utils/i386-stub.c:788-810 | on well-formed operands: the digits, E03, or leaving the output buffer, exactly when |
| GdbStub.WriteOutcome | utils/i386-stub.c:813-839 | on well-formed operands: OK with all bytes stored, E03 with exactly the bytes below the first missing one stored, or leaving the input buffer, exactly when |
| GdbStub.NothingMoved | utils/i386-stub.c:582-613 | lengths that are 0 or negative give an empty reply and OK |
| GdbStub.ReadErrors | utils/i386-stub.c:790-808 | `m` replies E01 exactly if no two numbers with a comma between them stand there |
| GdbStub.WriteErrors | utils/i386-stub.c:815-838 | `M` replies E02, storing nothing, exactly if no such numbers followed by a colon stand there |
| GdbStub.ErrorExamples | utils/i386-stub.c:788-839 | `m2000,4` on memory that ends at 0x1000 gets E03, `M100,4` gets E02 |
| GdbStub.TransferExamples | utils/i386-stub.c:788-839 | `M0,2:1FA0` stores the bytes 1f and a0, `m0,2` then replies `1fa0` |
| GdbStub.ReadAfterWrite | utils/i386-stub.c:788-839 | `m` after `M` returns what was written, for all numerals naming the place; other memory is unchanged |
| GdbStub.RegistersReplayed | utils/i386-stub.c:763-769 | a `g` reply sent back as `G` through the packet layer gives the same registers |
| Itoa.TableIsSymmetric | drivers/display/print.c:144-145 | a negative remainder selects the digit of its magnitude |
| Itoa.TableIsLiteral | drivers/display/print.c:144-145 | the digit table, stretch by stretch |
| Itoa.NumeralDenotes | drivers/display/print.c:141-147 | the digits denote the number, are digits of the base, and have no leading zero |
| Itoa.NumeralUnique | drivers/display/print.c:141-147 | no other digit string without leading zeros denotes it |
| Itoa.DecimalRoundTrip | drivers/display/print.c:124-157 | in base 10 a reader for which a leading `-` negates gets every int back; the sign is there exactly for negative values, no leading zeros |
| Itoa.OnlyDigits | drivers/display/print.c:124-157 | in every other base the text is the digits of the magnitude, without a sign or leading zeros |
| Itoa.EmitDigit | drivers/display/print.c:144-146 | one turn of the loop for either sign, by C division |
| Itoa.ReverseInPlace | drivers/display/print.c:151-155 | the swap loop reverses the digits and nothing else |
| Itoa.Itoa | drivers/display/print.c:124-157 | for every int and base: sign only for negative decimals, the numeral of the magnitude, NUL, the rest untouched; empty for a bad base |
| HexNumbers.ScanReads | utils/i386-stub.c:678-696 | exactly the leading digits are read, modulo 2^32 |
| HexNumbers.ScanItoa | utils/i386-stub.c:678-696 | on base-16 output of itoa the whole numeral is read, and the value comes back exactly for nonnegative numbers and the minimum |
| HexNumbers.HexToInt | utils/i386-stub.c:678-696 | the loop agrees with the scan and counts its digits |

## Left out

- Port I/O, serial port, timer, PCI access, port reset and enabling, timed waits: hardware plumbing.
- Boot code, exception entry and exit, and the fault handler behind `mem_fault_routine`: assembly.
- VGA output, `print_pci_dev` and the text printed by `uhci_print_td_status`: the reported TDs stand for it.
- `memcopy`, `memfill`, `scopy` of arbitrary text, `wstr_to_str`: simple loops.
- Freeing a pointer twice or a foreign pointer: excluded by the contract of `memfree`.
- Heaps below address 8, and heaps that reach the end of the address space.
- GDB commands other than `g`, `G`, `m`, `M`, and the debug output on a bad checksum.
- Memory and buffers of the stub are separate arrays, so a command that reads or writes the stub's own buffers is not modelled.
- GdbStub.Stub.ReadMemory: what is overwritten behind the output buffer when the reply does not fit it; the model stops there.
- GdbStub.Stub.WriteMemory: what is decoded from behind the input buffer when the digits run past it; the model stops there.
- Itoa.Itoa: for a buffer that has room for the text, as its callers provide it.
- UhciDriver.Driver.CreateTdControl: the addresses of the two allocations are parameters; `ControlTransfers.Transfer` allocates them, and stops where the code goes on with NULL.
- ControlTransfers.Transfer: TDs and entries are records beside the heap's bytes; that stores to them leave the heap alone is `HeapMemory.ByteHeap.ClientStore`.
- TransferQueue.Entry: the handler field is fixed to `uhci_callback_trans_end`, the only handler the driver installs.
- TransferLifecycle.RunSafe: TDs that stall or fail are not modelled, the driver has no recovery from them; nor are transfers submitted from several contexts.
- That the status stage's token denotes an empty packet: its length field is truncated to six bits.
- The controller's frame list and horizontal queue links: they are set up once and do not change.
