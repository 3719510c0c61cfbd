# Circle: algorithms and protocols, modelled and proved in Dafny

Circle is a library for programs that run on the Raspberry Pi without an operating system. Between its register
accesses it holds algorithms and protocols whose correctness is a property of whole runs. This project models them
and proves what they promise. `dafny verify dfyconfig.toml` checks everything.

Most components come in two parts: a specification in functions (one file), with the laws and the theorems over
runs, and a class or methods with the loops, arrays, pointers and machine words of the code (another file), proved
against the functions. What a function means is stated apart from it as well, in bytes, bits, constants and texts:
the frame on the wire, the requests that malloc refuses, the months, the amplitude of a sample, what each control
character and escape sequence does, the number that a text stands for.

| files | component |
|---|---|
| `OneWireSearch`, `OneWireFamily`, `OneWire` | the 1-Wire ROM search, also within one family: a walk through the binary tree of the ROMs on a wired-AND bus |
| `OneWireCrc` | CRC-8 by table and bit by bit, CRC-16 by the parity trick, against a shift register |
| `GenetIndex`, `GenetTx`, `GenetTxDriver`, `GenetRx`, `GenetRxDriver` | the descriptor rings between the Ethernet driver and the hardware |
| `Sequences`, `BlockHeap`, `HeapSystem`, `HeapDriver` | malloc, free, realloc, palloc and pfree on a memory of words |
| `CriticalSections`, `SpinLock`, `HandlerMasks`, `Synchronize` | critical sections and spin locks, instruction by instruction, on any number of cores with nested interrupts |
| `PtrList`, `KernelTimers`, `TimerDriver` | kernel timers on a doubly linked list, with 32-bit tick counts that wrap |
| `Properties`, `PropertyFormat`, `PropertiesFile` | parser and printer of property files, and their format |
| `Calendar`, `CivilTime` | seconds since 1970 and civil time; time stamps of the FAT file system |
| `ByteRing`, `LogBuffer` | the log ring of the web console |
| `SoundFormat`, `SoundDevice` | sample conversion and the queue of the sound devices |
| `Grid`, `TerminalInput`, `LcdTerminal`, `LcdSequences`, `Hd44780` | the escape sequences of the LCD driver, its shadow buffer and the memory of the controller |
| `ScreenTerminal`, `ScreenSequences`, `Screen` | the escape sequences of the screen and its pixel buffer |
| `Numbers`, `NumberText`, `CStrings`, `Replacement`, `StringBuffer` | numbers as text, and replacement in growing strings |

## Assumptions and findings

- The hardware and the callers are a nondeterministic environment: devices on the bus, packets, interrupts, file
  operations, and what timer handlers do are parameters over which the theorems quantify. So are the results of the
  allocations of received frames and sound queues, and of malloc and palloc themselves. Assumed to succeed are the
  allocations of transmit buffers (`address != 0`), of kernel timers and of list elements, which the code does not
  check either, apart from assertions.
- 1-Wire: the devices on the bus do not change during an enumeration and its timing is right; the line may be held low
  for any time before a reset. A device whose first byte is 0 is reported as not found; the enumeration is exact if and
  only if there is none (`OneWireSearch.EnumerationExactIff`). The searches after `target_search` return the whole
  family in order if and only if its least device has no twin that differs in the last bit only
  (`OneWireFamily.FamilyEnumerationExactIff`): of two such devices the lesser one is passed over.
- Transmit ring: the code copies a frame into a buffer of 1536 bytes without looking at its length. It writes behind
  the buffer if and only if the frame is longer (`GenetTx.SendFaultsIff`, `OverlongFrameFaults`). The run theorem says
  the same of whole runs, and promises nothing about memory and wire once it has happened. On a 16-bit wrap the
  counters stay right.
- Heap: addresses are those of a 32-bit machine; the base is 16-aligned; callers free, resize and write only what they
  hold (`HeapSystem.CallerOk`). The size computation of malloc is right if and only if the request is at most 2^32-16. A
  block larger than the largest bucket is never reused (abandoned). Failing calls of palloc move its cursor on, until
  it wraps and palloc returns addresses outside of its area. A caller can count when this comes: palloc may be called
  as long as more pages were given back than taken again, or the calls that found none on the list, times the page
  size, stay below the top of the address space (`HeapSystem.MayCallPalloc`; few calls altogether are enough,
  `FewCallsAreOk`). `PallocMayBeCalledIff` shows that this count is exact, and `PallocRunsThrough` is a run that gets
  there.
- Critical sections are left in the reverse order of entering, as their nesting requires. If one is left before the
  last one, the mask is that of the last one, and what remains entered is still protected if and only if the last one is
  at IRQ level or was entered with FIQs masked (`Synchronize.LeftOutOfOrderIsSafeIff`);
  `Synchronize.LeavingOutOfOrderUnmasks` is a run in which it is not. Spin locks are enabled before other cores start.
- Kernel timers: StartKernelTimer reads the tick count before it takes the lock. At most 65535 ticks pass in between,
  and delays are at most 2^31-2-65535 ticks. A poll keeps a pointer to the timer behind the one that it fires, and is
  undefined (the outcome `Dangling`) if and only if this one is cancelled while the handler runs
  (`KernelTimers.PollIsFire`, `CancelledSuccessorDangles`); the theorems over runs are about handlers that do not do
  this (`CancelsNext`). Handles are not reused. A handler that starts timers without delay may keep a poll from ending
  (`KernelTimers.PollGoesOn`). The uptime runs four ticks ahead with each wrap of the tick count
  (`TimerDriver.UptimeIsSecondsIff`, `UptimeAheadAtWrap`), although `include/circle/timer.h` calls it continuous.
- Property files: Load does not reset the parser. After a Load that stopped at a refused character or at a read error,
  the next one reads its file right if and only if nothing but blanks stands between the last newline and the place
  where it stopped (`Properties.NextLoadIsRightIff`, `FailedLoadIsHarmlessIff`); `FailedLoadSpoilsTheNext` is an input
  for which it does not. The round-trip theorems start from the clean state, which a successful Load leaves
  (`Properties.LoadEndsClean`).
- FAT time stamps are put together by addition, which is the same as the bitwise or of the code because every field is
  within its own bits (`Calendar.FatTimeDecodes`).
- Log ring: the size is below 2^31. Data of the size of the ring or more does not fit, and leaves a log that is an end
  of the data, not necessarily the beginning of a line (`LogBuffer.CLogBuffer.Put` says of which length).
- Sound: samples of Signed24 devices are not always at least the range minimum that the class reports
  (`SoundFormat.SignedInRangeIff`, `SmallestIsOutOfRange`). The size of the queue is computed in 32 bits, and is what
  was asked for if and only if this does not wrap around (`SoundDevice.CSoundBaseDevice.AllocateQueue`,
  `QueueTooSmall`). The write format may change at any time.
- LCD: displays of up to 2 rows and 40 columns, or up to 4 rows and 20 columns, exist; `AddressesExistIff` and
  `AddressesDifferIff` say what goes wrong in others, `FortyByFourDoesNotFit` for one of them.
- Screen: the width is a multiple of the character width and the colour depth is 16 bits. The frame buffer is a
  two-dimensional array of lines; scrolling copies it by lines, as whole words in the code, for which Initialize
  requires lines of whole words. The font is any that has no pixels in blanks and in the lines of the underline.
- Strings: growing a buffer copies it as a C string, so that what was put survives if it has no NUL or if there was
  room. Replace needs a string with a buffer, which a default-constructed one has not.
- `_strtoul` takes the characters between `9` and `A` for digits (`Numbers.HexDigitsIff`, `ColonIsTen`).

## Model

| member | source | states |
|---|---|---|
| `OneWireSearch.WalkReachesDevice` | addon/OneWire/OneWire.cpp:355-471 | a pass of search over the 64 bits of a bus with at least one device ends at the ROM of a device |
| `OneWireSearch.LastZeroIffGreatest` | addon/OneWire/OneWire.cpp:387-460 | no fork was left with 0 (last_zero is 0, so LastDeviceFlag is set) if and only if the ROM just found is the greatest on the bus |
| `OneWireSearch.FirstWalkIsLeast` | addon/OneWire/OneWire.cpp:355-471 | from the reset state search finds the least ROM |
| `OneWireSearch.ResumedWalkIsSuccessor` | addon/OneWire/OneWire.cpp:355-471 | from LastDiscrepancy and ROM_NO search finds the next greater ROM, none in between |
| `OneWireSearch.SearchContinues` | addon/OneWire/OneWire.cpp:355-471 | from any state at all, a successful search returns a device and can be resumed; a failed one leaves the counters at the start |
| `OneWireSearch.NextSearch` | addon/OneWire/OneWire.cpp:355-471 | after a device that is not the greatest, search takes its successor to ROM_NO and returns TRUE unless its first byte is 0; after the greatest it fails and starts again |
| `OneWireSearch.EnumerationPrefix` | addon/OneWire/OneWire.cpp:313-323 | after reset_search the first n calls all succeed and return the n least ROMs in increasing order |
| `OneWireSearch.EnumerationExactIff` | addon/OneWire/OneWire.cpp:355-471 | |D| calls return every device of a non-empty bus D exactly once and in order, and call |D|+1 fails and is ready to begin again, if and only if no device has a first byte of 0 |
| `OneWireSearch.ZeroFamilyIsNotFound` | addon/OneWire/OneWire.cpp:462-467 | a bus with one device whose first byte is 0 is not enumerated |
| `OneWireSearch.TargetSearchFindsFamily` | addon/OneWire/OneWire.cpp:328-337 | after target_search(f), f not 0, the next search returns a device of family f if and only if there is one, and can be resumed from it |
| `OneWireFamily.FamilyEnumerationExactIff` | addon/OneWire/OneWire.cpp:328-471 | after target_search(f), f not 0, as many searches as family f has devices return just these, in order, if and only if the least of them has no twin that differs in bit 64 only |
| `OneWireFamily.FirstIsLeastIff` | addon/OneWire/OneWire.cpp:400-411 | the first search after target_search returns the least device of the family if and only if it has no such twin |
| `OneWireFamily.TwinIsPassedOver` | addon/OneWire/OneWire.cpp:334-411 | two devices of family 1 that differ in bit 64 only are not both returned |
| `OneWire.RomBitsInjective` | addon/OneWire/OneWire.cpp:355-471 | two ROM numbers that are equal bit by bit, least significant bit of each byte first, are equal |
| `OneWire.ZeroFamilyByte` | addon/OneWire/OneWire.cpp:462-467 | the first byte is 0 exactly if the first eight bits in search order are 0 |
| `OneWire.Bus.Reset` | addon/OneWire/OneWire.cpp:144-174 | waits until the line is high, for at most 124 reads, and returns TRUE if and only if the line got high in time and there are devices, which send a presence pulse |
| `OneWire.Bus.ReadBit` | addon/OneWire/OneWire.cpp:210-232 | a bit reads as 0 if some searching device offers 0 (wired AND), and reads alternate between the bit and its complement |
| `OneWire.Bus.WriteBit` | addon/OneWire/OneWire.cpp:180-205 | only the devices whose ROM has the written bit at this position go on searching |
| `OneWire.OneWire.ResetSearch` | addon/OneWire/OneWire.cpp:313-323 | the search state is that of a new enumeration, with ROM_NO all 0 |
| `OneWire.OneWire.TargetSearch` | addon/OneWire/OneWire.cpp:328-337 | ROM_NO is the family code followed by zeros, and the state is one that targets this family |
| `OneWire.OneWire.ReadBitAndComplement` | addon/OneWire/OneWire.cpp:389-394 | the two reads are 0 exactly for the bit values that some device still in the search has; never both 1 |
| `OneWire.OneWire.PreviousBit` | addon/OneWire/OneWire.cpp:405-406 | the bit of ROM_NO under the mask is that of the previous walk at this position |
| `OneWire.OneWire.ChooseDirection` | addon/OneWire/OneWire.cpp:396-424 | the direction is that of the specified walk; last_zero and LastFamilyDiscrepancy record the forks answered with 0 |
| `OneWire.OneWire.StoreBit` | addon/OneWire/OneWire.cpp:426-431 | exactly one bit of ROM_NO changes, to the search direction |
| `OneWire.OneWire.SearchBit` | addon/OneWire/OneWire.cpp:387-447 | one round of the loop advances ROM_NO, the bus and last_zero by one bit of the specified walk |
| `OneWire.OneWire.WalkBus` | addon/OneWire/OneWire.cpp:387-447 | the loop ends after 64 bits with ROM_NO the full walk and last_zero its last fork answered with 0 |
| `OneWire.OneWire.Search` | addon/OneWire/OneWire.cpp:355-471 | result and new state of search are those of SearchOnce on the devices of the bus, and newAddr gets ROM_NO unless there was no walk and no device |
| `OneWireCrc.TableHoldsRemainders` | addon/OneWire/OneWire.cpp:483-500 | each of the 256 entries of dscrc_table is the remainder of its index after eight shifts |
| `OneWireCrc.Crc8Table` | addon/OneWire/OneWire.cpp:508-516 | the table-driven crc8 of any message is the remainder of its bits, least significant first, by x^8+x^5+x^4+1 |
| `OneWireCrc.Crc8Byte` | addon/OneWire/OneWire.cpp:522-536 | eight rounds of the bit loop divide one byte |
| `OneWireCrc.Crc8Serial` | addon/OneWire/OneWire.cpp:522-536 | the bit-serial crc8 of any message is the same remainder as that of the table |
| `OneWireCrc.OddParity` | addon/OneWire/OneWire.cpp:548-558 | the oddparity table gives the parity of a nibble |
| `OneWireCrc.Crc16Feedback` | addon/OneWire/OneWire.cpp:555-563 | the exclusive ors of the parity trick are one step of ParityStep |
| `OneWireCrc.Crc16Byte` | addon/OneWire/OneWire.cpp:546-567 | one byte of the parity-trick crc16 is eight shifts of the bitwise reflected 0xA001 division |
| `OneWireCrc.Crc16` | addon/OneWire/OneWire.cpp:546-567 | crc16 is the bitwise reflected 0xA001 CRC of every message and start value |
| `OneWireCrc.CheckCrc16` | addon/OneWire/OneWire.cpp:540-544 | accepted are exactly the two bytes of the inverted CRC, low byte first |
| `OneWireCrc.Crc8Residue` | addon/OneWire/OneWire.cpp:522-536 | a message followed by one more byte has CRC-8 0 if and only if this byte is the CRC-8 of the message |
| `OneWireCrc.Crc16Residue` | addon/OneWire/OneWire.cpp:540-544 | a message followed by two bytes leaves the residue 0xB001 if and only if they are its inverted CRC-16 |
| `OneWireCrc.DifferenceStays` | addon/OneWire/OneWire.cpp:522-536 | different CRC registers stay different whatever bits follow |
| `OneWireCrc.BurstDetected` | addon/OneWire/OneWire.cpp:546-567 | two messages that differ only within one burst of as many bits as the CRC has get different CRCs |
| `OneWireCrc.ByteErrorDetected` | addon/OneWire/OneWire.cpp:508-567 | every change of one byte of a message changes the CRC |
| `GenetIndex.MaskedArithmetic` | lib/bcm54213.cpp:1325-1352 | the masked 16-bit difference and increment are the distance and the successor on a ring of 65536 indices |
| `GenetTx.RingsPartition` | lib/bcm54213.cpp:1223-1266 | the five transmit rings own disjoint slots that together are 0..255: 32 for each of the first four, and the upper half for the default one |
| `GenetTx.SendKeepsInv` | lib/bcm54213.cpp:693-755 | SendFrame keeps the ring invariant, on its own ring and on the others |
| `GenetTx.SendFaultsIff` | lib/bcm54213.cpp:723-729 | a call that accepts a frame writes behind the end of its buffer if and only if the frame is longer than 1536 bytes |
| `GenetTx.OverlongFrameFaults` | lib/bcm54213.cpp:715-729 | the code does not refuse such a frame: with 1537 bytes the first call is a fault |
| `GenetTx.TransmitReadsLiveBuffer` | lib/bcm54213.cpp:712-752 | the descriptor that the hardware consumes next holds the address and length of a live buffer with the oldest pending frame, unchanged |
| `GenetTx.TransmitKeepsInv` | lib/bcm54213.cpp:693-755 | hardware consumption keeps the invariant |
| `GenetTx.ReclaimFreesLiveBuffer` | lib/bcm54213.cpp:1325-1362 | the buffer that tx_reclaim frees is live, is no longer pending, and belongs to no other slot |
| `GenetTx.ReclaimKeepsInv` | lib/bcm54213.cpp:1325-1352 | tx_reclaim keeps the invariant and leaves no consumed descriptor unreclaimed |
| `GenetTx.TransmitRingsSafe` | lib/bcm54213.cpp:693-755 | in every interleaving of SendFrame, hardware consumption and tx_reclaim, across index wrap: free_bds plus outstanding descriptors is the ring size; nothing dead was read or freed, and nothing written behind a buffer, if and only if no accepted frame was overlong; and then exactly the slots from clean_ptr to write_ptr own a buffer, each live buffer has one owner, and frames were transmitted in the order accepted |
| `GenetTx.SendAccepts` | lib/bcm54213.cpp:693-755 | a frame is accepted if and only if two descriptors are free, and then one frame is queued behind the others of its ring: its own bytes, followed by zeros up to 60; one that is refused changes nothing |
| `GenetTx.AcceptedIsPassed` | lib/bcm54213.cpp:693-755 | over every run: the frames accepted on a ring are those passed to SendFrame while there was room, one for one, in order, each followed by zeros up to 60 bytes |
| `GenetTx.WireIsPassed` | lib/bcm54213.cpp:693-755 | over every run without an overlong frame: so are the frames on the wire |
| `GenetTxDriver.Bcm54213Tx.constructor` | lib/bcm54213.cpp:1223-1266 | the driver starts in the initial state of the transmit model |
| `GenetTxDriver.Bcm54213Tx.InitTxQueues` | lib/bcm54213.cpp:1223-1266 | the four priority rings and the default ring get their sizes and slot ranges |
| `GenetTxDriver.Bcm54213Tx.InitTxRing` | lib/bcm54213.cpp:1269-1309 | one ring is set to empty with all descriptors free, and no other ring changes |
| `GenetTxDriver.Bcm54213Tx.SendFrame` | lib/bcm54213.cpp:693-755 | result and new state are those of Send on the default ring, for frames of any length (SendAccepts says which are accepted and what is queued) |
| `GenetTxDriver.Bcm54213Tx.CopyToBuffer` | lib/bcm54213.cpp:723-724 | memcpy copies all of the frame, and is a fault if one of its bytes is stored behind the end of the buffer |
| `GenetTxDriver.Bcm54213Tx.GetTxcb` | lib/bcm54213.cpp:1311-1323 | returns the slot at write_ptr and advances it, wrapping at the end of the ring |
| `GenetTxDriver.Bcm54213Tx.FreeTxCb` | lib/bcm54213.cpp:1354-1362 | frees the buffer of a control block, if it has one, and clears it |
| `GenetTxDriver.Bcm54213Tx.ReclaimSlot` | lib/bcm54213.cpp:1335-1346 | one round of the loop reclaims one descriptor |
| `GenetTxDriver.Bcm54213Tx.TxReclaim` | lib/bcm54213.cpp:1325-1352 | reclaims exactly the descriptors that the hardware has consumed since the last call |
| `GenetRx.PointerFollowsIndex` | lib/bcm54213.cpp:850-857 | incrementing c_index, also past 0xFFFF, moves c_index mod 256 like read_ptr |
| `GenetRx.ClassifyByBits` | lib/bcm54213.cpp:806-845 | a packet is delivered if and only if SOP (0x2000) and EOP (0x4000) and none of the bits 0x01 to 0x10 are set, as its data without the two bytes in front and, if the hardware forwards it, without the checksum of four; it is fragmented if and only if SOP or EOP lacks |
| `GenetRx.ProcessOutcome` | lib/bcm54213.cpp:789-848 | the oldest packet is delivered, or dropped as fragmented or erroneous, as its status says; dropped for lack of a buffer only when none was allocated |
| `GenetRx.ProcessKeepsBuffers` | lib/bcm54213.cpp:1459-1488 | each of the 256 slots owns exactly one live buffer afterwards and none is leaked, whatever happened to the packet |
| `GenetRx.ReceiveRingSafe` | lib/bcm54213.cpp:757-863 | at every moment of every run: one live buffer per slot and none besides, read_ptr equal to c_index mod 256, and each processed packet, in ring order, delivered unchanged or dropped for its reason |
| `GenetRx.ReceiveProcessesOldest` | lib/bcm54213.cpp:757-863 | a call in such a run processes exactly the oldest packet, if there is one |
| `GenetRx.ReachableIsReady` | lib/bcm54213.cpp:757-863 | every reachable state is one in which ReceiveFrame may be called |
| `GenetRxDriver.Bcm54213Rx.FreeRxCb` | lib/bcm54213.cpp:1480-1488 | takes the buffer out of a control block |
| `GenetRxDriver.Bcm54213Rx.RxRefill` | lib/bcm54213.cpp:1459-1478 | puts a new buffer on the ring and returns the old one; changes nothing if the allocation failed |
| `GenetRxDriver.Bcm54213Rx.AllocRxBuffers` | lib/bcm54213.cpp:1436-1447 | succeeds if and only if every allocation does, and then the receive ring is in its initial state |
| `GenetRxDriver.Bcm54213Rx.TakePacket` | lib/bcm54213.cpp:789-848 | outcome and new state are those of Process for the oldest packet |
| `GenetRxDriver.Bcm54213Rx.ReceiveFrame` | lib/bcm54213.cpp:757-863 | new state is that of Receive; TRUE exactly if a frame was delivered, which is the one returned |
| `BlockHeap.BlocksDisjoint` | lib/alloc.cpp:110-182 | carved blocks are disjoint |
| `BlockHeap.MallocKeepsInv` | lib/alloc.cpp:110-182 | malloc keeps the heap invariant: tiling by 16-aligned blocks, one owner each, acyclic free lists |
| `BlockHeap.MallocGives` | lib/alloc.cpp:110-182 | malloc returns null and changes no owner (exactly when, says MallocNullIff), or a block that was not live and has room for the request |
| `BlockHeap.MallocNullIff` | lib/alloc.cpp:110-182 | a request of up to 2^32-16 bytes is refused if and only if there is no free block of its size (the least bucket size that is enough, or its own) and the end of a new one, with 16 bytes of header and rounded up to 16, lies behind the limit less the reserve; a refusal gives up the reserve; otherwise a free block of this size is taken, or a new one is carved just there |
| `BlockHeap.FreedIsNext` | lib/alloc.cpp:110-217 | a block that was freed is the next one for a request of its size |
| `BlockHeap.CarvedBlockCoversIff` | lib/alloc.cpp:140-172 | a newly carved block holds the request if and only if the request is at most 2^32-16 |
| `BlockHeap.HugeRequestGetsHeaderOnly` | lib/alloc.cpp:140-172 | a request of 2^32-1 bytes gets a header and no data |
| `BlockHeap.FreeKeepsInv` | lib/alloc.cpp:184-217 | free of a live block keeps the invariant |
| `BlockHeap.MallocKeepsData` | lib/alloc.cpp:110-182 | malloc changes the data of no live block |
| `BlockHeap.FreeKeepsData` | lib/alloc.cpp:184-217 | free changes the data of no other live block |
| `BlockHeap.ReallocCorrect` | lib/alloc.cpp:237-269 | realloc gives a live block with room for the new size whose front is the old contents, or fails and leaves the old block live and unchanged |
| `BlockHeap.ReallocNullIff` | lib/alloc.cpp:237-269 | realloc stays in place if the block is large enough, and otherwise moves to what malloc gives: it returns null if and only if it needs a new block and malloc has none |
| `BlockHeap.ReallocKeepsData` | lib/alloc.cpp:237-269 | realloc changes the data of no other live block |
| `BlockHeap.LiveIsResizable` | lib/alloc.cpp:237-269 | every live block may be passed to realloc, and the call is the step that ReallocCorrect is about |
| `HeapSystem.PallocProperIff` | lib/alloc.cpp:271-308 | palloc returns null or a page of its area if and only if there is a free page or the cursor, which also failing calls advance, is below the top of the address space |
| `HeapSystem.PallocGives` | lib/alloc.cpp:271-308 | palloc gives the first page of the list, else the one at the cursor if it ends within the area, and else null |
| `HeapSystem.GivenBackIsNext` | lib/alloc.cpp:271-331 | the page given back last is the next one |
| `HeapSystem.CursorWraps` | lib/alloc.cpp:292-302 | with the cursor at the last page of the address space palloc returns 0xFFFFF000, outside of its area, and the cursor wraps to 0 |
| `HeapSystem.PallocKeepsPages` | lib/alloc.cpp:271-308 | palloc keeps the page invariant under that condition |
| `HeapSystem.PfreeKeepsPages` | lib/alloc.cpp:310-331 | pfree of a page that was handed out keeps it |
| `HeapSystem.PagesDisjoint` | lib/alloc.cpp:271-331 | pages are aligned, behind the block heap, and disjoint |
| `HeapSystem.InitialInv` | lib/alloc.cpp:86-103 | mem_init on a 16-aligned base establishes the invariant |
| `HeapSystem.InitialLayout` | lib/alloc.cpp:86-103 | 4 MB of pages at the end, from the first page boundary behind the block heap, which begins at the base and has a reserve of 256 KB |
| `HeapSystem.BlockHasOneOwner` | lib/alloc.cpp:110-217 | every carved block is exactly one of live, on the free list of its own size, or abandoned |
| `HeapSystem.AllocatorSafe` | lib/alloc.cpp:86-331 | at every moment of every run of malloc, free, realloc, palloc (as often as the count of its callers allows), pfree and writes by their callers: blocks tile the heap with one owner each, live blocks have their capacity, lists are acyclic, and pages are aligned, disjoint and apart from the blocks |
| `HeapSystem.RunKeepsInv` | lib/alloc.cpp:86-331 | over every run: the invariant holds, the page list is as long as the callers count, and the cursor has moved by one page for each call of palloc that found no page on the list |
| `HeapSystem.PallocMayBeCalledIff` | lib/alloc.cpp:271-308 | at every moment of every run: palloc returns null or a page of its area if and only if the count of its callers allows the call |
| `HeapSystem.MallocFailsIff` | lib/alloc.cpp:86-182 | at every moment of every run: malloc refuses a request if and only if there is neither a free block of its size nor space for a new one in front of the reserve |
| `HeapSystem.PallocFailsIff` | lib/alloc.cpp:271-308 | at every moment of every run at which it may be called: palloc returns null if and only if no page is given back and not taken again, and the pages taken from the cursor so far fill the area |
| `HeapSystem.FewCallsAreOk` | lib/alloc.cpp:271-308 | the count allows it as long as all calls of palloc so far, and this one, times the page size stay below the top of the address space |
| `HeapSystem.PallocRunsThrough` | lib/alloc.cpp:271-308 | from every start, calls of palloc alone lead to the state in which the next one returns the last page of the address space |
| `HeapSystem.OthersKeepData` | lib/alloc.cpp:110-331 | no call changes the data of a live block that it is not about |
| `HeapSystem.DataSurvives` | lib/alloc.cpp:86-331 | over every run: a live block stays live and keeps its contents until a call or a write is about it |
| `HeapDriver.Allocator.constructor` | lib/alloc.cpp:86-103 | mem_init leaves the state from which runs start |
| `HeapDriver.Allocator.TakeFromList` | lib/alloc.cpp:135-139 | the first block of a free list is taken, and its link is cleared |
| `HeapDriver.Allocator.Carve` | lib/alloc.cpp:141-176 | a new block of the size, or none and no reserve, with the sum of addresses wrapping at 2^32 (exactly when there is none, says BlockHeap.MallocNullIff) |
| `HeapDriver.Allocator.Malloc` | lib/alloc.cpp:110-182 | result and new memory are those of BlockHeap.Malloc, whose answers are those of MallocNullIff |
| `HeapDriver.Allocator.Free` | lib/alloc.cpp:184-217 | new memory is that of FreeHeader; null is ignored |
| `HeapDriver.Allocator.Realloc` | lib/alloc.cpp:237-269 | result and new memory are those of malloc, free or Resize, by case |
| `HeapDriver.Allocator.Palloc` | lib/alloc.cpp:271-308 | result and new memory are those of HeapSystem.Palloc |
| `HeapDriver.Allocator.Pfree` | lib/alloc.cpp:310-331 | new memory is that of HeapSystem.Pfree |
| `CriticalSections.StepKeepsCoreInv` | lib/synchronize.cpp:49-91 | every instruction of EnterCritical, LeaveCritical and the lock loop, and every interrupt entry and return, keeps the stack of stored masks equal to what the entered sections found, and every context masked as its sections require |
| `CriticalSections.SectionMasksItsLevel` | lib/synchronize.cpp:49-76 | a context inside a critical section runs, and continues after interrupts, with the level of the section masked, and cannot be interrupted at it |
| `CriticalSections.EnterStoresTheMask` | lib/synchronize.cpp:56-68 | EnterCritical stores the mask that its caller ran with, whatever interrupts came between reading and masking |
| `CriticalSections.LeaveRestoresTheMask` | lib/synchronize.cpp:78-91 | LeaveCritical sets the mask that the EnterCritical of the same section stored |
| `CriticalSections.LeaveFindsAMask` | lib/synchronize.cpp:87-88 | the assertion of LeaveCritical holds: there is a stored mask |
| `CriticalSections.TopBelongsToLast` | lib/synchronize.cpp:87-88 | the mask on top is that of the section entered last, whichever is left |
| `CriticalSections.EntryMaskSufficesIff` | lib/synchronize.cpp:87-90 | the mask of the section entered last is enough for what remains when another one is left before it, if and only if it is at IRQ level or was entered with FIQs masked |
| `SpinLock.StoreFindsZero` | lib/spinlock.cpp:50-83 | a store exclusive that succeeds finds the lock free |
| `SpinLock.GiveBackFindsOne` | lib/spinlock.cpp:90-123 | a lock is released by the core that holds it |
| `SpinLock.StepKeepsInv` | lib/spinlock.cpp:43-123 | every step of every core keeps the invariant of words, monitors, masks and holders |
| `SpinLock.MutualExclusion` | lib/spinlock.cpp:43-123 | for any number of cores, locks and interleavings: at most one core holds a lock, once, and the word of the lock is 0 exactly if none does |
| `SpinLock.FreeLockIsTaken` | lib/spinlock.cpp:50-83 | a core that finds the lock free takes it, if nothing comes in between |
| `SpinLock.TakenLockIsAwaited` | lib/spinlock.cpp:50-83 | one that finds it taken cannot store, and tries again |
| `SpinLock.ReleaseFrees` | lib/spinlock.cpp:90-115 | giving a lock back frees it, and no other |
| `SpinLock.HolderIsNotInterrupted` | lib/spinlock.cpp:43-86 | the holder of an IRQ-level lock runs with IRQs masked and takes none, that of an FIQ-level lock neither IRQs nor FIQs |
| `HandlerMasks.StepKeepsMasks` | lib/synchronize.cpp:49-91 | every step of a core keeps: no interrupt handler runs, stores or restores a mask below the one that it began with |
| `HandlerMasks.HandlerAbove` | lib/synchronize.cpp:49-76 | above a context inside of a critical section there is only an FIQ handler, and only inside of an IRQ-level section |
| `HandlerMasks.NoHandlerWaitsForHolder` | lib/spinlock.cpp:43-123 | in every interleaving: no handler on the core of the holder of an IRQ- or FIQ-level lock waits for this lock |
| `Synchronize.Cores.EnterCritical` | lib/synchronize.cpp:49-76 | pushes the mask of this core and masks the level; other cores keep theirs |
| `Synchronize.Cores.LeaveCritical` | lib/synchronize.cpp:78-91 | pops the mask of this core and sets it |
| `Synchronize.Cores.CurrentExecutionLevel` | lib/synchronize.cpp:26-42 | the level follows from the masked bits |
| `Synchronize.EnteredAsMethod` | lib/synchronize.cpp:49-76 | the four steps of EnterCritical do to a core what the method does to the arrays |
| `Synchronize.LeftAsMethod` | lib/synchronize.cpp:78-91 | the four steps of LeaveCritical pop the stored mask and set it, whichever section is left |
| `Synchronize.LeftInOrder` | lib/synchronize.cpp:78-91 | the section entered last gets back the mask that its own EnterCritical found |
| `Synchronize.LeftOutOfOrderIsSafeIff` | lib/synchronize.cpp:87-90 | a section left before the last one sets the mask of the last one, which protects what remains if and only if that is at IRQ level or was entered with FIQs masked |
| `Synchronize.LeavingOutOfOrderUnmasks` | lib/synchronize.cpp:49-91 | a run from an idle core: IRQ level, FIQ level inside of it, the outer one left first, and an FIQ is possible inside of the FIQ-level section |
| `Synchronize.LeaveUndoesEnter` | lib/synchronize.cpp:49-91 | LeaveCritical after EnterCritical gives the state before back |
| `PtrList.PtrList.GetFirst` | lib/ptrlist.cpp:45-48 | the first element, or null |
| `PtrList.PtrList.GetNext` | lib/ptrlist.cpp:50-56 | the next element, or null |
| `PtrList.PtrList.GetPtr` | lib/ptrlist.cpp:58-64 | the pointer of an element |
| `PtrList.PtrList.InsertBefore` | lib/ptrlist.cpp:66-102 | one new element in front of the given one; the list stays linked both ways and the other pointers keep their order |
| `PtrList.PtrList.InsertAfter` | lib/ptrlist.cpp:104-139 | one new element behind the given one, or as the only one |
| `PtrList.PtrList.Remove` | lib/ptrlist.cpp:141-173 | the element is gone; the others stay linked both ways, in order |
| `PtrList.PtrList.Find` | lib/ptrlist.cpp:175-188 | the first element with this pointer, or null if there is none |
| `KernelTimers.LaterInTime` | lib/timer.cpp:407-410 | the signed comparison of two 32-bit tick counts is that of the ticks while they are less than 2^31 apart |
| `KernelTimers.DelayIsAheadIff` | lib/timer.cpp:463-466 | a timer started with a delay is ahead of the tick count if and only if the delay is between 1 and 2^31-1 |
| `KernelTimers.StartKeepsInv` | lib/timer.cpp:377-427 | StartKernelTimer, with a tick count read up to 65535 ticks ago, keeps the queue sorted by expiry, and puts the timer behind those due at the same tick, at the tick that was asked for |
| `KernelTimers.StartQueues` | lib/timer.cpp:385-424 | one timer is new in the queue, due so many ticks behind the one that was read as the delay says, its word the low 32 bits of this tick |
| `KernelTimers.CancelKeepsInv` | lib/timer.cpp:429-450 | CancelKernelTimer removes the timer with this handle and no other |
| `KernelTimers.PollIsFire` | lib/timer.cpp:452-487 | the poll loop with its saved successor pointer, whatever the handlers start or cancel: it uses a freed timer if and only if some handler cancels the timer behind its own, and otherwise fires from the front of the queue as long as timers are due |
| `KernelTimers.SuccessorGoneIff` | lib/timer.cpp:429-484 | in one turn: the saved successor is gone after the handler if and only if this was among what it cancelled |
| `KernelTimers.CancelledSuccessorDangles` | lib/timer.cpp:468-484 | of two timers, started from boot, the handler of the first one cancels the second one: the poll is undefined |
| `KernelTimers.FiredInOrder` | lib/timer.cpp:452-487 | a poll fires in the order of expiry, first started first among equals, each timer once, and before everything it leaves |
| `KernelTimers.DueIsFired` | lib/timer.cpp:452-487 | every timer due when a poll begins is fired, unless a handler cancels it |
| `KernelTimers.OnlyDueIsFired` | lib/timer.cpp:452-487 | if no handler starts a timer without delay, nothing else is fired |
| `KernelTimers.ZeroDelayFiresIff` | lib/timer.cpp:463-480 | at every turn of a poll: a timer that its handler starts without delay is fired by the same poll, or cancelled by a later handler, if and only if the saved successor was due; otherwise it is left for the next tick |
| `KernelTimers.CancelledDoesNotFire` | lib/timer.cpp:429-487 | a timer cancelled by a handler is not fired later in the poll |
| `KernelTimers.PollGoesOn` | lib/timer.cpp:456-484 | two due timers whose handlers start timers without delay make one poll fire more than any number of timers |
| `KernelTimers.TimersFireInOrder` | lib/timer.cpp:377-487 | over every run and across the wrap of m_nTicks: each timer fires once, in the order of expiry and start within a poll and, for timers inserted in time, altogether; each at its tick, never early; one that was inserted only when its tick had come fires at most one tick after that |
| `KernelTimers.StartHasInv` | lib/timer.cpp:55-67 | the state at boot, without timers, is one from which runs may start |
| `KernelTimers.TimersFireInOrderFromBoot` | lib/timer.cpp:377-487 | the same for every run from boot on |
| `KernelTimers.UncancelledTimerFires` | lib/timer.cpp:377-487 | over every run: a timer that nobody cancels has fired when its tick is past |
| `KernelTimers.StartedTimerFires` | lib/timer.cpp:377-487 | over every run: a timer started with a delay and not cancelled fires exactly so many ticks after the one that was read, or, if this tick had come when it was inserted, at most one tick after the insertion |
| `KernelTimers.GoneForGood` | lib/timer.cpp:429-487 | over every run: a timer that was cancelled or has fired does not fire again |
| `TimerDriver.CTimer.FindPlace` | lib/timer.cpp:398-413 | the walk stops at the first timer that elapses later |
| `TimerDriver.CTimer.ElapsesAt` | lib/timer.cpp:385-385 | the word at which a delay from now ends |
| `TimerDriver.CTimer.PutIntoQueue` | lib/timer.cpp:396-424 | with a word computed at an earlier tick, the linked list represents the queue of Start with that tick; timers that were ready for the next tick stay so |
| `TimerDriver.CTimer.StartKernelTimer` | lib/timer.cpp:377-427 | both together without a tick between them |
| `TimerDriver.CTimer.CancelKernelTimer` | lib/timer.cpp:429-450 | the linked list represents the queue of Cancel; timers that were ready for the next tick stay so |
| `TimerDriver.CTimer.Turn` | lib/timer.cpp:468-481 | removes a due timer, runs its handler and frees it; the saved pointer still is the element of the successor |
| `TimerDriver.CTimer.PollRound` | lib/timer.cpp:458-484 | one round of the loop with a due timer is one turn of KernelTimers.Poll |
| `TimerDriver.CTimer.PollKernelTimers` | lib/timer.cpp:452-487 | if no handler cancels the timer behind its own: queue and handler calls are those of KernelTimers.Poll |
| `TimerDriver.CTimer.InterruptHandler` | lib/timer.cpp:526-536 | one tick more, in 32 bits, the uptime of Uptime, and then a poll under the same condition, after which no due timer is left from before |
| `TimerDriver.UptimeIsSecondsIff` | lib/timer.cpp:526-532 | m_nUptime is the number of whole seconds since boot if and only if the tick count has not wrapped too often for the current second; always before the first wrap |
| `TimerDriver.UptimeAheadAtWrap` | lib/timer.cpp:526-532 | at tick 2^32 the uptime is 42949673 seconds, one too many |
| `Properties.LoadIsCanonical` | addon/Properties/propertiesbasefile.cpp:54-208 | a successful Load makes a table of valid, distinct names and printable trimmed values |
| `Properties.LoadUndoesSaveIff` | addon/Properties/propertiesfile.cpp:34-103 | loading what was saved gives the identical list if and only if the table is such a table |
| `Properties.LoadSaveLoad` | addon/Properties/propertiesfile.cpp:34-103 | a table that was loaded from any text is the same after saving and loading it |
| `Properties.LoadIsReadLines` | addon/Properties/propertiesbasefile.cpp:54-208 | for every text the character automaton succeeds, and makes the same table, exactly as a line-by-line reading of the format |
| `PropertyFormat.LineIsLoaded` | addon/Properties/propertiesbasefile.cpp:54-208 | one more line of blanks, a name of 1 to 98 letters, digits, underscores, hyphens and periods, separators (spaces, tabs, equals signs), and a printable value of up to 498 characters with the spaces behind it, adds this name and value behind all others, unless the name is set already |
| `PropertyFormat.LineIsSkipped` | addon/Properties/propertiesbasefile.cpp:63-200 | lines of blanks, and those with a number sign behind blanks, add nothing |
| `PropertyFormat.EmptyText` | addon/Properties/propertiesfile.cpp:34-73 | an empty file is an empty table |
| `PropertyFormat.CarriageReturn` | addon/Properties/propertiesbasefile.cpp:56-59 | carriage returns make no difference, wherever they stand |
| `PropertyFormat.FirstCharacterIff` | addon/Properties/propertiesbasefile.cpp:63-97 | exactly these characters may begin a line: letters, digits, underscore, hyphen, period, blanks, the number sign and the ends of lines |
| `PropertyFormat.AfterNameIff` | addon/Properties/propertiesbasefile.cpp:99-126 | behind a name: another such character if the name has less than 98, a separator, or the end of the line, and nothing else |
| `PropertyFormat.FirstOfValueIff` | addon/Properties/propertiesbasefile.cpp:128-156 | behind the first separator: a printable character, a tab, or the end of the line, and nothing else |
| `PropertyFormat.AfterValueIff` | addon/Properties/propertiesbasefile.cpp:158-191 | behind a value: another printable character if the value has less than 498, or the end of the line, and nothing else |
| `PropertyFormat.SavedLines` | addon/Properties/propertiesfile.cpp:75-103 | Save writes a line for each property in order: name, equals sign, value |
| `Properties.ErrorLine` | addon/Properties/propertiesbasefile.cpp:44-52 | when Load fails, GetErrorLine is the number of the line of the one character that was refused |
| `Properties.LoadEndsClean` | addon/Properties/propertiesfile.cpp:72-72 | after a successful Load the parser is in its start state |
| `Properties.NextLoadIsRightIff` | addon/Properties/propertiesfile.cpp:34-73 | after a Load that read a text and stopped, at a refused character or a read error, every next Load reads its file right if and only if nothing but blanks stands behind the last newline of the text |
| `Properties.FailedLoadIsHarmlessIff` | addon/Properties/propertiesfile.cpp:34-73 | when Load refuses a character, which is the only one, the next Load reads every file right if and only if this character stood where a name could begin |
| `Properties.FailedLoadSpoilsTheNext` | addon/Properties/propertiesfile.cpp:34-73 | otherwise it happens: the next file gets a wrong first name |
| `PropertiesFile.PropertiesFile.Lookup` | addon/Properties/properties.cpp:245-258 | the index of the first property with this name, or the count |
| `PropertiesFile.PropertiesFile.AddProperty` | addon/Properties/properties.cpp:186-209 | appended, unless the name is set already |
| `PropertiesFile.PropertiesFile.SetString` | addon/Properties/properties.cpp:124-145 | replaces the value in place, or appends |
| `PropertiesFile.PropertiesFile.RemoveAll` | addon/Properties/properties.cpp:168-184 | the list is empty |
| `PropertiesFile.PropertiesFile.GetFirst` | addon/Properties/properties.cpp:211-216 | the index is at the first property; TRUE if there is one |
| `PropertiesFile.PropertiesFile.GetNext` | addon/Properties/properties.cpp:218-223 | the index is one further; TRUE if there is a property |
| `PropertiesFile.PropertiesFile.RemoveTrailingBlanks` | addon/Properties/propertiesbasefile.cpp:165-174 | the C string in the buffer is the value without trailing blanks |
| `PropertiesFile.PropertiesFile.Parse` | addon/Properties/propertiesbasefile.cpp:54-208 | one step of the automaton on the character buffers; nothing changes when it returns FALSE |
| `PropertiesFile.PropertiesFile.ParseBuffer` | addon/Properties/propertiesfile.cpp:59-67 | one buffer goes through the automaton, or stops it at the first refused character |
| `PropertiesFile.PropertiesFile.Load` | addon/Properties/propertiesfile.cpp:34-73 | for any split of the file into reads: TRUE if and only if the file is found, no read fails and the automaton accepts the text; in every case the state in which the parser is left |
| `PropertiesFile.PropertiesFile.Save` | addon/Properties/propertiesfile.cpp:75-103 | TRUE if and only if all of the printed table fits into the file and it can be created and closed |
| `Calendar.SecondsOfBreak` | lib/time.cpp:56-97 | Get after Set is the identity, and Set gives a valid date and time |
| `Calendar.BreakOfSeconds` | lib/time.cpp:146-169 | Set of Get reproduces all fields of every valid date and time |
| `Calendar.SecondsGrow` | lib/time.cpp:146-169 | later dates and times have more seconds |
| `Calendar.WeekDaysAgree` | lib/time.cpp:115-144 | the day of the week from SetDate is the one from Set |
| `Calendar.YearsInClosedForm` | lib/time.cpp:219-227 | the days before a year are those of the Gregorian calendar in closed form |
| `Calendar.MonthTable` | lib/time.cpp:229-239 | month by month, the days before it are 0, 31, 59, 90, 120, 151, 181, 212, 243, 273, 304 and 334, and one more behind February of a leap year |
| `Calendar.ValidDateIff` | lib/time.cpp:115-144 | exactly the days up to 30 in April, June, September and November, 28 or 29 in February and 31 in the others are dates, from 1970 on; leap years are those divisible by 4 that are not divisible by 100, or by 400 |
| `Calendar.SecondsInClosedForm` | lib/time.cpp:146-169 | the seconds of every valid date and time in one formula of its fields |
| `Calendar.WeekDays` | lib/time.cpp:56-97 | 1970-01-01 is a Thursday (4), and Saturday (6) is followed by Sunday (0) |
| `Calendar.FatTimeDecodes` | addon/fatfs/syscall.cpp:183-240 | the packed word decodes to the same date and time with seconds rounded down to even |
| `Calendar.NoFatTimeIff` | addon/fatfs/syscall.cpp:185-214 | the word is 0 exactly before 1980 |
| `Calendar.FatTimeGrows` | addon/fatfs/syscall.cpp:183-240 | later times have greater or equal words |
| `Calendar.FatTimeFits` | addon/fatfs/syscall.cpp:230-240 | the word of every 32-bit time has 32 bits |
| `CivilTime.CTime.constructor` | lib/time.cpp:30-39 | the time is 1970-01-01 00:00:00, a Thursday |
| `CivilTime.CTime.Set` | lib/time.cpp:56-97 | the fields are the valid date and time whose seconds, by the closed form, are the argument, with its day of the week |
| `CivilTime.CTime.SetTime` | lib/time.cpp:99-113 | accepted exactly if valid; the date stays |
| `CivilTime.CTime.SetDate` | lib/time.cpp:115-144 | accepted exactly if valid (ValidDateIff), with the day of the week of that date; the time stays |
| `CivilTime.CTime.Get` | lib/time.cpp:146-169 | the seconds of the date and time |
| `CivilTime.GetFatTime` | addon/fatfs/syscall.cpp:183-240 | the packed word of FatTime, which decodes to the date and time of the calendar |
| `LogBuffer.LoggedIsSuffix` | addon/webconsole/logbuffer.cpp:39-79 | after a Put shorter than the ring the log is a suffix of the old one and all of the new bytes; nothing is dropped exactly if it all fits |
| `LogBuffer.DroppedUpToNewline` | addon/webconsole/logbuffer.cpp:49-68 | otherwise what is dropped is what had to be and then up to and with the first newline behind it, or everything if there is none |
| `LogBuffer.LogHasWholeLines` | addon/webconsole/logbuffer.cpp:39-79 | over every run of Puts that end with a newline the log is the end of all that was put and begins with a line |
| `LogBuffer.ForcedDropLeaves` | addon/webconsole/logbuffer.cpp:49-68 | for data of the ring's size or more the forced drop leaves as many old bytes as the data is short of the next multiple of the size, less one, if the out pointer does not wrap in 32 bits |
| `LogBuffer.CLogBuffer.FreeBytes` | addon/webconsole/logbuffer.cpp:43-47 | the free space, through the wrap of unsigned differences |
| `LogBuffer.CLogBuffer.SkipLine` | addon/webconsole/logbuffer.cpp:54-68 | the out pointer moves behind the next newline |
| `LogBuffer.CLogBuffer.PutAll` | addon/webconsole/logbuffer.cpp:71-78 | the bytes are behind the contents if there is room; the ring holds the bytes written last in any case |
| `LogBuffer.CLogBuffer.UsedBytes` | addon/webconsole/logbuffer.cpp:85-89 | the number of bytes in the log, through the wrap of unsigned differences |
| `LogBuffer.CLogBuffer.Put` | addon/webconsole/logbuffer.cpp:39-79 | the contents are those of Logged if the data is shorter than the ring; otherwise the end of the data, of a length that follows modulo the size from what the drop left and the length of the data |
| `LogBuffer.CLogBuffer.Get` | addon/webconsole/logbuffer.cpp:81-102 | exactly the contents, which stay |
| `SoundFormat.ConversionGrows` | lib/soundbasedevice.cpp:243-303 | conversion to each hardware format is monotone |
| `SoundFormat.SampleIsScaled` | lib/soundbasedevice.cpp:243-303 | in bytes, for every write format and device: the bytes of the hardware, read in its own format, are the number that the bytes written stand for (an unsigned byte less 128, little-endian two's complement of 16 or 24 bits), scaled to the range of the device and rounded down |
| `SoundFormat.SamplesGrow` | lib/soundbasedevice.cpp:243-303 | a greater sample in bytes is never a lesser one in bytes of the hardware |
| `SoundFormat.FrameIsScaled` | lib/soundbasedevice.cpp:164-188 | a mono sample goes to both channels, and stereo samples to their own, each scaled |
| `SoundFormat.UnsignedInRange` | lib/soundbasedevice.cpp:289-298 | Unsigned32 samples are at least 0 and below m_nRangeMax |
| `SoundFormat.SignedInRangeIff` | lib/soundbasedevice.cpp:278-288 | Signed16 samples are in range; Signed24 samples are, if and only if the sample written is not the smallest of its format |
| `SoundFormat.SmallestIsOutOfRange` | lib/soundbasedevice.cpp:278-288 | the smallest 16-bit sample becomes -2^23 on a Signed24 device |
| `SoundFormat.SilenceIsZero` | lib/soundbasedevice.cpp:24-68 | the null frame is what bytes of the amplitude 0 are converted to: 0x80 in 8 bits, zeros in 16 and 24 |
| `SoundFormat.FastPathIsConversion` | lib/soundbasedevice.cpp:148-169 | copying 16-bit stereo frames is the same as converting them |
| `SoundDevice.CSoundBaseDevice.constructor` | lib/soundbasedevice.cpp:24-68 | the format of the device and the least and greatest sample that it reports |
| `SoundDevice.CSoundBaseDevice.AllocateQueue` | lib/soundbasedevice.cpp:88-105 | fails if and only if there is no memory; otherwise an empty queue of just the size for the frames of the given time, in 32-bit arithmetic, with room for them if and only if this does not wrap around |
| `SoundDevice.QueueTooSmall` | lib/soundbasedevice.cpp:93-94 | a queue for one second at 600 kHz and 32 bits is for less than a sixth of a second |
| `SoundDevice.CSoundBaseDevice.SetWriteFormat` | lib/soundbasedevice.cpp:107-135 | the format of what is written from now on; what is queued stays |
| `SoundDevice.CSoundBaseDevice.GetQueueBytesFree` | lib/soundbasedevice.cpp:350-362 | the free bytes, of which one is never used |
| `SoundDevice.CSoundBaseDevice.GetQueueBytesAvail` | lib/soundbasedevice.cpp:364-376 | the number of bytes queued |
| `SoundDevice.CSoundBaseDevice.Enqueue` | lib/soundbasedevice.cpp:378-394 | the bytes are added to the end |
| `SoundDevice.CSoundBaseDevice.Dequeue` | lib/soundbasedevice.cpp:396-412 | the bytes are taken from the front |
| `SoundDevice.CSoundBaseDevice.Write` | lib/soundbasedevice.cpp:137-198 | consumes whole frames only, as many as are given and fit, and queues them converted (FrameIsScaled) and in order; a step of the Player |
| `SoundDevice.CSoundBaseDevice.GetChunk` | lib/soundbasedevice.cpp:305-348 | the chunk is full: queued bytes first, then only null frames; more data is asked for exactly below the threshold; a step of the Player |
| `SoundDevice.PlayedInOrder` | lib/soundbasedevice.cpp:137-348 | over every run of the calls of Write and GetChunk and changes of the write format: what was written, converted, is what was played followed by what is queued |
| `SoundDevice.CallsDoNotMatter` | lib/soundbasedevice.cpp:137-198 | how the frames are cut into calls of Write makes no difference: the result is the conversion of all of them |
| `LcdTerminal.RunKeepsShape` | addon/display/hd44780device.cpp:123-342 | whatever is written, the cursor stays on a cell |
| `LcdTerminal.CallsDoNotMatter` | addon/display/hd44780device.cpp:100-121 | how the characters are cut into calls of Write makes no difference, also inside of escape sequences |
| `LcdSequences.Backspace` | addon/display/hd44780device.cpp:402-416 | BS: one cell back, from the first column to the end of the row above; not from the first cell |
| `LcdSequences.Tabulator` | addon/display/hd44780device.cpp:493-500 | TAB: to the next multiple of 8 in this row, and if there is none to the next row, or scrolled |
| `LcdSequences.LineFeed` | addon/display/hd44780device.cpp:480-484 | LF: first column of the next row; in the last one the rows move up and it is blank |
| `LcdSequences.CarriageReturn` | addon/display/hd44780device.cpp:344-347 | CR: first column, nothing else |
| `LcdSequences.Printable` | addon/display/hd44780device.cpp:444-459 | characters from 0x20 on are put into the cell of the cursor, which moves one cell on, to the next row behind the last column |
| `LcdSequences.OtherControls` | addon/display/hd44780device.cpp:444-459 | the other control characters do nothing |
| `LcdSequences.EscapeOther` | addon/display/hd44780device.cpp:156-167 | ESC and a character other than [ do nothing |
| `LcdSequences.CursorUp` | addon/display/hd44780device.cpp:176-179 | ESC[A: one row up, not from the first one |
| `LcdSequences.CursorDown` | addon/display/hd44780device.cpp:181-184 | ESC[B: one row down; in the last one it scrolls |
| `LcdSequences.CursorRight` | addon/display/hd44780device.cpp:186-189 | ESC[C: one cell on, to the next row behind the last column |
| `LcdSequences.CursorLeft` | addon/display/hd44780device.cpp:191-194 | ESC[D: one cell back, like BS |
| `LcdSequences.CursorHome` | addon/display/hd44780device.cpp:196-199 | ESC[H: to the first cell |
| `LcdSequences.ClearToEnd` | addon/display/hd44780device.cpp:201-204 | ESC[J: from the cursor on the row is blank, and all rows below; no other cell |
| `LcdSequences.ClearToLineEnd` | addon/display/hd44780device.cpp:206-209 | ESC[K: from the cursor on the row is blank; no other cell |
| `LcdSequences.CsiOther` | addon/display/hd44780device.cpp:169-223 | any other character behind ESC[ that is no digit and no question mark ends the sequence without effect |
| `LcdSequences.EraseCharacters` | addon/display/hd44780device.cpp:232-235 | ESC[nX: n cells from the cursor on are blank, as far as the row has so many |
| `LcdSequences.CsiNumberOther` | addon/display/hd44780device.cpp:225-254 | any other character behind the number ends the sequence without effect |
| `LcdSequences.CsiNumberTooLarge` | addon/display/hd44780device.cpp:237-252 | so does the digit that makes the number exceed 99 |
| `LcdSequences.CursorMove` | addon/display/hd44780device.cpp:418-426 | ESC[r;cH: to row r and column c, counted from 1, if there is such a cell |
| `LcdSequences.CsiTwoNumbersOther` | addon/display/hd44780device.cpp:280-305 | any other character behind two numbers, and a digit that makes the second one exceed 199, end the sequence without effect |
| `LcdSequences.CursorMode` | addon/display/hd44780device.cpp:307-317 | ESC[?25h shows the cursor and ESC[?25l hides it; other numbers do nothing |
| `LcdSequences.CsiQuestionOther` | addon/display/hd44780device.cpp:307-336 | any other character behind this number ends the sequence without effect |
| `LcdSequences.NumberMissing` | addon/display/hd44780device.cpp:256-278 | so does one in the place of a number |
| `LcdTerminal.RowsBeginAt` | addon/display/hd44780device.cpp:578-604 | the rows begin at the addresses 0 and 0x40, and the third and fourth ones behind the first and second: 0x14 and 0x54 with 20 columns, 0x10 and 0x50 with 16 |
| `LcdTerminal.Commands` | addon/display/hd44780device.cpp:75-88 | what the controller does on each command of the driver: clear, cursor on and off, one line or two, set address, entry mode |
| `LcdTerminal.AddressesExistIff` | addon/display/hd44780device.cpp:578-604 | every cell has display memory if and only if there are at most 2 rows or at most 20 columns |
| `LcdTerminal.AddressesDifferIff` | addon/display/hd44780device.cpp:578-604 | different cells have different addresses if and only if there are at most 2 rows or at most 32 columns |
| `LcdTerminal.FortyByFourDoesNotFit` | addon/display/hd44780device.cpp:578-604 | with 40 columns the first cell of the third row has no memory, and its cell 24 shares that of the second row |
| `Hd44780.CharIsShown` | addon/display/hd44780device.cpp:518-527 | setting the address and writing a character changes this cell of the display and no other |
| `Hd44780.CHD44780Device.Initialize` | addon/display/hd44780device.cpp:75-88 | a blank display with the cursor home, in the controller and in the buffer |
| `Hd44780.CHD44780Device.SetChar` | addon/display/hd44780device.cpp:518-527 | one cell changes, in the buffer and in the controller |
| `Hd44780.CHD44780Device.Scroll` | addon/display/hd44780device.cpp:502-516 | the rows move up by one and the last one is blank |
| `Hd44780.CHD44780Device.SetCursorMode` | addon/display/hd44780device.cpp:486-491 | the controller shows the cursor as told |
| `Hd44780.CHD44780Device.CursorDown` | addon/display/hd44780device.cpp:386-394 | one row down, or scrolled |
| `Hd44780.CHD44780Device.CursorNewLine` | addon/display/hd44780device.cpp:480-484 | first column of the next row |
| `Hd44780.CHD44780Device.CursorLeft` | addon/display/hd44780device.cpp:402-416 | one cell back, to the end of the row above from the first column, not from the first cell |
| `Hd44780.CHD44780Device.CursorRight` | addon/display/hd44780device.cpp:428-434 | one cell on, to the next row from the last column |
| `Hd44780.CHD44780Device.CursorUp` | addon/display/hd44780device.cpp:436-442 | one row up, not from the first |
| `Hd44780.CHD44780Device.CursorMove` | addon/display/hd44780device.cpp:418-426 | to a position on the display; others are ignored |
| `Hd44780.CHD44780Device.Tabulator` | addon/display/hd44780device.cpp:493-500 | to the next multiple of 8, or the next row |
| `Hd44780.CHD44780Device.DisplayChar` | addon/display/hd44780device.cpp:444-459 | the character is in the cell and the cursor one further; control characters are ignored |
| `Hd44780.CHD44780Device.EraseFromCursor` | addon/display/hd44780device.cpp:461-478 | as many cells of the row are blank |
| `Hd44780.CHD44780Device.ClearToLineEnd` | addon/display/hd44780device.cpp:378-384 | the rest of the row is blank |
| `Hd44780.CHD44780Device.ClearToDisplayEnd` | addon/display/hd44780device.cpp:349-376 | the rest of the display is blank |
| `Hd44780.CHD44780Device.WriteChar` | addon/display/hd44780device.cpp:123-342 | the device is in the state of Step, so that every whole character or sequence does what LcdSequences says, and buffer and controller agree with its cells |
| `Hd44780.CHD44780Device.Write` | addon/display/hd44780device.cpp:100-121 | the device is in the state of Run, buffer and controller agree in every cell, and the controller has its cursor on the cursor if it is on |
| `ScreenTerminal.RunKeepsShape` | lib/screen.cpp:244-517 | whatever is written, the cursor stays on a cell inside of the scroll region and the colour is not black |
| `ScreenTerminal.CallsDoNotMatter` | lib/screen.cpp:215-242 | how the characters are cut into calls of Write makes no difference, also inside of escape sequences |
| `ScreenSequences.Backspace` | lib/screen.cpp:251-253 | BS: one cell back, from the first column to the end of the row above, not above the scroll region; nothing else changes |
| `ScreenSequences.Tabulator` | lib/screen.cpp:722-731 | TAB: to the next multiple of 8 in this row, and if there is none to the next row, or scrolled |
| `ScreenSequences.LineFeed` | lib/screen.cpp:660-664 | LF: first column of the next row; in the last row of the scroll region its rows move up by one and the last one is black |
| `ScreenSequences.CarriageReturn` | lib/screen.cpp:519-522 | CR: first column, nothing else |
| `ScreenSequences.Printable` | lib/screen.cpp:620-630 | characters from 0x20 on are put into the cell of the cursor in the current colour, and the cursor moves one cell on, to the next row behind the last column |
| `ScreenSequences.OtherControls` | lib/screen.cpp:620-630 | the other control characters do nothing |
| `ScreenSequences.EscapeOther` | lib/screen.cpp:277-293 | ESC and a character other than [ do nothing |
| `ScreenSequences.CursorUp` | lib/screen.cpp:302-305 | ESC[A: one row up, not above the scroll region |
| `ScreenSequences.CursorDown` | lib/screen.cpp:307-310 | ESC[B: one row down; in the last row of the scroll region it scrolls |
| `ScreenSequences.CursorRight` | lib/screen.cpp:312-315 | ESC[C: one cell on, to the next row behind the last column |
| `ScreenSequences.CursorLeft` | lib/screen.cpp:317-320 | ESC[D: one cell back, like BS |
| `ScreenSequences.CursorHome` | lib/screen.cpp:322-325 | ESC[H: to the first cell of the scroll region |
| `ScreenSequences.ClearToEnd` | lib/screen.cpp:327-330 | ESC[J: from the cursor on the row is black, and all rows below, also those behind the scroll region; no other cell |
| `ScreenSequences.ClearToLineEnd` | lib/screen.cpp:332-335 | ESC[K: from the cursor on the row is black; no other cell |
| `ScreenSequences.CsiOther` | lib/screen.cpp:295-364 | any other character behind ESC[ that is no digit and no question mark ends the sequence without effect |
| `ScreenSequences.EraseCharacters` | lib/screen.cpp:388-391 | ESC[nX: n cells from the cursor on are black, as far as the row has so many |
| `ScreenSequences.SelectColor` | lib/screen.cpp:699-720 | ESC[nm: 0 and 27 select white, 1 red and 2 blue; other numbers nothing |
| `ScreenSequences.InsertMode` | lib/screen.cpp:393-400 | ESC[4h and ESC[4l are noted; other numbers do nothing |
| `ScreenSequences.CsiNumberOther` | lib/screen.cpp:366-424 | any other character behind the number ends the sequence without effect |
| `ScreenSequences.CsiNumberTooLarge` | lib/screen.cpp:407-422 | so does the digit that makes the number exceed 99 |
| `ScreenSequences.CursorMove` | lib/screen.cpp:581-593 | ESC[r;cH: to row r and column c, counted from 1, if this is a cell of the scroll region, and nowhere otherwise |
| `ScreenSequences.ScrollRegion` | lib/screen.cpp:681-696 | ESC[r;er: these rows are the scroll region, if there are such rows; then to its first cell |
| `ScreenSequences.CsiTwoNumbersOther` | lib/screen.cpp:450-480 | any other character behind two numbers, and a digit that makes the second one exceed 199, end the sequence without effect |
| `ScreenSequences.CursorMode` | lib/screen.cpp:482-492 | ESC[?25h shows the cursor and ESC[?25l hides it; other numbers do nothing |
| `ScreenSequences.CsiQuestionOther` | lib/screen.cpp:482-511 | any other character behind this number ends the sequence without effect |
| `ScreenSequences.NumberMissing` | lib/screen.cpp:426-448 | so does one in the place of a number |
| `Screen.InvertDraws` | lib/screen.cpp:789-810 | inverting adds the underline of the cursor to the picture |
| `Screen.InvertRemoves` | lib/screen.cpp:789-810 | inverting takes it away and leaves the character under it, also of another colour |
| `Screen.ScrollMovesCells` | lib/screen.cpp:733-764 | moving the lines of pixels scrolls the cells of the region |
| `Screen.BlackIsCleared` | lib/screen.cpp:524-538 | blackening the lines below clears the cells there |
| `Screen.PictureInPixels` | lib/screen.cpp:766-810 | the picture of a terminal pixel by pixel: cells of 8 by 19, the character's 16 lines in the cell's colour, and the last three lines in the current colour under the cursor, if it is on, and black elsewhere |
| `Screen.CScreenDevice.Initialize` | lib/screen.cpp:76-129 | whatever was in the frame buffer, it is the picture of a blank terminal with the cursor in the first cell |
| `Screen.CScreenDevice.DrawChar` | lib/screen.cpp:766-776 | the cell shows the character, other pixels are unchanged |
| `Screen.CScreenDevice.EraseChar` | lib/screen.cpp:778-787 | the cell is black, other pixels are unchanged |
| `Screen.CScreenDevice.InvertCursor` | lib/screen.cpp:789-810 | the underline of the cell of the cursor is inverted, nothing else; nothing at all if the cursor is off |
| `Screen.CScreenDevice.ScrollLines` | lib/screen.cpp:733-764 | the lines of the region move up by one character and the last ones are black |
| `Screen.CScreenDevice.Scroll` | lib/screen.cpp:733-764 | the picture is that of the scrolled cells |
| `Screen.CScreenDevice.CursorDown` | lib/screen.cpp:548-557 | one row down, or the region is scrolled |
| `Screen.CScreenDevice.CursorNewLine` | lib/screen.cpp:660-664 | first column of the next row |
| `Screen.CScreenDevice.CursorLeft` | lib/screen.cpp:565-579 | one cell back, not above the scroll region |
| `Screen.CScreenDevice.CursorRight` | lib/screen.cpp:595-602 | one cell on, to the next row from the last column |
| `Screen.CScreenDevice.CursorUp` | lib/screen.cpp:604-610 | one row up, not above the scroll region |
| `Screen.CScreenDevice.CursorHome` | lib/screen.cpp:559-563 | first cell of the scroll region |
| `Screen.CScreenDevice.CursorMove` | lib/screen.cpp:581-593 | to a position in the scroll region; others are ignored |
| `Screen.CScreenDevice.SetScrollRegion` | lib/screen.cpp:681-696 | a possible region is set, and the cursor goes home |
| `Screen.CScreenDevice.SetStandoutMode` | lib/screen.cpp:699-720 | the colour of the mode |
| `Screen.CScreenDevice.Tabulator` | lib/screen.cpp:722-731 | to the next multiple of 8 characters, or the next row |
| `Screen.CScreenDevice.DisplayChar` | lib/screen.cpp:620-630 | the character is in the cell in the current colour, the cursor one further |
| `Screen.CScreenDevice.EraseFromCursor` | lib/screen.cpp:632-649 | as many cells of the row are blank |
| `Screen.CScreenDevice.ClearToLineEnd` | lib/screen.cpp:540-546 | the rest of the row is blank |
| `Screen.CScreenDevice.ClearToDisplayEnd` | lib/screen.cpp:524-538 | the rest of the display is blank, also below the scroll region |
| `Screen.CScreenDevice.WriteChar` | lib/screen.cpp:244-517 | the device is in the state of Step, so that every whole character or sequence does what ScreenSequences says, and the frame buffer is the picture of its cells |
| `Screen.CScreenDevice.Write` | lib/screen.cpp:215-242 | the device is in the state of Run, of which ScreenSequences says what each character and sequence does, and the frame buffer is the picture of its cells and colours with the underline at the cursor exactly if it is on |
| `Numbers.NumberRoundTrip` | lib/util.cpp:383-513 | for every machine word, in base 8, 10 or 16 and either case: _strtoul reads back the number that ntoa wrote, to the end |
| `Numbers.TextIsNumber` | lib/string.cpp:523-558 | ntoa writes the digits that stand for the number in this base, without a zero in front, with letters only of the case asked for |
| `Numbers.ReadsNumber` | lib/util.cpp:383-513 | for every base from 2 to 36, or 0: blanks, a sign, a prefix (0x only in base 0 or 16) and the digits of a number of an unsigned long, up to a character that is none, are read as this number, or its negative modulo 2^n, and the end is behind the digits; in base 0 a leading 0 means base 8, 0x base 16, and else it is 10 |
| `Numbers.ReadsNothing` | lib/util.cpp:383-513 | without digits the number is 0 and the end is behind blanks and sign |
| `Numbers.RefusesBase` | lib/util.cpp:395-431 | other bases, and 0x in another base, give 0 and the beginning of the text as the end |
| `Numbers.OverflowIsSeenIff` | lib/util.cpp:473-493 | the digit that makes a number too large is refused, with the greatest unsigned long, if and only if the number with this digit, reduced modulo 2^n, is less than the number without it; otherwise reading goes on with the reduced one |
| `Numbers.NumberFits` | lib/string.cpp:27-33 | no number has more digits than MAX_NUMBER_LEN |
| `Numbers.HexDigitsIff` | lib/util.cpp:449-471 | in base 16 the accepted digits are 0-9, A-F, a-f and also the six characters between 9 and @ |
| `Numbers.ColonIsTen` | lib/util.cpp:449-471 | _strtoul reads "1:" in base 16 as 26 |
| `NumberText.DivisorFits` | lib/string.cpp:527-537 | the divisor computation does not overflow |
| `NumberText.FindDivisor` | lib/string.cpp:527-537 | the divisor is the power of the base for the first digit |
| `NumberText.Ntoa` | lib/string.cpp:523-558 | the digits of the number and a NUL are written |
| `NumberText.ReadDigit` | lib/util.cpp:449-471 | the value of a digit, or none |
| `NumberText.ScanPrefix` | lib/util.cpp:395-448 | blanks, sign and prefix give start, base and sign, or the text is refused |
| `NumberText.ScanDigits` | lib/util.cpp:450-493 | the digits give value and end, with wrap-around and overflow as coded |
| `NumberText.Strtoul` | lib/util.cpp:383-513 | value and end are those of StrToUl |
| `Replacement.PiecesMakeUp` | lib/string.cpp:152-203 | the pieces between the occurrences and the occurrences make up the string |
| `Replacement.PiecesAreLeftmost` | lib/string.cpp:152-203 | the occurrences are the leftmost ones that do not overlap |
| `Replacement.ReplacedLength` | lib/string.cpp:152-203 | the length of the result follows from the number of replacements |
| `StringBuffer.CString.constructor` | lib/string.cpp:43-50 | a copy of the C string, wherever m_pInPtr points |
| `StringBuffer.CString.ReserveSpace` | lib/string.cpp:495-521 | there is room; a new buffer is made exactly if there was not, and keeps what was put if it has no NUL, or up to the first one |
| `StringBuffer.CString.PutChar` | lib/string.cpp:474-482 | the characters are behind what was put |
| `StringBuffer.CString.PutString` | lib/string.cpp:484-493 | the string is behind what was put |
| `StringBuffer.CString.Find` | lib/util.cpp:280-293 | strchr: the first occurrence, or the end |
| `StringBuffer.CString.Replace` | lib/string.cpp:152-203 | the string is the one with the leftmost occurrences that do not overlap replaced, and the result is their number; more can be put or replaced afterwards |
| `StringBuffer.Strcpy` | lib/util.cpp:224-236 | the C string is copied with its NUL |

## Left out

- Registers, barriers, caches, delays, GPIO, buses, PHY and DMA set-up: hardware plumbing, present only as steps of the environment.
- The discard counter of the receive ring, receive filters and link management in `lib/bcm54213.cpp`.
- `HeapDriver.Allocator.Realloc`: contents of header words are whole-word cells at offsets 0, 4 and 8; byte order inside of a word is not modelled.
- `HeapSystem.AllocatorSafe`: the heap of 64-bit machines, whose size computation is wider, is not modelled.
- calloc and the statistics of `lib/alloc.cpp`: easy consequences of malloc.
- The retry loop of a spin lock as a loop: it need not end, so Acquire is modelled as steps; fairness is not claimed (FreeLockIsTaken is about a core that nothing disturbs), and WFE is a pause.
- `SpinLock.MutualExclusion`: memory is sequentially consistent; that the barriers of Acquire and Release order the other accesses is not modelled.
- `KernelTimers.Act`: what is started while a handler runs counts from the tick of the poll; a start by another core that read an earlier tick and is inserted just then is not modelled.
- `KernelTimers.PollIsFire`: what a poll does after its saved successor was cancelled is undefined in the code and in the model.
- `GenetTx.TransmitRingsSafe`: what an overlong frame overwrites is not modelled, only that it happens.
- Wall-clock time and time zones in `lib/timer.cpp`; the texts of `CTime::GetString`.
- GetNumber, SetNumber and IP addresses of properties; the memory of names and values, which are values here.
- Times beyond the range of the time_t of the tool chain: time is unbounded in the calendar.
- The spin locks inside of the sound queue and the log; overloads of GetChunk.
- `SoundFormatUnknown`, which stands for frames that are copied as they are.
- `SoundFormat.SampleIsScaled`: the code reads a sample of three bytes by a load of four, of which it ignores the last byte; the model reads three.
- DefineCharFont and the half-byte transfer of the LCD driver beyond its two nibbles.
- SetStatus, Rotor, SetPixel from outside, insert mode and the palette of the screen: they bypass the interpreter or do nothing.
- Format with its variable arguments and the floating-point ftoa.
- `StringBuffer.CString.Replace`: a default-constructed CString has no buffer; Replace would read through a null pointer there.
- `Numbers.NumberRoundTrip`: numbers beyond the machine word are outside of the law; _strtoul does not see every overflow (`Numbers.OverflowIsSeenIff` says which).
- emmc, the Linux driver layer, VC4, USB, network protocols, file system and graphics libraries.
