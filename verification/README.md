# Verification of ustack

ustack is a load balancer in user space. Its n processes share one buffer that holds the packets of all of them, an
n by n matrix of lock-free queues, and the rings of the network adapters. This project models its core and the parts
of the igb driver and of the vendored bitmap library that it uses, and proves what they keep.

- **Lists.** `Common`, `LinkedList`: the intrusive lists on which every other module works as on sequences.
- **Packets.** `Cyclic`, `LfQueue`, `SharedQueue`: one lock-free queue as a state machine whose steps are single
  shared reads and writes, and as the C loops running between arbitrary steps of the other side. `NicRing`,
  `DriverRing`: one adapter ring, likewise, with the device setting DD on armed descriptors at any time. `Places`,
  `MainLoop`, `MainLoopProofs`, `WholeSystem`: n processes in `main_loop`, interleaved at every loop turn and every
  shared access of a queue; the main result is `WholeSystem.NoPacketLostOrDuplicated`. `Turn`: what a process gets done
  in one turn of its loop, with `Turn.EveryTurnServesAll`. `Layout`: the carving of the shared buffer and of the local
  ports.
- **Connections.** `PortRange`, `Timer`, `Connection`, `ConnectionRuns`: port buffers, the timer wheel, the two hash
  tables, and runs of packets and timeouts over all of them.
- **Bitmaps.** `Words`, `BitmapShift`, `BitmapHex`, `BitmapList`, `BitmapRemap`, `BitmapRegion`: 64-bit words, shifts,
  the two printers and parsers, remapping, and the region allocator.
- **igb.** `IgbTxRing`, `Vlvf`: the transmit ring with mapping errors, and the VLAN filter tables.
- **Arithmetic.** `Checksum`, `Rss`.

Objects that the source updates in place are classes or arrays here; each method states its result or new state
through a specification function, and the lemmas are about that function.

`dafny verify dfyconfig.toml` checks everything. C types are modelled as follows: `unsigned long` words and device
registers are bit-vectors; indices, counts and addresses are natural numbers, with `%` written out where the source
truncates.

Places where the code differs from its comments or from its evident intent are modelled as the code has them:

- connection.c:125 and connection.c:134 assign the protocol where a comparison is meant. `Connection.Walk` keeps the
  assignment. `Connection.LookupExactIffClean` says exactly when a lookup still does what it is for,
  `ConnectionRuns.TablesAgreeIff` exactly when a run leaves tables, timers and ports in agreement, and
  `ConnectionRuns.UdpAfterTcpHarms` gives a run of two packets that does not.
  `ConnectionRuns.TablesAgreeAsMeant` is about the comparison that is meant and needs no condition.
- timer.c:87 clips negative seconds but not 0, which waits for a whole turn of the wheel
  (`Timer.HandledExactlyOnTime`). A wheel of 0 seconds divides by zero and is excluded.
- bitmap.c:546-549 promises the length of the whole text; the code returns what fits (`BitmapList.Print`,
  `BitmapList.LengthTooShort`). bitmap.c parses no empty list, so an empty bitmap does not survive the list format.
- bitmap.c:137 and bitmap.c:178 clear words outside the bitmap when it is shifted by more words than it has
  (`BitmapShift.ClearsInsideIff`).
- checksum.c:117 and checksum.c:153 read the protocol where IPv4 has it, also for IPv6, where the second byte of the
  source address is (`Checksum.ChecksumTcp`).
- igb_main.c:4924 and igb_main.c:4942 count a VLAN id of a VF also when the pool has not changed
  (`Vlvf.CounterExactIff`).
- dispatch.c:45-50 leads ports behind the last slice to a process that does not exist (`Layout.PortInRange`).
- The comment in types/port_range.h says host order; port_range.c:80 stores network order.
- igb_vlvf_set returns 0 also when the table is full and the id is dropped.
- The fields of structures are taken from uspace/include/types; sizes of structures and of pages are parameters.

## Model

| member | source | states |
|---|---|---|
| LfQueue.EveryRunIsFifo | uspace/src/lf_queue.c:147-222 | Under every interleaving of sends, single accesses of one producer and single accesses of one consumer, received, in-ring and staged packets together are exactly what was sent, in order; at most size-1 slots are used; neither CAS can fail |
| LfQueue.ProducerStepKeeps | uspace/src/lf_queue.c:187-222 | One shared access of the producer never reaches exit(-1), never overwrites a slot that is still to be read, and moves packets only from the front of the staging list to the back of the ring |
| LfQueue.ConsumerStepKeeps | uspace/src/lf_queue.c:147-177 | One shared access of the consumer never reaches exit(-1) and delivers only the oldest packet of the ring |
| LfQueue.TailAdvances | uspace/src/lf_queue.c:211-219 | Publishing never takes back what was published before |
| SharedQueue.LfQueueObject.constructor | uspace/src/lf_queue.c:82-93 | A new queue is empty whatever its memory held |
| SharedQueue.LfQueueObject.SendPacket | uspace/src/lf_queue.c:253-262 | A packet goes to the end of the staging list; nothing else changes |
| SharedQueue.LfQueueObject.FillOne | uspace/src/lf_queue.c:199-209 | One turn of the filling loop is one producer access of the protocol, between any accesses of the consumer |
| SharedQueue.LfQueueObject.Fill | uspace/src/lf_queue.c:199-221 | The loop takes exactly as many packets from the front of the staging list as there was room when the head was read, or all of them |
| SharedQueue.LfQueueObject.Put | uspace/src/lf_queue.c:187-222 | The same for the whole function with the consumer running between any two accesses; the CAS branch is dead |
| SharedQueue.LfQueueObject.Drain | uspace/src/lf_queue.c:154-164 | The loop receives exactly the packets between the head and the tail it has read |
| SharedQueue.LfQueueObject.Get | uspace/src/lf_queue.c:147-177 | At least all packets published at entry are received, in order, and the head moves over just these; the CAS branch is dead |
| LfQueue.Run | uspace/src/lf_queue.c:147-287 | The invariant behind this holds after any run, for queues of any size |
| NicRing.DrainKeeps | uspace/src/driver.c:341-387 | A finished descriptor always has its packet, and taking it removes the oldest packet of the window; the tx loop leaves one behind |
| NicRing.DrainFindsPacket | uspace/src/driver.c:546-595 | The NULL branch with exit(-1) is unreachable even though the guard also scans an empty tx ring |
| NicRing.FillKeeps | uspace/src/driver.c:259-309 | Putting a packet on a ring appends it to the window and uses no slot that is still taken |
| NicRing.FillEndKeeps | uspace/src/driver.c:302-308 | Writing the tail register keeps every packet where it is; afterwards the device holds or has finished the descriptor of every packet, and holds those filled last |
| NicRing.DrainEndKeeps | uspace/src/driver.c:383-386 | Writing the head back keeps the window |
| NicRing.FinishKeeps | uspace/src/driver.c:348-349 | The device can finish any of its descriptors at any time without moving a packet |
| NicRing.SlotsHold | uspace/src/driver.c:259-309 | In every valid ring the k-th oldest packet is k slots behind the front, every other slot is NULL, and at most size-1 slots are used |
| NicRing.GuardsAre | uspace/src/driver.c:285-595 | What the guards of the four loops mean for the packets in the ring: one slot stays empty, and the last sent packet stays in |
| NicRing.Run | uspace/src/driver.c:259-595 | Over any interleaving of filling, draining and the device: packets come out in order, each once; buffer[i] is non-NULL exactly inside the window; exactly the descriptors from the head to the published tail are held by the device or finished |
| DriverRing.ArmingClearsDone | uspace/src/driver.c:452-458 | The olinfo word has the length of the payload, at least 60, from bit 14 on and nothing below, so not the bit that means finished |
| DriverRing.RingObject.constructor | uspace/src/driver.c:66-89 | A created ring is empty |
| DriverRing.RingObject.ArmSlot | uspace/src/driver.c:259-274 | Packet, address and status word go to one slot, which the device does not hold, and to no other; the window grows by that packet |
| DriverRing.RingObject.AllocRxBuffers | uspace/src/driver.c:285-309 | Exactly as many packets as there is room for, or all of them, go from the front of the pool to the slots behind the tail; the device holds all these descriptors with their addresses and cleared status words, and tail and tail register are behind them |
| DriverRing.RingObject.Send | uspace/src/driver.c:464-487 | The same for the tx ring and its pool; the status words have the lengths |
| DriverRing.RingObject.DrainSlot | uspace/src/driver.c:341-365 | The packet of a finished descriptor is the oldest one in the ring; every other status word stays |
| DriverRing.RingObject.Recv | uspace/src/driver.c:367-387 | What is received followed by what stays is what was there, and everything finished at entry is received |
| DriverRing.RingObject.ReclaimTx | uspace/src/driver.c:546-595 | Sent packets come back in order and once; a non-empty ring keeps its last packet; everything else finished at entry comes back |
| DriverRing.RingObject.FinishFilling | uspace/src/driver.c:302-308 | Tail and tail register are so many slots further as were filled, and the device holds all of these |
| DriverRing.RingObject.FinishDraining | uspace/src/driver.c:383-386 | The head moves to the first slot that was not taken |
| Places.MoveOne | uspace/include/common/list.h:72-99 | Unlinking a packet from one list and linking it into another keeps every packet in exactly one container |
| Places.MoveAll | uspace/include/common/list.h:321-328 | Splicing a whole list onto another does too |
| Places.ExactlyOnePosition | uspace/src/main.c:179-214 | What the invariant means: each packet is at one position of one container and at no other |
| MainLoopProofs.FindRouteKeeps | uspace/src/main.c:174-175 | Start of the loop; the ARP packets of rt_find_server_route: keeps every packet in exactly one place and every packet in a container where its id and state belong |
| MainLoopProofs.AllocRxKeeps | uspace/src/driver.c:312-330 | driver_alloc_rx_buffer: keeps every packet in exactly one place and every packet in a container where its id and state belong |
| MainLoopProofs.RecvRxKeeps | uspace/src/driver.c:389-430 | driver_recv: keeps every packet in exactly one place and every packet in a container where its id and state belong |
| MainLoopProofs.SpliceRxKeeps | uspace/src/driver.c:396-412 | driver_get_received_packets: keeps every packet in exactly one place and every packet in a container where its id and state belong |
| MainLoopProofs.FilterKeeps | uspace/src/main.c:187-188 | packet_init_and_filter: keeps every packet in exactly one place and every packet in a container where its id and state belong |
| MainLoopProofs.DispatchKeeps | uspace/src/dispatch.c:116-136 | The first half of dispatch_packet: keeps every packet in exactly one place and every packet in a container where its id and state belong |
| MainLoopProofs.FlushKeeps | uspace/src/lf_queue.c:265-287 | lfq_send_flush, one shared access at a time: keeps every packet in exactly one place and every packet in a container where its id and state belong |
| MainLoopProofs.RecvQueueKeeps | uspace/src/lf_queue.c:230-249 | lfq_recv, one shared access at a time: keeps every packet in exactly one place and every packet in a container where its id and state belong |
| MainLoopProofs.ClassifyKeeps | uspace/src/dispatch.c:140-165 | The second half of dispatch_packet; the END and default branch with exit(-1) is never taken: keeps every packet in exactly one place and every packet in a container where its id and state belong |
| MainLoopProofs.ProcessKeeps | uspace/src/process.c:328-344 | process_packets with any verdict for each packet: keeps every packet in exactly one place and every packet in a container where its id and state belong |
| MainLoopProofs.ReclaimTxKeeps | uspace/src/driver.c:605-614 | driver_reclaim_tx_buffer: keeps every packet in exactly one place and every packet in a container where its id and state belong |
| MainLoopProofs.ReturnKeeps | uspace/src/dispatch.c:168-190 | dispatch_reclaim; a packet is only returned to its owner: keeps every packet in exactly one place and every packet in a container where its id and state belong |
| MainLoopProofs.PutKeeps | uspace/include/packet.h:117-137 | packet_zone_reclaim; only own packets reach the free pool: keeps every packet in exactly one place and every packet in a container where its id and state belong |
| MainLoopProofs.SendTxKeeps | uspace/src/driver.c:490-510 | driver_send: keeps every packet in exactly one place and every packet in a container where its id and state belong |
| WholeSystem.InitInv | uspace/src/main.c:74-102 | The invariant holds when all processes have filled their zones |
| WholeSystem.Run | uspace/src/main.c:179-214 | The invariant holds after any interleaving of n processes and their devices |
| WholeSystem.NoPacketLostOrDuplicated | uspace/src/main.c:179-214 | In every reachable state each packet is at exactly one position of one container; own containers hold own packets; a packet in a queue is DISPATCH coming from its owner or RECLAIM going to its owner; no exit(-1) is ever taken; a process at the head of its loop has no packet of an earlier turn left in its four lists or its rx pools |
| Turn.EveryTurnServesAll | uspace/src/main.c:179-214 | Over every run of the system: between two visits to the head of the loop a process begins and ends filling and draining every rx ring, reclaiming and filling every tx ring, receiving from every other process and flushing the queue to it |
| Turn.StepFollows | uspace/src/main.c:179-214 | No step leaves out or goes back to a call: each goes on in its loop or to the next call in the order of main_loop |
| Turn.FillRxGoes | uspace/src/driver.c:285-309 | Filling an rx ring goes on, one packet from the front of the free pool at a time, until that is empty or one slot is left |
| Turn.SendGoes | uspace/src/driver.c:464-487 | Filling a tx ring goes on likewise until the pool of its adapter is empty or one slot is left |
| Turn.DrainRxGoes | uspace/src/driver.c:367-387 | Draining an rx ring goes on, oldest packet first, until it is empty or its oldest descriptor is not finished |
| Turn.ReclaimGoes | uspace/src/driver.c:574-595 | Draining a tx ring goes on likewise until one packet is left or its oldest descriptor is not finished |
| Turn.ReceivedGoes | uspace/src/dispatch.c:116-136 | A received packet is dropped to the free list, staged as DISPATCH for the process its flow belongs to, or kept when that is this one |
| Turn.DispatchedGoes | uspace/src/dispatch.c:140-165 | A packet from another process is RECLAIM and free again, or DISPATCH and processed |
| Turn.ProcessedGoes | uspace/src/process.c:328-344 | A stolen packet goes to the tx pool of its adapter, another one to the free list or, if it was dispatched here, to those to be returned |
| Turn.ReclaimedGoes | uspace/src/dispatch.c:168-190 | A packet to be returned is staged as RECLAIM for exactly the process it was allotted to; own ones and dropped ones reach the free pool |
| LinkedList.ListHead.constructor | uspace/include/common/list.h:28-32 | An initialised head is an empty list |
| LinkedList.Empty | uspace/include/common/list.h:172-175 | True exactly for the empty list |
| LinkedList.IsLast | uspace/include/common/list.h:162-166 | True exactly for the last entry |
| LinkedList.IsSingular | uspace/include/common/list.h:214-217 | True exactly for a list of one entry |
| LinkedList.Insert | uspace/include/common/list.h:40-48 | Four pointer writes put an entry into the circle between two neighbours |
| LinkedList.Add | uspace/include/common/list.h:58-61 | The entry is the first one; the others keep their order |
| LinkedList.AddTail | uspace/include/common/list.h:72-75 | The entry is the last one; the others keep their order |
| LinkedList.Del | uspace/include/common/list.h:96-99 | The entry is in the list no more; the others keep their order |
| LinkedList.MoveTail | uspace/include/common/list.h:150-155 | The entry leaves one list and is the last of another |
| LinkedList.Splice | uspace/include/common/list.h:259-271 | Four pointer writes put a whole chain into the circle |
| LinkedList.SpliceTailInit | uspace/include/common/list.h:321-328 | All entries go behind those of the other list in order, and the first list is empty |
| Layout.LfqModuleInit | uspace/src/lf_queue.c:107-135 | send_queue[q] of process p is recv_queue[p] of process q |
| Layout.QueueSizeLeast | uspace/src/lf_queue.c:42-52 | A queue takes the least multiple of 64 bytes for its header and descriptors |
| Layout.ModuleSizeLeast | uspace/src/lf_queue.c:68-78 | All queues together take the least number of pages |
| Layout.ZoneCountMost | uspace/src/packet.c:108-125 | Every zone has as many packets of 2048 bytes as all zones can have |
| Layout.OneWriterOneReader | uspace/src/lf_queue.c:82-93 | Two roles share a queue address only if they are the same sender and the same receiver |
| Layout.PoolAddPackets | uspace/src/packet.c:67-133 | Each packet of a zone is set up at its own slot with the physical address of that slot and its owner |
| Layout.PhysInverse | uspace/include/packet.h:232-235 | A physical address leads every process to the same packet, whatever address it has mapped the buffer at |
| Layout.PieceInside | uspace/src/main.c:66-74 | Every queue lies inside the part used by the queues, every packet slot behind it, all inside the buffer |
| Layout.PiecesDisjoint | uspace/src/main.c:66-74 | No two queues or packet slots of any zones share a byte |
| Layout.PortsComeBack | uspace/src/dispatch.c:24-50 | The port ranges of the processes fit into 16 bits, and a port leads to process id exactly if it is in its range |
| Layout.RangesTile | uspace/src/dispatch.c:24-37 | The ranges start at 1024 and follow each other without a gap; fewer than n ports below 65535 are in none |
| Layout.PortInRange | uspace/src/dispatch.c:45-50 | A port leads to a process that exists exactly if it is above the base less one range and below the end of the last range |
| Layout.NoSuchProcess | uspace/src/dispatch.c:45-50 | With two processes ports 65534 and 65535 lead to a third one |
| Words.SetBit | uspace/tmp/bitmap.c:610-613 | set_bit sets one bit and keeps all others |
| BitmapShift.Right | uspace/tmp/bitmap.c:109-139 | For every amount and size, also in place: equals the bit-level shift, bits past the size cleared; the words in front of the bitmap that the memset clears for too large an amount, and no others, change |
| BitmapShift.ClearsInsideIff | uspace/tmp/bitmap.c:137-138 | The memset stays inside the bitmap, in both directions, exactly for amounts of no more whole words than it has |
| BitmapShift.ClearsOutside | uspace/tmp/bitmap.c:178-179 | One word shifted by 128: the memset clears the word in front of it, or the word behind it |
| BitmapShift.Left | uspace/tmp/bitmap.c:154-180 | For every amount and size, also in place: equals the bit-level shift, bits past the size cleared; the words behind the bitmap that the memset clears for too large an amount, and no others, change |
| BitmapShift.RightWordBit | uspace/tmp/bitmap.c:115-136 | Which bit each bit of a word written by the loop comes from |
| BitmapShift.LeftWordBit | uspace/tmp/bitmap.c:159-177 | Which bit each bit of a word written by the loop comes from |
| BitmapShift.LeftThenRight | uspace/tmp/bitmap.c:109-180 | Left then right by s drops exactly the top s bits |
| BitmapShift.RightThenLeft | uspace/tmp/bitmap.c:109-180 | Right then left by s drops exactly the bottom s bits |
| BitmapShift.LeftTwice | uspace/tmp/bitmap.c:154-180 | Two shifts are one shift by the sum |
| BitmapHex.Print | uspace/tmp/bitmap.c:375-401 | The buffer holds the full text, cut where the buffer ends, and the length of what it holds comes back |
| BitmapHex.TextIs | uspace/tmp/bitmap.c:375-401 | That text has one lower-case digit for every four bits, the lowest last, and a comma before every eight digits from the right; bits from nmaskbits on are not printed |
| BitmapHex.ReadAny | uspace/tmp/bitmap.c:431-467 | Up to eight digits, capital ones and leading zeros too, are read as their value |
| BitmapHex.EmptyChunk | uspace/tmp/bitmap.c:472-473 | EINVAL if a chunk has no digit, after any chunks |
| BitmapHex.BadCharacter | uspace/tmp/bitmap.c:458-459 | EINVAL for any character but digits, spaces, commas and NUL |
| BitmapHex.SpaceInside | uspace/tmp/bitmap.c:443-452 | EINVAL for anything but NUL behind a space that follows a digit |
| BitmapHex.NinthDigit | uspace/tmp/bitmap.c:461-467 | EOVERFLOW for a ninth digit if the first is not 0 |
| BitmapHex.Unreadable | uspace/tmp/bitmap.c:434-439 | EFAULT where the bytes that can be read end in a chunk |
| BitmapHex.TooManyBits | uspace/tmp/bitmap.c:481-482 | EOVERFLOW if a bit at nmaskbits or above is set |
| BitmapHex.Parse | uspace/tmp/bitmap.c:419-486 | Return value and, on success, all bits are those of the text, whatever the bitmap held before; EFAULT exactly when a byte that cannot be read is reached first |
| BitmapHex.TakeChunk | uspace/tmp/bitmap.c:474-478 | Shifting by a chunk and or-ing the next one in spells the longer list of chunks |
| BitmapHex.ReadDigits | uspace/tmp/bitmap.c:431-467 | Digits that printf wrote are read back as the value, and never overflow a chunk |
| BitmapHex.RoundTrip | uspace/tmp/bitmap.c:375-486 | For every bitmap of at least one bit, parsing the printed text succeeds and gives the same bits, also with leading or only zero chunks, and whether it ends with the buffer or with a NUL in front of unreadable bytes |
| BitmapList.Emit | uspace/tmp/bitmap.c:522-531 | A range is appended with a comma exactly if something was printed before; what comes back is the length in the buffer |
| BitmapList.Print | uspace/tmp/bitmap.c:550-573 | The text lists exactly the maximal runs of set bits, in order, cut where the buffer ends; the length of the whole text comes back exactly if that fits, and otherwise less |
| BitmapList.DecimalIs | uspace/tmp/bitmap.c:522-531 | A printed number has the digits of its value and no leading zero |
| BitmapList.LengthTooShort | uspace/tmp/bitmap.c:546-549 | The promise to return the length of the whole text fails for bit 0 alone and a buffer of one byte |
| BitmapList.Parse | uspace/tmp/bitmap.c:591-618 | Return value and, on success, all bits are those of the ranges in the text |
| BitmapList.NumberItem | uspace/tmp/bitmap.c:597-616 | A number alone, cut to 32 bits, is a range of that one bit, or ERANGE from nmaskbits on |
| BitmapList.RangeItem | uspace/tmp/bitmap.c:597-616 | Of two numbers: EINVAL if the first is larger, else ERANGE if the second is too large, else the range |
| BitmapList.NoNumber | uspace/tmp/bitmap.c:597-603 | EINVAL where a number is missing, at the start or behind a minus |
| BitmapList.RunsCover | uspace/tmp/bitmap.c:560-571 | The runs cover exactly the set bits |
| BitmapList.RunsProper | uspace/tmp/bitmap.c:560-571 | Runs are not empty, in range, in order, and no two touch |
| BitmapList.ReadRange | uspace/tmp/bitmap.c:597-608 | A printed range is read back as that range |
| BitmapList.RoundTrip | uspace/tmp/bitmap.c:522-618 | Parsing a printed bitmap succeeds exactly if some bit is set, and then gives the same bits; the empty one is refused with EINVAL |
| BitmapRemap.BitmapWeight | uspace/tmp/bitmap.c:260-272 | Counting word by word with a masked last word gives the number of set bits below the size |
| BitmapRemap.PosToOrdLoop | uspace/tmp/bitmap.c:639-655 | The number of set bits below a set bit, -1 elsewhere; BUG_ON is unreachable |
| BitmapRemap.OrdToPosLoop | uspace/tmp/bitmap.c:675-690 | The position of the set bit with that ordinal, 0 if there is none |
| BitmapRemap.OrdersInverse | uspace/tmp/bitmap.c:639-691 | Position to ordinal and ordinal to position undo each other on set bits |
| BitmapRemap.BitRemapLoop | uspace/tmp/bitmap.c:773-782 | The result is that of the single-bit map |
| BitmapRemap.BitRemapIs | uspace/tmp/bitmap.c:773-782 | That map takes a set bit of old to the set bit of new that has as many set bits below it, modulo their number; bits outside old stay, and all if new is empty |
| BitmapRemap.Remap | uspace/tmp/bitmap.c:725-744 | The result is exactly the image of src under the single-bit map; nothing changes when dst is src; when dst is old or new, src is copied |
| BitmapRemap.CopyIsImageIff | uspace/tmp/bitmap.c:725-744 | Such a copy is the image exactly if every bit of src is the image of one |
| BitmapRemap.BitThereAndBack | uspace/tmp/bitmap.c:773-782 | Between sets of equal weight the map is undone by the map the other way |
| BitmapRemap.ThereAndBack | uspace/tmp/bitmap.c:725-744 | For equal weights and src inside old, remapping there and back is the identity |
| BitmapRegion.RegMask | uspace/tmp/bitmap.c:986-992 | The mask built without overflowing shift is the bits of the region in one word |
| BitmapRegion.TouchedIffFits | uspace/tmp/bitmap.c:963-992 | The words and the mask are exactly the bits of the region if and only if it lies in one word or starts with one; every aligned region does |
| BitmapRegion.InRegion | uspace/tmp/bitmap.c:966-992 | A bit is in an aligned region exactly if its word is spanned and the mask selects it |
| BitmapRegion.DoRegOp | uspace/tmp/bitmap.c:963-1014 | At any position, test, set and clear do that to exactly the masked bits of the spanned words, which TouchedIffFits relates to the region |
| BitmapRegion.FindFreeRegion | uspace/tmp/bitmap.c:1029-1040 | Returns the lowest free aligned region and takes it; fails only if there is none, changing nothing |
| BitmapRegion.AllocateRegion | uspace/tmp/bitmap.c:1071-1077 | Takes these bits exactly if all were free, and nothing otherwise |
| BitmapRegion.ReleaseRegion | uspace/tmp/bitmap.c:1054-1057 | Clears these bits and no others |
| BitmapRegion.RegionsStayDisjoint | uspace/tmp/bitmap.c:963-1078 | Over any run, live regions are aligned, pairwise disjoint, and the bitmap is the initial one plus their union |
| Timer.Clock.constructor | uspace/src/timer.c:44-69 | A new wheel has no timers and has ticked 0 times; negative seconds stand for the default |
| Timer.Clock.Add | uspace/src/timer.c:81-95 | The timer is due 1 to s seconds later as asked, after 1 for a negative argument, after a whole turn for 0 and for more than the wheel has; returns the clipped argument |
| Timer.Clock.Del | uspace/src/timer.c:100-107 | The timer is no longer due; others are |
| Timer.Clock.HandleSlot | uspace/src/timer.c:135-138 | Handles exactly the timers due at this tick, though their handlers delete them during the walk |
| Timer.Clock.Expire | uspace/src/timer.c:114-152 | Handles exactly the timers due up to the tick it reaches, each at its tick and in order; the tick count is the number of whole periods strictly before the elapsed time |
| Timer.HandledExactlyOnTime | uspace/src/timer.c:81-152 | In any run a timer that is added with s seconds and not deleted is handled exactly once, at exactly the s-th tick from then (the first for negative s, a whole turn later for 0 and for more than the wheel has) |
| Timer.TicksDependOnTimeOnly | uspace/src/timer.c:114-152 | No pattern of late calls changes how many ticks have passed |
| PortRange.PortRange.constructor | uspace/src/port_range.c:54-62 | A new range is empty and has one slot more than ports |
| PortRange.PortRange.GetPort1 | uspace/src/port_range.c:21-33 | Hands out the oldest free port, 0 if none |
| PortRange.PortRange.PutPort | uspace/src/port_range.c:39-49 | A port given back is the newest free port; 0 is ignored |
| PortRange.PortRange.GetPort2 | uspace/src/port_range.c:93-115 | Hands out the given port exactly if it is reserved and free |
| PortRange.GetThisOrder | uspace/src/port_range.c:93-115 | It is handed out exactly if it is at most 1023 in host order and free; the oldest free port takes its place and all others keep their order |
| PortRange.PortRange.GetPort | uspace/src/port_range.c:126-133 | 0 asks for any port, anything else for that port |
| PortRange.PortRange.Init | uspace/src/port_range.c:72-82 | Adds all ports from low to high in network order |
| PortRange.InitialPorts | uspace/src/port_range.c:72-82 | These are all different, none is 0, and none from the range is missing |
| PortRange.PortsInOrder | uspace/src/port_range.c:72-82 | They go up, each with its bytes swapped |
| PortRange.RunConserves | uspace/src/port_range.c:21-133 | Over any run, free and held ports are all different and together the whole initial range |
| PortRange.OldestFirst | uspace/src/port_range.c:21-49 | Over any run of takes of any port and returns, the ports handed out and then those free are the ones that were free and then those returned, in order |
| PortRange.RoomForHeld | uspace/src/port_range.c:39-49 | There is room for every held port, so giving it back overwrites nothing |
| Connection.LookupExactIffClean | uspace/src/connection.c:122-193 | A lookup returns the connection with the key and changes nothing exactly if the first connection in the bucket with that address has that protocol |
| Connection.WalkTakesOver | uspace/src/connection.c:122-193 | For every bucket and key: a packet gets the first connection with its address, whatever its protocol, and turns it into one of its own; with protocol 0 it gets none and all with its address become 0 |
| Connection.FirstIs | uspace/src/connection.c:172-193 | That first connection is the one in front of which none in the bucket has the address |
| Connection.TakeOverKeepsIffHarmless | uspace/src/connection.c:125-134 | For every state and every set of connections taken over: tables, timers and ports still agree exactly if each stays in its buckets and its port pool, and its client key stays the only one |
| Connection.FreeTakenOver | uspace/src/connection.c:332-345 | A connection that is taken over and freed at once does no harm exactly if it is transparent or its port pool stays the same |
| ConnectionRuns.SeparatedIsClean | uspace/src/connection.c:122-193 | A condition on the hash that makes a lookup clean |
| ConnectionRuns.CleanDoesNoHarm | uspace/src/connection.c:122-193 | A clean lookup does no harm |
| Connection.CreateKeeps | uspace/src/connection.c:272-329 | Create enters both tables, the timer and a port, or on every error nothing; the invariant is kept |
| Connection.CreateGives | uspace/src/connection.c:272-329 | There is a connection exactly if memory, server and route and, with full NAT, a local address with a free port are there; it has the address and protocol of the packet, the oldest free port, and 60 seconds or a whole turn of the wheel |
| Connection.FreeKeeps | uspace/src/connection.c:332-345 | Free takes the connection out of all of them and gives the port back; the invariant is kept |
| Connection.FreeGives | uspace/src/connection.c:332-345 | Exactly this connection and its timer go, and its port goes behind the free ones of its range; nothing else changes |
| ConnectionRuns.ExpireKeeps | uspace/src/connection.c:196-205 | So does every expiring timer; exactly the due connections go |
| ConnectionRuns.EventKeepsIff | uspace/src/process.c:232-294 | For every state and every packet from a client or a server, TCP close or timeout: the invariant is kept exactly if the condition on the lookup holds, which is about the state before |
| ConnectionRuns.MeantEventKeeps | uspace/src/connection.c:122-139 | With the comparison that is meant, every event keeps the invariant |
| ConnectionRuns.FoundByKeys | uspace/src/connection.c:172-259 | With it, a live connection is found by its client key and, with full NAT, by its own address |
| ConnectionRuns.PacketGets | uspace/src/process.c:232-294 | With it, a packet of a client gets the connection with its key and changes nothing, or a new one with its key exactly if connection_create can make one; a TCP close ends just this one |
| Connection.SelfKeysUnique | uspace/src/connection.c:234-259 | No two live full-NAT connections share local address, port and protocol |
| ConnectionRuns.TablesAgreeIff | uspace/src/connection.c:122-345 | From empty tables, over any run of lookups, creates, closes and timeouts of the code as it is: each live connection is once in its client bucket, its self bucket and its timer, client keys are unique and ports conserved, in every state, exactly if no lookup on the way does harm |
| ConnectionRuns.TablesAgreeAsMeant | uspace/src/connection.c:122-345 | With the comparison that is meant, this holds over every run |
| ConnectionRuns.UdpAfterTcpHarms | uspace/src/connection.c:122-139 | From empty tables, a TCP connection and then a UDP packet from the same port in the same bucket: they agree no more |
| Connection.HasRoom | uspace/src/port_range.c:39-49 | While they agree, the range of a live connection has room for its port |
| Connection.ConnectionTables.constructor | uspace/src/connection.c:352-370 | New tables have no connection in any bucket |
| Connection.ConnectionTables.Lookup | uspace/src/connection.c:172-193 | Result and connections afterwards are those of the walk with the assignment in the comparison |
| Connection.IndexedLinked | uspace/src/connection.c:141-153 | A new entry comes first in the bucket of its key and is in no other; all others stay where they are, in order |
| Connection.IndexedUnlinked | uspace/src/connection.c:156-162 | A removed entry is in no bucket; all others stay where they are, in order |
| Connection.ConnectionTables.Connect | uspace/src/connection.c:272-329 | On the tables, the timer wheel and the port buffers: on success exactly one new connection with this key, the oldest free port, both buckets and a timer; on any failure nothing |
| Connection.ConnectionTables.Disconnect | uspace/src/connection.c:332-345 | The port goes to the end of the range of the protocol the connection has now; timer and both buckets are left |
| IgbTxRing.WordsNotDone | modules/igb/igb_main.c:3940-3967 | No word the driver writes into a descriptor has the bit DD |
| IgbTxRing.ContextWordFields | modules/igb/igb_main.c:3874-3882 | For values that fit: bits 16 to 31 are the segment size, 8 to 15 the header length, 4 to 7 the ring, 0 to 3 clear |
| IgbTxRing.OlInfoFields | modules/igb/igb_main.c:4078-4099 | For values that fit: bits 14 to 31 are the payload length, 8 to 13 the checksum options, 4 to 7 the ring, 0 to 3 clear |
| IgbTxRing.WordsHaveFields | modules/igb/igb_main.c:3874-4099 | Which of these each kind of packet gets: with and without segmentation, IPv4, partial checksum, VLAN and a ring of an 82575 |
| IgbTxRing.TxRing.constructor | modules/igb/igb_main.c:2474-2510 | A ring that has just been set up has nothing in flight and no mapping |
| IgbTxRing.TxRing.UnmapAndFree | modules/igb/igb_main.c:3077-3102 | Unmaps with the call that fits the mapping, frees the skb if there is one, and leaves a vacant buffer |
| IgbTxRing.TxRing.WriteContext | modules/igb/igb_main.c:3817-3975 | The context descriptor takes one slot that holds no mapping, with the word that is given, or the old one |
| IgbTxRing.TxRing.MapAdv | modules/igb/igb_main.c:3982-4059 | Maps head and fragments in order; at an error at any of them unmaps exactly what was mapped, last first, and leaves the buffers as before |
| IgbTxRing.TxRing.Rollback | modules/igb/igb_main.c:4039-4058 | Unmaps the mappings of the packet from the last to the first and vacates their buffers, no other |
| IgbTxRing.TxRing.QueueAdv | modules/igb/igb_main.c:4061-4126 | The descriptors hold the mapped addresses and lengths and the status word, only the last one is marked, and next_to_use is behind it |
| IgbTxRing.TxRing.Xmit | modules/igb/igb_main.c:4157-4226 | Busy exactly if fewer than nr_frags + 4 descriptors are free; otherwise the packet is handed over whole, from next_to_use on its context descriptor and one descriptor for each piece with address, length and words whose fields are those of the skb, or the skb is freed and ring and mappings are as before; two descriptors stay free |
| IgbTxRing.TxRing.DescUnused | modules/igb/igb.h:242-248 | The number of descriptors outside the window, less one |
| IgbTxRing.TxRing.DeviceDone | modules/igb/igb_main.c:5439-5442 | The device writes back the last descriptor of any packet in flight, also while packets in front of it are cleaned; that packet is done, and nothing else changes |
| IgbTxRing.TxRing.CleanPacket | modules/igb/igb_main.c:5441-5459 | One turn, between any writes of the device, frees one whole packet: its mappings in order and its skb once |
| IgbTxRing.TxRing.CleanTxIrq | modules/igb/igb_main.c:5424-5466 | While the device goes on sending: only finished packets are cleaned, in submission order and whole, at least all in front of the first that was unfinished at entry; it stops only at an unfinished packet, never at the descriptor count |
| IgbTxRing.NeverCatches | modules/igb/igb.h:242-248 | next_to_use meets next_to_clean only when nothing is in flight |
| IgbTxRing.RolledBack | modules/igb/igb_main.c:4039-4059 | After a mapping error the live mappings are the ones before |
| Vlvf.AddedWord | modules/igb/igb_main.c:4888-4906 | The written word is enabled, has the id, and its pools are the old ones and the new one |
| Vlvf.RemovedWord | modules/igb/igb_main.c:4928-4937 | Removing a pool keeps the id and all other pools |
| Vlvf.EntryBits | modules/igb/igb_main.c:4888-4906 | Bit 31 of an entry enables it, bits 0 to 11 are its id, bits 12 to 19 its pools |
| Vlvf.Filters.constructor | modules/igb/igb_main.c:4863-4877 | Zeroed registers and counters stand for the empty table |
| Vlvf.Filters.VftaSet | modules/igb/e1000_mac.c:153-173 | The filter bit of this id is as asked and every other one stays |
| Vlvf.FilterBit | modules/igb/e1000_mac.c:153-173 | The bit of id 32 * r + b is bit b of register r |
| Vlvf.Filters.Find | modules/igb/igb_main.c:4876-4881 | Finds the entry of an id exactly if it is in the table |
| Vlvf.Filters.FindFree | modules/igb/igb_main.c:4889-4893 | Finds an entry that is not enabled exactly if there is one |
| Vlvf.Filters.VlvfSet | modules/igb/igb_main.c:4863-4955 | -1 and no change without the table or without VFs; otherwise refines a map from ids to non-empty pool sets; ids are distinct, disabled entries zero, and the filter bit is set exactly for ids in the map; a new id is dropped without an error when the table is full; counter and longest packet of the VF move exactly when an entry was written |
| Vlvf.TableAfter | modules/igb/igb_main.c:4863-4955 | What the map is then: only this VF in this id may differ, it is as asked if the id was there or is added to fewer than 32 |
| Vlvf.CounterExactIff | modules/igb/igb_main.c:4916-4949 | The counter of a VF stays the number of its ids exactly if a call that finds an entry changes its pool: adding twice, or removing what is not there, makes it wrong |
| Vlvf.ResizedBack | modules/igb/igb_main.c:4916-4949 | The last id takes back what the first has added to the longest packet exactly while that stays inside its field |
| Vlvf.ResizedField | modules/igb/igb_main.c:4916-4926 | The low 14 bits change by 4 and all others stay, while that fits |
| Vlvf.LongestKept | modules/igb/igb_main.c:4916-4949 | While the counter of a VF does not wrap, its register is what it was plus 4 exactly as long as the VF has an id |
| Vlvf.RoomBelow32 | modules/igb/igb_main.c:4889-4896 | That is exactly when 32 ids are there |
| Checksum.Sum | uspace/src/checksum.c:25-43 | The complement of the folded sum, for even and odd sizes; the fold ends |
| Checksum.FoldIs | uspace/src/checksum.c:38-40 | Folding preserves the remainder by 65535, and only 0 becomes 0 |
| Checksum.SwappedSum | uspace/src/checksum.c:28-37 | Sums in the two byte orders differ by a factor of 256 modulo 65535 (section 2 of RFC 1071) |
| Checksum.SumWithPseudoHeader | uspace/src/checksum.c:55-73 | Adds the words of both addresses, for IPv4 and IPv6, protocol and length to the sum of the segment |
| Checksum.PseudoSum | uspace/src/checksum.c:55-73 | These words are the pseudo header of section 3.1 of RFC 793, or of section 8.1 of RFC 8200 |
| Checksum.Ipv4Segment | uspace/src/checksum.c:137-137 | The length summed is the total length less 20, and what is accepted is the pseudo header with it and these bytes |
| Checksum.Ipv6Segment | uspace/src/checksum.c:145-146 | The length summed is the payload length |
| Checksum.EachByteCounts | uspace/src/checksum.c:28-37 | The sum counts every byte, at even places 256 times, also the last one of an odd length |
| Checksum.ChecksumIpv4 | uspace/src/checksum.c:77-85 | Only the check field changes, and the receiver gets 0xFFFF over the header (section 3.1 of RFC 791) |
| Checksum.ChecksumTcp | uspace/src/checksum.c:123-154 | Only the check field changes. With the total length of an IPv4 header less 20 as the length of the segment, the receiver gets 0xFFFF over pseudo header and segment; with the payload length of an IPv6 header it does exactly if the byte that is read as protocol is the next header |
| Checksum.ChecksumUdp | uspace/src/checksum.c:87-118 | The same for UDP |
| Checksum.Ipv6Refused | uspace/src/checksum.c:142-153 | An IPv6 packet from 1:: with an empty TCP segment gets a checksum that its receiver does not accept |
| Checksum.ZeroCheck | uspace/src/checksum.c:42-42 | When the UDP field becomes 0, which RFC 768 reserves and the code does not replace |
| Checksum.ErrorNoticed | uspace/src/checksum.c:38-42 | Any change of an accepted message goes unnoticed exactly if it changes the sum of the words by a multiple of 65535, and not to 0 |
| Rss.TableIsKey | uspace/src/rss.c:15-113 | Each of the 96 words is the 32 bits of the key from that bit on |
| Rss.TableIsToeplitz | uspace/src/rss.c:130-141 | The table-driven sum is the Toeplitz hash computed bit by bit with a shifting key |
| Rss.Hash | uspace/src/rss.c:117-143 | The loops compute the Toeplitz hash of addresses and ports |
| Rss.InputBytes | uspace/src/rss.c:119-127 | These are the twelve bytes of both addresses and both ports as the packet has them |
| Rss.HashLinear | uspace/src/rss.c:117-143 | The hash is linear over exclusive or in all 96 bits of input |
| Rss.FillReta | modules/igb/igb_main.c:2763-2769 | All 128 entries of the redirection table are those of the formula, for every MAC, with and without VFs |
| Rss.RetaIs | modules/igb/igb_main.c:2737-2769 | The entries in numbers: j modulo the queues, shifted by 0, 2, 3 or 6, with the count above for the 82575 with VFs |
| Rss.IdxIsQueue | uspace/include/rss.h:20-26 | The predicted index is entry number (hash & 0x7f) of the table, the low 7 bits modulo the queues, without VFs, not on the 82575, with as many rings as queues |

## Left out

- Device open, mmap, ioctl, probe, interrupts, PHY, NVM and ethtool code: no semantics that these files show.
- ARP, route, vserver and interface registries, `ukmem.c` and `pagefault.c`: plain inserts and scans; what they answer is a parameter.
- What happens to a packet in `process_packets` beyond accept, drop or stolen; a stolen packet goes to the pool of a tx ring, as in `process_connection`.
- Header rewriting in process.c apart from the checksums.
- `list_cut_position`, `list_replace` and `list_splice`, which nothing here calls.
- Memory fences beyond the order of shared accesses, and processes that start before all of them have initialised their queues.
- The dispatch target of a packet is any process id below n, and its adapter any that exists; `Layout.PortInRange` says when the port calculation gives such an id. Whether all packets of a flow go to one process is not claimed: dispatch.c:86 passes a port in network order.
- No packet is ever marked XMIT in the source; the branch for it is modelled and never taken.
- Packet buffers, descriptors and the words of queues are not laid out byte by byte inside `WholeSystem`; `Layout` covers the addresses.
- The length that the device writes into a received descriptor and ring_recv_rx_buffer copies to the packet, and the command words of descriptors; addresses and status words are modelled.
- That a turn of main_loop ends: lfq_recv ends, but rt_find_server_route waits for free packets, and nothing here bounds the other processes.
- Rings start with zeroed descriptors; the source allocates them so.
- `find_next_bit`, `set_bit`, `hweight_long`, `simple_strtoul`, `scnprintf` and the ctype table are not part of this repository; they are modelled after their use.
- `access_ok` and the copy of user memory; `BitmapHex.Parse` takes how many bytes can be read.
- BitmapShift.Right: dst and src are the same array or do not overlap, and the memory that the memset reaches exists.
- BitmapShift.Left: the same.
- `0UL << 64`, which the C shifts compute when the amount is a multiple of 64: taken as 0.
- BitmapRegion.DoRegOp: the words that it goes over exist; `RegionsStayDisjoint` is about aligned regions, which its callers pass and its comments ask for.
- `bitmap_onto`, `bitmap_fold`, `bitmap_set`, `bitmap_clear` and the set operations word by word: they would add only easy members.
- Timer.Clock.constructor: a wheel of 0 seconds, for which timer.c:90 divides by zero.
- Timers whose handler does not delete them; the only handler here deletes its timer. The clock of the processor does not run backwards.
- Two local addresses with the same IP address; the registry does not exclude them, and `Connection` names an address by its identity.
- Hash quality: the hash is any function, reduced to the table size.
- Connection.ConnectionTables.Disconnect: the range of the port has room, which `Connection.HasRoom` gives while tables and ports agree; otherwise the source overwrites a free port. Connections are named by numbers instead of pointers, and the calls that timer_expire makes are one event of `ConnectionRuns`.
- ConnectionRuns.EventKeepsIff: any TCP packet may close its connection; the four-state close of tcp.c is not modelled.
- `connection_set_route` and the choice of a server: their success is a parameter.
- Checksum.ChecksumTcp: segments shorter than a TCP header, and IP headers with options, which checksum_ipv4 does not cover either.
- Checksum.ChecksumUdp: the same, and IPv6 extension headers, which packet.c does not accept.
- The igb transmit ring runs transmits and cleans one at a time, with the device writing back during cleans and between calls; time stamps, byte counts, hang detection and stopping of the netdev queue are left out. A mapping that succeeds has a handle other than 0, and no piece reaches 65536 bytes, where the code stops the kernel.
- `igb_clear_vf_vfta`; `Vlvf.Filters.VlvfSet` is for ids below 4096 and VFs below 8.
- How the device reads its key registers and applies the hash: `Rss` takes the Toeplitz hash as its definition.
- More than 64511 processes, where the port slice would be 0.
