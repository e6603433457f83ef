# A verified model of the DPDK binding's packet code

This Dafny project models the parts of the repository that hold real algorithms, and proves what
they promise: reference-counted packet buffers, the ring with its peek, memory copying, the
Internet checksum, and the load balancer, forwarding and filtering examples.

`dafny verify dfyconfig.toml` checks everything.

| files | what they model |
|---|---|
| `MbufHeap`, `MbufPacket`, `MbufClone`, `MbufLayout`, `MbufGather`, `MbufLinearize`, `MbufOps`, `MbufFailures` | packet buffers: memory is a map from addresses to headers; `MbufOps.PacketMemory` has the operations as methods that update it, the other files have the specification functions and the lemmas about them, and the inputs on which an operation falls short |
| `PrefreeRace` | the read of a reference counter and its atomic update as separate steps of several cores |
| `RingCopy`, `RingProtocol`, `Ring`, `RingSteps` | the ring: the copies, every interleaving of a producer and a peeking consumer, the calls as methods of a class, and the calls as runs of the protocol |
| `Memcpy` | `rte_memcpy` in its SSE, AVX2 and AVX-512 forms |
| `Checksum` | `checksum` and the macros that set a header checksum |
| `LbBatch`, `LbRuntime`, `LbConfig`, `LbWiring` | the load balancer: batching and flushing, the dispatch, worker and transmit loops, the arguments and their checks, and the rings |
| `IpBlocking`, `L2fwd`, `L2fwdLcores`, `LcoreSearch` | the drop filter and forwarding loop, port pairing, the lcore allocator, the search for the next lcore |
| `Bits`, `Limits`, `Ascending`, `Nic` | shared: machine integers and masks, fixed sizes, filtered ascending lists, NIC bursts |

## How the model reads the source

Machine integers are natural numbers with the wrap-around written out (`% 0x1_0000` and so on).
The repository fixes Crystal 0.24.2, whose arithmetic wraps and whose `to_u32` truncates.
`src/dpdk/patches.cr` removes the bounds check from indexing a static array, so where the source
indexes past one, the model reads or writes what lies behind it. The load balancer's parameters are
zero until they are parsed, as the parser itself relies on.
Addresses in `Memcpy` are indices of one array of bytes. In the mbuf model a header's embedded
buffer lies behind it, and `FromIndirect` recovers its owner by the source's subtraction. What
depends on the world outside (how many mbufs a pool hands out, how much a ring or a NIC has room for,
what arrives) is a parameter; which mbuf a pool gives is chosen freely. The application's own
references to each mbuf are counted in a ghost field, `refs`, which the reference counter is compared
with.

## Where the code does less than it promises

Each has its exact condition and an input on which it happens.

* `rte_pktmbuf_linearize` copies later segments over the buffer of the head. A segment that lies in
  that buffer behind the head's data can be overwritten before its own turn, although no copy
  overlaps its own source. The bytes are kept, whatever they are, exactly when no segment lies where
  one before it is moved to: `MbufLinearize.LinearizeExact`. An inserted segment between two parts
  of one buffer: `MbufFailures.LinearizeLoses`. Re-joining the parts of a split packet is always
  right: `MbufLinearize.RejoinKeeps`.
* It does not ask whether another packet shows that part of the buffer. Such a packet keeps what it
  shows, whatever that is, exactly when it lies outside the places segments are moved to:
  `MbufLinearize.OtherPacketKept`, `MbufLinearize.BystanderExact`, `MbufFailures.OtherPacketLoses`.
* It also compares a signed 32-bit length with the tailroom, so its guard is right exactly when
  `pkt_len - data_len` is below 2^31: `MbufLinearize.GuardExact`, `MbufFailures.GuardTooWeak`.
* `rte_pktmbuf_attach` counts holders in 16 bits: it keeps the invariant exactly when there is room
  for one more: `MbufHeap.AttachOverflow`, `MbufFailures.AttachWraps`.
* The load balancer's parser stores without looking at the size of its arrays. Everything stays
  inside exactly when all numbers are in range and no lcore has more than 16 receive queues or 16
  ports, and there are at most 8 rules: `LbConfig.ParsesExactly`. The address of a ninth rule becomes
  the number of rules: `LbConfig.ParseLpm`.
* `app_check_lpm_table` reads the mask of ports at any 8-bit number. Right behind it lie four
  pointers that are still null, so rules for ports 32 to 63 are refused as they should be; from port
  64 on it reads the rules themselves, their number, and the sizes. It accepts just what it should
  exactly when every rule's port is below 64, or a byte it reads is zero, or a receiving port lacks
  TX (`LbConfig.ChecksExact`, `LbConfig.RuleBytes`); and once it accepts, every port a worker picks
  has a ring exactly when every rule's port is below 32 (`LbWiring.PickedPortHasRing`). The rule
  `1.0.0.0/24=>67` reads the first byte of its own address: `LbWiring.RuleWithoutRing`.
* `app_lcore_io_tx` and `app_lcore_io_tx_flush` index 16 output buffers by a port number below 32,
  and no check forbids ports 16 and up: `LbWiring.TxBuffersFit`, `LbWiring.TxBuffersTooFew`.
* With no worker at all an I/O lcore masks with `0 - 1` and indexes its buffers with the whole byte:
  the worker is in range exactly when there is one (`LbRuntime.WorkerInRange`).
* A load balancer whose number of workers is no power of two never serves some of them:
  `LbRuntime.WorkerReached`, `LbRuntime.WorkerStarves`.
* The lists of ports per lcore in l2fwd have 16 entries and `-q` is not limited. A 17th port is
  stored as the next lcore's count. The allocation does what it is for exactly when `-q` is at most
  16, or at most 16 ports are enabled, or no lcore is, or the lcore after the first enabled one is
  not: `L2fwdLcores.AssignRx`. All 32 ports, two lcores and `-q 20`: `L2fwdLcores.TwentyEach`.
* A stale `userdata` of 1 on a received packet drops it: `IpBlocking.ForwardsTheUnblocked`,
  `IpBlocking.StaleMarkDrops`.
* `rte_lcore_foreach_worker(limit)` yields `limit + 1` lcores, and one for a negative limit:
  `LcoreSearch.ForeachWorker`.

## Model

| member | source | states |
|---|---|---|
| MbufHeap.RunKeepsCounts | src/ext/rte_mbuf.c:770-786 | over every run of alloc, attach, detach, share, free and edits: a live mbuf's counter is its outstanding references plus the mbufs attached to its buffer, and an mbuf is in the pool exactly when it has none |
| MbufHeap.AttachKeepsInv | src/ext/rte_mbuf.c:1300-1336 | attach gives the owner of the target's buffer exactly one more holder and keeps the counting invariant |
| MbufHeap.AttachOverflow | src/ext/rte_mbuf.c:754-759 | the invariant survives an attach if and only if the 16-bit counter has room for one more |
| MbufFailures.AttachWraps | src/ext/rte_mbuf.c:1300-1336 | an owner with 65535 holders: after one more attach its counter is zero and all its holders are still there |
| MbufHeap.DetachKeepsInv | src/ext/rte_mbuf.c:1350-1375 | detach takes exactly one holder from the owner, returns it to its pool when that was the last, and keeps the invariant |
| MbufHeap.FreeSegKeepsInv | src/ext/rte_mbuf.c:1391-1447 | freeing a segment gives back one reference; the mbuf and, if indirect, its owner enter the pool exactly when nobody is left |
| MbufHeap.SoleHolder | src/ext/rte_mbuf.c:1300-1310 | a held mbuf whose counter is one has one reference and nothing attached to its buffer |
| MbufHeap.StepKeepsInv | src/ext/rte_mbuf.c:1219-1225 | every single operation keeps the counting invariant |
| MbufOps.PacketMemory.RawAlloc | src/ext/rte_mbuf.c:851-883 | NULL exactly when the pool has none or hands out none any more; what it gives passes the assertions of MBUF_RAW_ALLOC_CHECK |
| MbufOps.PacketMemory.Alloc | src/ext/rte_mbuf.c:1191-1225 | NULL and no change exactly when the pool has none or hands out none any more; otherwise an mbuf of that pool which, whatever it was used for, is a well-formed packet of no bytes with the headroom in front, and nothing else changes |
| MbufPacket.AllocatedPacket | src/ext/rte_mbuf.c:1191-1225 | a reset mbuf counts one segment and no byte, and has its headroom |
| MbufOps.PacketMemory.RawFree | src/ext/rte_mbuf.c:899-908 | its four requirements are the assertions of the source; every caller meets them |
| MbufOps.PacketMemory.RefcntUpdate | src/ext/rte_mbuf.c:770-786 | both paths add modulo 2^16 and return the new value |
| MbufOps.PacketMemory.Attach | src/ext/rte_mbuf.c:1300-1336 | the field stores amount to the specified attach, through an indirect source too; the attached mbuf is then a packet of one segment with the bytes of the other |
| MbufPacket.AttachedShows | src/ext/rte_mbuf.c:1300-1336 | an attached mbuf is a well-formed packet that shows what the other one shows |
| MbufOps.PacketMemory.Detach | src/ext/rte_mbuf.c:1350-1375 | the field stores amount to the specified detach; the mbuf then has its own whole buffer, no data and its headroom |
| MbufOps.PacketMemory.PrefreeSegAfterRead | src/ext/rte_mbuf.c:1391-1422 | both branches give the same result, whatever the counter was when it was read; the mbuf returned is ready for raw_free |
| MbufOps.PacketMemory.FreeSeg | src/ext/rte_mbuf.c:1441-1447 | prefree and raw_free together are the specified release of one reference |
| MbufOps.PacketMemory.Free | src/ext/rte_mbuf.c:1458-1470 | every segment of the chain gives back exactly one reference, although freed segments leave the chain under the loop |
| MbufOps.PacketMemory.ShareAll | src/ext/rte_mbuf.c:1537-1544 | every segment gains the same number of references, or loses it, and nothing else changes |
| MbufHeap.ShareExact | src/ext/rte_mbuf.c:770-786 | an update of a counter by any amount, up or down, keeps the counting invariant if and only if it leaves the counter above zero and inside 16 bits |
| MbufOps.PacketMemory.Clone | src/ext/rte_mbuf.c:1489-1524 | it succeeds if and only if the pool has and hands out an mbuf for each segment; then it gives a new chain over the same buffers with the same bytes, segment count and pkt_len, each owner's counter raised by its uses, and the source packet unchanged; otherwise NULL, with pools, counters and live headers as before |
| MbufClone.ClonePass | src/ext/rte_mbuf.c:1503-1514 | one pass of the loop extends the clone, through the first pass's link of the head to itself |
| MbufClone.CloneClosed | src/ext/rte_mbuf.c:1515-1517 | the stores after the loop turn the half-linked chain, self-loop included, into a proper one |
| MbufClone.FreeLeft | src/ext/rte_mbuf.c:1496-1514 | at any point of the loop the pool has lost one mbuf for each segment cloned |
| MbufPacket.ClonedBytes | src/ext/rte_mbuf.c:1489-1524 | a clone shows the bytes of its source |
| MbufPacket.CloneThenFree | src/ext/rte_mbuf.c:1458-1524 | freeing a clone gives back pool contents and counters exactly as before the clone |
| MbufPacket.FreeReached | src/ext/rte_mbuf.c:1458-1470 | while a chain is freed the next segment is still held and still links on |
| MbufOps.PacketMemory.LastSeg | src/ext/rte_mbuf.c:1583-1589 | the last segment of the chain |
| MbufOps.PacketMemory.Prepend | src/ext/rte_mbuf.c:1685-1700 | NULL and no change, or the packet stays well formed and its bytes follow len new ones |
| MbufOps.PacketMemory.Adj | src/ext/rte_mbuf.c:1746-1759 | NULL and no change, or the packet stays well formed without its first len bytes |
| MbufOps.PacketMemory.Append | src/ext/rte_mbuf.c:1715-1732 | NULL and no change, or the packet stays well formed with len new bytes behind its own |
| MbufOps.PacketMemory.Trim | src/ext/rte_mbuf.c:1773-1786 | -1 and no change, or the packet stays well formed without its last len bytes |
| MbufOps.PacketMemory.Chain | src/ext/rte_mbuf.c:1854-1874 | -EOVERFLOW and no change when there are too many segments together, or one well-formed packet with the bytes of both, the tail's own pkt_len being that of its first segment |
| MbufLayout.PrependedPacket | src/ext/rte_mbuf.c:1685-1700 | the packet stays well formed and its old bytes follow the new ones |
| MbufLayout.AdjustedPacket | src/ext/rte_mbuf.c:1746-1759 | the packet stays well formed and loses exactly its first bytes |
| MbufLayout.AppendedPacket | src/ext/rte_mbuf.c:1715-1732 | the packet stays well formed and keeps its bytes in front of the new ones |
| MbufLayout.TrimmedPacket | src/ext/rte_mbuf.c:1773-1786 | the packet stays well formed and loses exactly its last bytes |
| MbufLayout.AdjUndoesPrepend | src/ext/rte_mbuf.c:1685-1759 | adj after prepend of the same length is the identity on memory |
| MbufLayout.TrimUndoesAppend | src/ext/rte_mbuf.c:1715-1786 | trim after append of the same length is the identity on memory, on any chain |
| MbufLayout.ChainedPacket | src/ext/rte_mbuf.c:1854-1874 | one well-formed packet whose nb_segs, pkt_len and bytes are those of both, in order |
| MbufOps.PacketMemory.Linearize | src/ext/rte_mbuf.c:1940-1976 | fails with nothing changed, or leaves one segment with exactly the bytes the copies leave, which are the packet's own in order when no segment is overwritten before its turn, and every later segment is released once |
| MbufLinearize.LinearizeExact | src/ext/rte_mbuf.c:1963-1971 | for a packet that fits, and copies that are in place or do not overlap their own sources: one segment with the bytes of all, whatever the buffers hold, if and only if no segment lies where one before it is moved to |
| MbufLinearize.RejoinKeeps | src/ext/rte_mbuf.c:1963-1971 | the parts of a split packet are put together again without a change to the buffer |
| MbufLinearize.OtherPacketKept | src/ext/rte_mbuf.c:1940-1976 | after linearize another packet is as it was, links, counts and bytes, if its segments lie outside the places segments are moved to |
| MbufLinearize.BystanderExact | src/ext/rte_mbuf.c:1963-1971 | an mbuf outside the packet shows what it did, whatever the buffers hold, if and only if it lies outside those places |
| MbufFailures.OtherPacketLoses | src/ext/rte_mbuf.c:1963-1971 | a packet whose bytes 2 3 become 9 9 while another one is linearized without loss |
| MbufFailures.LinearizeLoses | src/ext/rte_mbuf.c:1963-1971 | a well-formed packet of the bytes 1 9 9 2 3 that passes the guard and becomes 1 9 9 9 9 |
| MbufLinearize.GuardExact | src/ext/rte_mbuf.c:1950-1954 | for every packet: the guard passes exactly when the bytes fit, if and only if the copy length is below 2^31 |
| MbufFailures.GuardTooWeak | src/ext/rte_mbuf.c:1950-1954 | a well-formed packet of 40000 segments of 60000 bytes, without tailroom, that passes the guard |
| MbufLinearize.GatherReady | src/ext/rte_mbuf.c:1963-1971 | when its turn comes a segment is still held and linked, and shows what the copies so far have left in its buffer, of the head or not |
| MbufLinearize.GatherStep | src/ext/rte_mbuf.c:1963-1971 | copying what a segment shows and giving the segment back leads to the state with one more segment gathered and released |
| PrefreeRace.OneCallerGetsIt | src/ext/rte_mbuf.c:754-786 | in every interleaving of the counter reads and updates of k holders that free, detach or share on: nobody gets the mbuf while another holds it, and once all have let go exactly one has got it |
| PrefreeRace.StepKeepsInv | src/ext/rte_mbuf.c:1350-1422 | whoever read a one is the only holder, so the paths without an atomic update, that of detach with its store of zero included, are sound |
| PrefreeRace.StepMoves | src/ext/rte_mbuf.c:754-786 | in every reachable state: a read finds a one exactly for an only holder, giving back takes exactly one reference away and ends the holder, taking one adds exactly one, the counter follows, and nobody else is touched |
| PrefreeRace.EveryRunCanEnd | src/ext/rte_mbuf.c:1391-1422 | from every reachable state some run ends with all holders having let go, if and only if not all of 65535 references are about to be doubled |
| RingCopy.EnqueuePtrs | src/ext/rte_ring.c:245-271 | for any head and n up to the size: slots head + k modulo the size get object k, no other slot changes, through the unrolled and the wrapping branch |
| RingCopy.DequeuePtrs | src/ext/rte_ring.c:276-302 | object k becomes what slot head + k modulo the size holds, the rest of the table stays |
| RingCopy.CopyUnrolled | src/ext/rte_ring.c:251-264 | the loop by four and the fall-through switch copy exactly n objects |
| RingCopy.StoredIsFound | src/ext/rte_ring.c:245-302 | what one copy stored, the other finds from the same head |
| RingProtocol.FirstInFirstOut | src/ext/rte_ring.c:80-89 | in every interleaving of reserve, store, publish, look, take, load, block and release, from any index: cons.tail, cons.head, prod.tail, prod.head keep their order within the capacity modulo 2^32, what the blocks received is a prefix of what was sent, and slots a running block has peeked keep its objects |
| RingProtocol.StoreStep | src/ext/rte_ring.c:339-359 | a store hits no slot that is still in use |
| RingProtocol.LoadStep | src/ext/rte_ring_extra.c:43-59 | a load finds the next object sent |
| RingProtocol.BlockHasNext | src/dpdk/inlines.cr:126-135 | a block has the objects received last, as many as lie between cons.tail and cons.head |
| RingProtocol.CountIs | src/dpdk/inlines.cr:95-103 | the count is the number published and not released; full and empty are exact |
| Ring.RteRing.DoEnqueue | src/ext/rte_ring.c:339-359 | all objects if there is room, otherwise none or, if variable, as many as there is room for, are added at the end of the contents; it reports the room left |
| Ring.RteRing.DoDequeue | src/ext/rte_ring.c:384-404 | all that are wanted if there are so many, otherwise none or, if variable, all there are; it removes from the front what it returns, and its tail update also releases what a running block had peeked |
| Ring.RteRing.MoveConsHead | src/ext/rte_ring_extra.c:10-41 | takes the wish if there are so many entries, otherwise nothing if fixed and all entries if not, in 32-bit arithmetic |
| Ring.RteRing.Peek | src/ext/rte_ring_extra.c:43-59 | returns the objects after those already peeked, as many as are wanted and there, and leaves the contents as they are |
| Ring.RteRing.Release | src/ext/rte_ring_extra.c:61-66 | exactly the objects before the new tail leave the ring |
| Ring.RteRing.DequeueInBlock | src/dpdk/inlines.cr:126-135 | the block form with an enqueue during the block: the block gets as many objects as are wanted and there, they come off the front, and the new ones, as many as there is room for, are at the end |
| Ring.RteRing.Count | src/ext/rte_ring.c:685-704 | the masked difference of the tails, capped, is the number of objects |
| RingSteps.EnqueueIsRun | src/ext/rte_ring.c:339-359 | a whole enqueue, of all that are wanted, none, or the first ones there is room for, is a run of the protocol that fills the slots the copy fills |
| RingSteps.DequeueIsRun | src/ext/rte_ring_extra.c:43-66 | a whole peek, block and release is a run of the protocol whose block receives the window the copy reads |
| Memcpy.RteMemcpy | src/ext/rte_memcpy.c:863-870 | for every length, alignment and instruction set, and regions that do not overlap: dst gets the n bytes of src and no other byte changes; with dst equal to src no byte changes at all |
| Memcpy.GenericSse | src/ext/rte_memcpy.c:658-799 | every path of the SSE form, through the jumps into shared tails, copies all n bytes |
| Memcpy.GenericAvx2 | src/ext/rte_memcpy.c:366-475 | the same for the AVX2 form |
| Memcpy.GenericAvx512 | src/ext/rte_memcpy.c:166-282 | the same for the AVX-512 form |
| Memcpy.Aligned | src/ext/rte_memcpy.c:803-861 | the same for aligned pointers |
| Memcpy.MoveUnalignedLeft47 | src/ext/rte_memcpy.c:575-622 | leaves at most 47 bytes, with the pointers where the copied part ends |
| Memcpy.LeftIsLen | src/ext/rte_memcpy.c:600-604 | the mask arithmetic leaves length and pointers unmoved if and only if the loop has left less than a block |
| Memcpy.AlignrJoins | src/ext/rte_memcpy.c:588-595 | two neighbouring loads joined by alignr are the unaligned load |
| Memcpy.PutUpto | src/ext/rte_memcpy.c:737-755 | a copy that starts inside the finished part only rewrites bytes that are right already |
| Checksum.Compute | src/dpdk/packets.cr:102-148 | for every byte string, odd lengths included, the result read in network order is the complement of the one's complement sum of RFC 1071 |
| Checksum.ByteOrder | src/dpdk/packets.cr:102-148 | a sum in machine byte order, swapped, is the sum in network order: section 2 (B) of RFC 1071 |
| Checksum.FoldedSame | src/dpdk/packets.cr:138-145 | two folds of 64 bits keep the value modulo 2^16 - 1 and whether it is zero |
| Checksum.LittleIsWords | src/dpdk/packets.cr:107-114 | a wide load counts for the 16-bit words inside it |
| Checksum.SetChecksum | src/dpdk/packets.cr:43-52 | afterwards the 20 or 32 header bytes from 14, 50 or 38 on sum to 0xFFFF, and only the two checksum bytes have changed |
| LbBatch.RunKeeps | examples/load_balancer/runtime.cr:13-37 | over every run, each packet given to a buffer is gone with exactly one batch or pending, in order, and less than a burst is pending |
| LbBatch.GoneByNextTick | examples/load_balancer/runtime.cr:139-160 | what is buffered when a flush tick starts has left by the end of the next tick, whatever comes between |
| LbBatch.GoneInTwoPeriods | examples/load_balancer/runtime.cr:235-265 | over any rounds of the main loop, from any counter: whatever is buffered has left two flush periods and a round later |
| LbBatch.GoneByThisTick | examples/load_balancer/runtime.cr:139-160 | one tick empties a buffer if and only if it was flagged or empty |
| LbBatch.OutBuffers.BufferToSend | examples/load_balancer/runtime.cr:13-37 | the slot takes the packet; a full burst goes to the ring whole if it has room for it, and is freed whole if it has not; no other slot changes |
| LbBatch.OutBuffers.TakeAndSend | examples/load_balancer/runtime.cr:162-209 | a bulk goes behind the waiting packets; of a full burst the NIC gets the first ones, as many as it has room for, and exactly the rest is freed |
| LbBatch.OutBuffers.FlushToRing | examples/load_balancer/runtime.cr:139-160 | an unflagged or empty buffer is only flagged; otherwise all that waits goes to the ring, or is freed if there is no room for it |
| LbBatch.OutBuffers.FlushToNic | examples/load_balancer/runtime.cr:211-233 | an unflagged or empty buffer is only flagged; otherwise the NIC gets the first packets that wait, as many as it has room for, and exactly the rest is freed |
| LbRuntime.Dispatch | examples/load_balancer/runtime.cr:81-135 | the two-ahead pipeline hands every packet of a burst of any size, once and in order, to its worker's buffer, and nothing beyond the burst |
| LbRuntime.IoRx | examples/load_balancer/runtime.cr:53-137 | the same over all queues of an lcore: a worker's buffer gets, in order, each packet whose byte at pos_lb, masked with n_workers - 1, is its id, as often as it came, and no other; every received packet is then in exactly one more place, sent, freed or pending |
| LbRuntime.EachPacketOnce | examples/load_balancer/runtime.cr:13-137 | packets handed out to slots are each in exactly one batch sent, one batch freed or one slot's pending packets |
| LbRuntime.SharesAreAll | examples/load_balancer/runtime.cr:108-131 | the workers' shares of a burst add up to the burst |
| LbRuntime.ChosenIs | examples/load_balancer/runtime.cr:108-131 | a worker's share of a burst is made packet by packet and in any two parts, in order |
| LbRuntime.WorkerInRange | examples/load_balancer/runtime.cr:108-109 | the masked byte is below n_workers for every byte if and only if there is a worker |
| LbRuntime.WorkerReached | examples/load_balancer/runtime.cr:108-109 | a worker gets packets if and only if the mask keeps its id |
| LbRuntime.RxFlush | examples/load_balancer/runtime.cr:139-160 | exactly the workers' buffers see one tick |
| LbRuntime.WorkerFlush | examples/load_balancer/runtime.cr:328-352 | exactly the ports with a ring see one tick |
| LbRuntime.TxFlush | examples/load_balancer/runtime.cr:211-233 | each port sees as many ticks as the list names it, and no other sees one |
| LbRuntime.Worker | examples/load_balancer/runtime.cr:267-326 | a port's buffer gets, in order, each packet whose route it is, or without a route whose input port, as often as it came, and no other; every packet is then in exactly one more place, sent, freed or pending |
| LbRuntime.IoTx | examples/load_balancer/runtime.cr:162-209 | each listed port's buffer gets exactly what the rings of all workers gave for it, worker by worker and in the order of the list; all that any ring of any worker gave, and nothing else, is then in exactly one more place |
| LbConfig.ParseKeeps | examples/load_balancer/config.cr:60-107 | entries in any number and order that stay inside the arrays keep the port masks and the lcores' lists consistent |
| LbConfig.ParsesExactly | examples/load_balancer/config.cr:60-107 | every store of the parser stays inside its array if and only if all numbers are in range, no lcore has more than 16 receive queues or ports, and there are at most 8 rules |
| LbConfig.ParsedHolds | examples/load_balancer/config.cr:60-107 | each lcore has exactly the queues and ports of its entries and is what the last entry that names it makes of it, and there is one rule for each rule given |
| LbConfig.ParseLpm | examples/load_balancer/config.cr:96-107 | of up to nine rules, given at once or not, all are kept and memory behind them is as it was if and only if they are not nine; then the number of rules is the ninth's address plus one |
| LbConfig.CheckArgs | examples/load_balancer/config.cr:358-376 | the two checks accept exactly when the byte read for every rule's port, past the mask or not, is set and every receiving port has TX |
| LbConfig.KeptIsBehind | examples/load_balancer/lib_load_balancer.cr:101-120 | the words that lie 32 bytes behind the mask are the ones the parser has left |
| LbConfig.RuleBytes | examples/load_balancer/lib_load_balancer.cr:90-109 | for ports 64 to 127 the byte read is one of the address, the depth or the output interface of a rule, or padding |
| LbConfig.ChecksExact | examples/load_balancer/config.cr:358-364 | with the parameters laid out as they are, the checks accept what they should if and only if every rule's port is below 64, or a byte read is not set, or a receiving port lacks TX |
| LbConfig.ChecksExactAnywhere | examples/load_balancer/config.cr:358-364 | and whatever memory held, if and only if every rule's port is below 32 or something in range is refused |
| LbConfig.LcoreForNicTx | examples/load_balancer/config.cr:342-356 | the first I/O lcore that lists the port, or none does |
| LbConfig.CountWorkers | examples/load_balancer/config.cr:313-323 | the number of workers; its own check never fails |
| LbWiring.App.AssignWorkerIds | examples/load_balancer/init.cr:4-11 | a worker's id is the number of workers before it |
| LbWiring.App.InitRingsRx | examples/load_balancer/init.cr:85-123 | every receiving lcore gets one ring to every worker, in order, nobody else gets any, and both "Algorithmic error" checks are unreachable |
| LbWiring.App.InitRingsTx | examples/load_balancer/init.cr:125-167 | it succeeds if and only if there are no workers, or every TX port is polled by the only I/O lcore listing it; then it wires what the workers fill to what that lcore polls |
| LbWiring.RingOfWorker | examples/load_balancer/init.cr:95-107 | ring k of every receiving lcore is an input ring of the worker with id k |
| LbWiring.RxRingsApart | examples/load_balancer/init.cr:99-107 | in the wired arrays every ring is sent into by one lcore at one place and received from by one lcore at one place, as its SP and SC flags say |
| LbWiring.TxRingsMeet | examples/load_balancer/init.cr:148-153 | the ring polled at [port][worker id] is the one that worker fills for the port, and no other lcore, port or id has it |
| LbWiring.PickedPortHasRing | examples/load_balancer/runtime.cr:283-301 | for arguments that stay inside the arrays and pass the checks, whatever lies past the mask: every port a worker picks, by a rule or as a packet's input port, has a ring if and only if every rule's port is below 32 |
| LbWiring.RuleWithoutRing | examples/load_balancer/config.cr:358-364 | the arguments with the rule 1.0.0.0/24=>67 are accepted, and there is no ring for it |
| LbWiring.TxBuffersFit | examples/load_balancer/runtime.cr:162-233 | the 16 output buffers suffice for app_lcore_io_tx and its flush if and only if no port from 16 on has TX |
| LbWiring.TxBuffersTooFew | examples/load_balancer/runtime.cr:162-233 | arguments with a worker that all checks accept and that index past the output buffers |
| IpBlocking.BlockedInBytes | examples/ip_blocking.cr:4-11 | a packet is blocked exactly when its bytes have EtherType 0x0800 and one of the given addresses as source |
| IpBlocking.MarkEach | src/lib/packets.cr:136-147 | exactly the packets from blocked sources are marked |
| IpBlocking.DropUnsupported | src/lib/packets.cr:104-121 | a stable filter in place: the unmarked packets in order, each marked one freed once and unmarked |
| IpBlocking.TxOrFree | src/lib/base.cr:308-317 | the NIC gets the first packets, as many as it has room for, and the rest is freed |
| IpBlocking.Pass | examples/ip_blocking.cr:20-29 | one pass sends, in order, as many as the NIC has room for of exactly the packets to forward and frees each other one once, leaving no mark |
| IpBlocking.PassConserves | examples/ip_blocking.cr:20-29 | sent and freed together are the packets received |
| IpBlocking.ForwardsTheUnblocked | src/lib/packets.cr:104-121 | what is forwarded is what is not blocked if and only if no such packet came with a stale mark |
| IpBlocking.StaleMarkDrops | src/lib/packets.cr:104-121 | a packet nothing blocks that is dropped for its stale mark |
| L2fwd.Pair | examples/l2fwd.cr:353-372 | for every mask each enabled port forwards to its partner |
| L2fwd.EnabledPorts | examples/l2fwd.cr:353-372 | the ports that the loop does not skip are those whose bit of the mask is set, each once and in ascending order |
| L2fwd.PairingIsInvolution | examples/l2fwd.cr:353-372 | for the ports whose bit of the mask is set, the destination map is an involution between neighbours whose only fixed point is the last port of an odd number |
| L2fwdLcores.AssignRx | examples/l2fwd.cr:374-401 | with lists as they lie in memory: it fails exactly when enabled lcores times q is less than the enabled ports, and otherwise the i-th enabled lcore reads the i-th share, if and only if q or the ports are at most 16, or no lcore is enabled, or the one after the first is not |
| L2fwdLcores.StoreSpills | examples/l2fwd.cr:395-399 | the 17th port of a list is stored as the next lcore's count |
| L2fwdLcores.TwentyEach | examples/l2fwd.cr:383-399 | all 32 ports on lcores 0 and 1 with q 20: room for 40, and not safe |
| L2fwdLcores.EachPortOnce | examples/l2fwd.cr:374-401 | each enabled port is on the list of exactly one enabled lcore, with at most q to an lcore |
| L2fwdLcores.ListsFit | examples/l2fwd.cr:395-399 | every 16-entry list suffices if and only if q is at most 16, or at most 16 ports are enabled, or no lcore is |
| LcoreSearch.NextWrapping | src/ext/rte_lcore.c:187-208 | with wrap it ends and returns the first eligible lcore in cyclic order |
| LcoreSearch.NeverStops | src/ext/rte_lcore.c:193-206 | without an eligible lcore no round of the wrapping loop is its last |
| LcoreSearch.Next | src/dpdk/inlines.cr:44-57 | without wrap it returns the least eligible lcore above, or a number that is no lcore |
| LcoreSearch.Foreach | src/dpdk/inlines.cr:106-112 | the lcores with the role RTE, the master apart, each exactly once in ascending order |
| LcoreSearch.ForeachWorker | src/dpdk/inlines.cr:115-123 | all of them without a limit, the first limit + 1 with one if there are so many, and one for a negative limit |

## Left out

- MbufOps.PacketMemory.Clone: requires that every counter it raises has room (`CountersFit`), which the source does not check; `AttachOverflow` says what happens otherwise.
- MbufOps.PacketMemory.Linearize: requires `pkt_len - data_len < 2^31`, past which `GuardExact` says what the guard does, and that no copy overlaps its own source without being in place, which `rte_memcpy` asks for.
- MbufOps.PacketMemory.ShareAll: requires that every counter stays above zero and inside 16 bits; `ShareExact` says that exactly then the invariant is kept.
- LbRuntime.Worker: requires a ring for every port a packet is routed to, which `PickedPortHasRing` makes exact; what lies past the arrays of a worker is not modelled.
- MbufOps.PacketMemory.Prepend: like Adj, Append, Trim and Chain, is proved for well-formed packets (`MbufPacket.Packet`); what the source does with a broken chain under a disabled sanity check is not stated.
- Ring.RteRing.MoveProdHead: like MoveConsHead with a fixed number, follows the documented contract for one producer or consumer; `rte_ring_generic.h` is not part of this model, nor are several producers or consumers.
- LbBatch.EnqueueBulk: the load balancer sees a ring only as taking all of a bulk or nothing, by the room it has each time; the ring's own model is not plugged in there.
- PrefreeRace.EveryRunCanEnd: a reference that would take the counter past 16 bits is never taken, so with all 65535 about to be doubled nobody moves; what the source does then is `MbufHeap.AttachOverflow`.
- LbRuntime.IoTx: requires listed ports below the number of output buffers, which `TxBuffersFit` makes exact, and `write burst - 1 + read burst <= 512`; no option sets the burst sizes, which are 144.
- LbConfig.ParseLpm: stops at the ninth rule, after which the number of rules, and with it the next store, is an address.
- L2fwdLcores.AssignRx: does not count `nb_lcores`, which only sizes the memory pool, and does not say what lies behind the last lcore's list.
- Memcpy.RteMemcpy: states what is written, not what is read; the unaligned SSE loop loads up to 15 bytes before the source and discards them.
- Memcpy.Mov: the moves of 32 to 256 bytes are written out in the source register by register; here they are one loop over registers of the same width, and likewise the joined loads of the unaligned loop.
- Concurrency is modelled in `PrefreeRace` and `RingProtocol` only, under sequential consistency; memory-order weakening is not.
- Memory pools and their caches, `rte_pktmbuf_alloc_bulk`, pool creation and control mbufs.
- Header fields that no modelled property reads: flags other than the indirect one, the I/O address, ports, VLAN, offloads, packet types, timestamps.
- The union that overlays an lcore's I/O and worker parameters in the load balancer, and regular expressions in its argument parser; each parsed entry is one `Arg`.
- `rte_ring_create` returning NULL, sockets, statistics, prefetches, NIC and link set-up, and the endless main loops themselves (their rounds and flush counter are in `LbBatch.GoneInTwoPeriods`).
- Longest-prefix-match tables: lookup returns a miss or a configured port.
- The ICMP checksum edit in `src/lib/packets.cr`, the other packet predicates and reply macros, `rte_reorder`, `rte_distributor`, KNI and netlink code, unit formatting.
