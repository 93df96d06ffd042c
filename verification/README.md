# Verified model of a UDP echo on a SmartNIC

The repository drives a Netronome NFP-6000 network card without a kernel driver. Firmware on the card
receives UDP and ICMP frames, turns them into replies and passes them through two rings in host memory;
a worker thread on the host copies packets from the receive ring to the transmit ring. A user-space
library gives the host access to the card: addresses, windows, locks and resources.

This project models these parts in Dafny and proves what they are for.

- **The echo path** (`RingGeometry`, `PacketEcho`, `EchoDevice`, `EchoHistory`, `RxInvariant`,
  `TxInvariant`, `EchoInvariant`, `EchoTheorems`, `EchoRefinement`, `EchoReorder`, `EchoProgress`,
  `EchoDelivery`, `EchoFirmware`, `HostWorker`, `SingleContext`, `PacketTransfer`). All contexts of a
  microengine share a ring without descriptors or locks. A context latches the other side's pointer, is swapped out,
  reserves a slot in local memory, transfers its packet, and publishes in reservation order by waiting
  until the published pointer equals its own ticket. The model is a step system with any number of
  contexts, any number of slots and any interleaving; latching and reserving are separate steps. Ghost
  histories hold packets in order and unwrapped counters beside the wrapped 32-bit byte offsets.
- **Locks and resources** (`MutexWord`, `MutexProtocol`, `MutexHandles`, `MutexRuns`, `MutexCache`,
  `ResourceTable`, `ResourceOutcome`, `ResourceKeyZero`, `ResourceCalls`, `Crc32`). A recursive lock
  shared by several interfaces is made of a test-and-set and a separate write of the owner; handles are shared and counted; a resource is found by
  the checksum of its name and locked under the device's lock. `MutexProtocol` interleaves single device
  accesses, any of which may fail. The other modules take whole calls of one process.
- **Addresses and windows** (`CppWindow`, `CppAddress`, `CppBits`, `CppCoder`, `BitArithmetic`, `BarWindow`,
  `BarSlots`). The island a command is routed to stands in six address bits, in one of four places and
  four modes; a PCIe window shows part of the address space.
- **Access to the device** (`AreaTable`, `ChunkedAccess`, `IntrusiveList`). Offsets for mapped areas,
  reads and writes in pieces, and the list the library keeps its objects in.

Each part has a description on values (functions and step systems) about which the theorems speak, and,
where the C code changes state, classes and methods proved to do what that description says.

Assumptions of the echo path: a context resumes in the order in which CLS served the reads
(firmware/multi_rx.c:99 says that CLS access is in order; `EchoReorder` shows what happens otherwise), memory
is sequentially consistent at the barriers in the code, and a transfer is complete when its completion is
signalled. The entry size must divide the capacity (`RingGeometry.EntriesFitExactlyWhenDivisible`).

## Where code and comments disagree, or the code falls short

- The IPv4 header sum survives the address swap, but the ICMP type is overwritten without updating the
  checksum, and with IP options the octet overwritten is an option (`PacketTransfer.IcmpSumKept`,
  `PacketTransfer.IpHeaderSumKept`). These are the sums of the bytes in the rings; on the way out
  firmware/txops.c:66-67 asks the MAC to generate L3 and L4 checksums.
- A lock whose owner write fails stays taken for ever, and that is the only way to lose it
  (`MutexProtocol.OrphanedExactlyAfterFailedOwnerWrite`, `MutexProtocol.OrphanedForever`).
- An interface with id 0 takes a lock in transit for its own (`MutexProtocol.ZeroIdBothHold`).
- `nfp_resource_acquire` is written to retry while a resource is busy, but no attempt reports -EBUSY
  (`ResourceTable.NeverReportsBusy`), so the first refusal ends it.
- A resource whose name has checksum 0, and only such a one, finds table entry 0, the device mutex, and acquires
  that (`ResourceTable.DeviceAcquiredExactlyForKeyZero`, `ResourceKeyZero.NameTakesDevice`).
- Mode 3 of the memory unit sets one locality bit and leaves the other, so the address need not become direct
  (`CppAddress.EncodeThenDecode`).
- Clearing the island of a 32-bit SRAM address is no preparation for encoding it (`CppAddress.ClearThenEncodeFixed`).
- The last page of the address space passes every collision test (`AreaTable.TopGivenTwice`).
- A ring of one slot always reads as full (`EchoDelivery.OneSlotReservesNothing`, `EchoDelivery.DeliverableExactly`).
- Empty areas collide with nothing at their own offset, so releasing one may take away another area
  (`AreaTable.ReleaseUndoesRequest`, `AreaTable.EmptyAreaMisreleased`).
- The first length of a chunked write, computed up to the next boundary, is overwritten
  (`ChunkedAccess.WriteTileCrosses`); a write of more than 1 GiB, the largest window, therefore always fails
  (`ChunkedAccess.DevWrite`), whereas a read of that length need not.
- The check against 40 address bits lets a range pass whose end wraps to 0. Its base bits then fill the fields
  above them and another window opens; for ranges without island this is the only case
  (`BarWindow.AdmittedExactlyShown`, `BarWindow.LastPageIsMisshown`).

## Model

| member | source | states |
|---|---|---|
| EchoTheorems.EndToEnd | firmware/multi_rx.c:66-100 | In every interleaving of any number of receive contexts, the host worker and any number of transmit contexts, the packets taken for transmission, then those in the transmit ring, then those in the receive ring are the published packets in reservation order: none lost, repeated, reordered or altered |
| EchoTheorems.ReservedAreCarried | firmware/multi_rx.c:73-100 | The packets reserved but not yet published, which EchoTheorems.EndToEnd leaves open, are each carried unaltered, in hand or in its slot, by exactly one context, and a context with a slot carries exactly one: so every reserved packet is accounted for |
| EchoTheorems.RxSafety | firmware/multi_rx.c:67-100 | In every reachable state freed <= published <= reserved <= freed + n - 1 in unwrapped counts and the byte pointers are these counters; outstanding contexts own pairwise disjoint slots, disjoint from every unread slot; the slot the host copies from holds the finished packet, although full and empty were decided on latched pointers |
| EchoTheorems.TxSafety | firmware/multi_tx.c:39-73 | The dual: no context claims a slot the host has not posted, claimed slots are distinct and keep their packet until their commit, and taken <= claimed <= posted <= taken + n - 1 |
| EchoTheorems.RxTicketUnambiguous | firmware/multi_rx.c:91-100 | The published tail differs from the shadow tail exactly when some context holds the wrapped ticket equal to it, and no two contexts hold equal tickets: no ABA after wrap-around |
| EchoTheorems.TxTicketUnambiguous | firmware/multi_tx.c:64-73 | The same for the head pointer of transmission |
| EchoTheorems.RxDistanceShrinks | firmware/multi_rx.c:91-100 | A waiting context's distance to its turn is never negative, is 0 exactly when its comparison succeeds, drops by one with each publication by another context and changes with nothing else |
| EchoTheorems.TxDistanceShrinks | firmware/multi_tx.c:64-73 | The same for contexts waiting to commit a transmit slot |
| EchoTheorems.HandedOverOnce | firmware/multi_tx.c:73-76 | A taken packet has been handed to the NBI or exactly one context is about to hand it over; none is handed over twice (the order on the wire is not claimed) |
| EchoTheorems.WorkerNeverAborts | user/lib/ring_buffer.c:6-18 | Whenever the worker copies, its ring copies pass the assertions of push and pop |
| EchoTheorems.WalkReads | user/lib/ring_buffer.h:18-48 | A ring whose slots i to j hold given packets reads, from pointer to pointer by single advances, as exactly these packets |
| EchoInvariant.NextKeeps | firmware/multi_rx.c:66-100 | Every event of firmware and host keeps the invariant of both rings and the worker |
| EchoInvariant.RunKeeps | firmware/multi_rx.c:66-100 | So does every run |
| EchoInvariant.DecideIsSafe | user/app_main.c:152-152 | The worker's test on possibly stale pointers decides exactly whether its counters leave a packet to copy and room for it |
| EchoInvariant.StartKeeps | user/app_main.c:106-118 | The configured device satisfies the invariant, for every geometry and number of contexts |
| EchoInvariant.RxEventKeeps | firmware/multi_rx.c:66-100 | Every receive event keeps the invariant of the whole path |
| EchoInvariant.TxEventKeeps | firmware/multi_tx.c:38-76 | So does every transmit event |
| EchoInvariant.HostEventKeeps | user/app_main.c:144-167 | So does every access of the worker |
| RxInvariant.RxReserveKeeps | firmware/multi_rx.c:70-84 | Reserving on a latched, possibly stale head keeps the receive invariant, provided replies return in the order served |
| RxInvariant.RxPublishKeeps | firmware/multi_rx.c:92-100 | Publishing one's own ticket keeps it |
| RxInvariant.RxTransferKeeps | firmware/multi_rx.c:86-88 | Bytes written into one's own slot leave every other live slot as it was |
| RxInvariant.RxLatchKeeps | firmware/multi_rx.c:70-70 | Latching the head keeps the receive invariant |
| RxInvariant.RxTransferDoneKeeps | firmware/multi_rx.c:87-88 | A finished transfer leaves the packet in the reserved slot and keeps it |
| RxInvariant.RxCheckKeeps | firmware/multi_rx.c:94-97 | A comparison that succeeds does so only for the oldest unpublished reservation |
| RxInvariant.RxFreeKeeps | user/app_main.c:165-165 | The worker's head update, up to what it has seen published, keeps it |
| TxInvariant.TxClaimKeeps | firmware/multi_tx.c:42-56 | Claiming on a latched tail keeps the transmit invariant |
| TxInvariant.TxPublishKeeps | firmware/multi_tx.c:65-73 | Committing one's own slot keeps it |
| TxInvariant.TxFillKeeps | user/app_main.c:154-160 | The worker's copy into the next free transmit slot keeps it |
| TxInvariant.TxLatchKeeps | firmware/multi_tx.c:42-42 | Latching the tail keeps the transmit invariant |
| TxInvariant.TxFetchedKeeps | firmware/multi_tx.c:60-60 | A fetched packet is the one the worker copied as the claimed number |
| TxInvariant.TxCheckKeeps | firmware/multi_tx.c:67-70 | A comparison that succeeds does so only for the oldest uncommitted slot |
| TxInvariant.TxSendKeeps | firmware/multi_tx.c:76-76 | Handing a packet over keeps it |
| TxInvariant.TxScribbleKeeps | user/app_main.c:157-157 | Whatever an unfinished copy has written so far lies in a free slot |
| TxInvariant.TxPostKeeps | user/app_main.c:164-164 | The worker's tail update keeps it |
| EchoRefinement.MultiRxRefinesSingle | firmware/rx.c:57-79 | With each publication mapped to one iteration of the single-context receiver and every other firmware event to a stutter, the multi-context receiver shows the single-context behaviour on pointers and contents between them |
| EchoRefinement.MultiTxRefinesSingle | firmware/tx.c:29-52 | The same for transmission, with commits as iterations |
| EchoRefinement.RxIterationProduces | firmware/rx.c:57-79 | One single-context receive iteration appends one packet to the ring as seen between its pointers |
| EchoRefinement.TxIterationConsumes | firmware/tx.c:29-52 | One single-context transmit iteration removes the oldest packet |
| EchoReorder.OvertakingLosesPackets | firmware/multi_rx.c:69-100 | Without in-order return of CLS replies there is a run with two slots and two contexts after which a full ring reads as empty and published packets are lost |
| EchoProgress.NeverStuck | firmware/multi_rx.c:91-100 | From every reachable state with at least one transmit context some continuation delivers all packets reserved so far, in order: no state is a deadlock |
| EchoDelivery.SlotGivenExactly | firmware/multi_rx.c:73-84 | In every reachable state the context whose reply is next gets a slot if and only if fewer than n - 1 slots beyond the head it latched, in unwrapped counts, are reserved; otherwise it keeps its packet and starts over |
| EchoDelivery.RoomGivesSlot | firmware/multi_rx.c:70-84 | Then the packet is the next one reserved and the slot is that of its number; the latched head is never ahead of what the host has freed |
| EchoDelivery.ClaimGivenExactly | firmware/multi_tx.c:45-56 | The dual for transmission: a slot is claimed if and only if one posted before the latched tail is unclaimed |
| EchoDelivery.PostedGivesClaim | firmware/multi_tx.c:42-56 | Then it is the next unclaimed slot; the latched tail is never ahead of what the host has posted |
| EchoDelivery.DeliverableExactly | firmware/multi_rx.c:41-100 | With a transmit context, from every reachable state some continuation hands over to the NBI every packet accepted so far, those waiting for a slot included and those reserved in their order, if and only if the ring has two slots or no packet is waiting |
| EchoDelivery.OneSlotReservesNothing | firmware/multi_rx.c:79-84 | With one slot the ring always reads as full, and no run reserves anything |
| EchoDelivery.FramesAccountedFor | firmware/multi_rx.c:45-84 | In every run the packets reserved and those waiting are, each once, the replies to the frames received that pass the filter; no other packet ever enters the ring |
| EchoDelivery.ReplyExactly | firmware/rxops.c:102-146 | A frame has a reply if and only if its EtherType is 0x0800, its protocol UDP or ICMP and its length the configured one plus the 8 octets the MAC prepends; the reply is the frame sent back |
| SingleContext.Ring.RxProcess | firmware/rx.c:57-79 | The single-context receiver, in place: polls until there is room, stores the packet at the tail, advances it |
| SingleContext.Ring.TxProcess | firmware/tx.c:29-52 | The single-context transmitter, in place |
| SingleContext.Ring.Poll | firmware/rx.c:63-72 | The polling loop ends at the first value of the peer's pointer that differs from the one that blocks |
| EchoFirmware.Receiver.Receive | firmware/multi_rx.c:41-64 | Receive, filter and rewrite one frame, filter and rewriting stated on its octets; a dropped frame changes nothing |
| EchoFirmware.Receiver.Latch | firmware/multi_rx.c:70-70 | Read the head from CLS; the reply is queued |
| EchoFirmware.Receiver.Reserve | firmware/multi_rx.c:73-84 | Compare the latched head with the shadow tail and reserve a slot or start over |
| EchoFirmware.Receiver.TransferDone | firmware/multi_rx.c:87-88 | The packet is in its slot |
| EchoFirmware.Receiver.Check | firmware/multi_rx.c:91-98 | One comparison of the published tail with one's own ticket |
| EchoFirmware.Receiver.Publish | firmware/multi_rx.c:100-100 | Write the advanced tail |
| EchoFirmware.Transmitter.Claim | firmware/multi_tx.c:45-56 | Compare the latched tail with the shadow head and claim a slot or start over |
| EchoFirmware.Transmitter.Fetched | firmware/multi_tx.c:59-61 | The packet is fetched from its slot |
| EchoFirmware.Transmitter.Publish | firmware/multi_tx.c:73-73 | Write the advanced head |
| EchoFirmware.Transmitter.Latch | firmware/multi_tx.c:42-42 | Read the tail from CLS; the reply is queued |
| EchoFirmware.Transmitter.Check | firmware/multi_tx.c:64-71 | One comparison of the published head with one's own slot |
| EchoFirmware.Transmitter.Send | firmware/multi_tx.c:76-76 | Hand the packet over and start again |
| HostWorker.Worker.Step | user/app_main.c:144-167 | Each access of the worker's loop to shared memory, in place, is the corresponding event |
| HostWorker.Worker.CopyEntry | user/app_main.c:154-160 | Front entry copied to the back of the transmit ring, both pointers advanced |
| HostWorker.RingBuffer.Push | user/lib/ring_buffer.c:3-13 | On a ring that is not full the tail advances by one entry |
| HostWorker.RingBuffer.Pop | user/lib/ring_buffer.c:15-25 | On a ring that is not empty the head advances by one entry |
| HostWorker.SizeCountsEntries | user/lib/ring_buffer.h:18-38 | For pointers i and j entries into the run, empty means j == i, full means j + 1 == i + n, and the size is (j - i) entries in bytes |
| RingGeometry.EntriesFitExactlyWhenDivisible | firmware/multi_rx.c:74-76 | Every entry lies inside the buffer exactly when the entry size divides the capacity |
| RingGeometry.SameOffset | firmware/multi_rx.c:79-80 | Within one turn, equal byte offsets mean equal counters |
| RingGeometry.OffsetsApart | firmware/multi_rx.c:74-76 | Distinct counters less than a turn apart own disjoint byte ranges |
| RingGeometry.ModuloAdvance | user/lib/ring_buffer.h:35-38 | The full test's reduction modulo the capacity computes the same successor as the comparison elsewhere |
| PacketEcho.AllowedFits | firmware/rxops.c:119-121 | A frame that passes the length test, in 32-bit unsigned arithmetic, holds exactly the bytes that are sent |
| PacketEcho.AllowedExactly | firmware/rxops.c:102-124 | Exactly the frames with EtherType 0x0800, protocol UDP or ICMP and the configured length plus 8 pass |
| PacketEcho.EchoHeaderBytes | firmware/rxops.c:126-147 | Octet by octet: 8 to 13 and 14 to 19 (MAC) are exchanged, 34 to 37 and 38 to 41 (IP) are exchanged, octet 42 is 0 if octet 31 is 1, and every other octet stays |
| PacketEcho.EchoIsSentBack | firmware/multi_rx.c:59-88 | What is sent to the host has as destination addresses the source addresses of the frame and conversely, is an echo reply if it is ICMP, and else is what was received |
| PacketEcho.WireAt | firmware/dma.c:100-128 | The first 256 octets of a packet buffer are in CTM, the others in the MU buffer |
| PacketTransfer.JoinedAt | firmware/dma.c:100-157 | Octets below 256 of the joined buffers are those of CTM, the others those of the MU buffer |
| PacketTransfer.ModifyPacketHeader | firmware/rxops.c:126-146 | Swaps MAC and IP addresses in place and turns an ICMP message into an echo reply: each octet of the result is stated |
| PacketTransfer.RewriteHeader | firmware/rxops.c:70-100 | Reading the header registers, rewriting them and writing them back rewrites the packet and nothing else |
| PacketTransfer.DmaPacketSend | firmware/dma.c:100-128 | The part in CTM and the part in the MU buffer arrive in host memory as one piece; nothing else there changes |
| PacketTransfer.DmaPacketRecv | firmware/dma.c:130-157 | A piece of host memory is split between CTM and the MU buffer; read as one they hold it, and nothing else changes |
| PacketTransfer.EchoOnce | firmware/dma.c:100-157 | A frame that passes the filter, gathered with one split, copied and scattered with another, is the rewritten frame byte for byte: its destinations are the sources of the frame that came in |
| PacketTransfer.IpHeaderSumKept | firmware/rxops.c:131-146 | The one's-complement sum of the IPv4 header (section 2 of RFC 1071) is kept exactly unless IP options push a nonzero octet to where the ICMP type is written |
| PacketTransfer.IcmpSumKept | firmware/rxops.c:141-146 | The ICMP sum is kept exactly when the type already was echo reply: the checksum field is not updated |
| PacketTransfer.SwapFields | firmware/rxops.c:131-139 | Two adjacent fields are exchanged through a temporary |
| PacketTransfer.Ingest | firmware/multi_rx.c:45-88 | A frame that passes the filter arrives in its slot rewritten, and the slot is filled exactly |
| PacketTransfer.SwapKeepsSum | firmware/rxops.c:131-139 | Exchanging fields of even length at even offsets keeps the sum of 16-bit words |
| PacketTransfer.EchoHeaderPrefix | firmware/rxops.c:86-100 | Rewriting touches only the header, so it may be done on the part in CTM |
| MutexProtocol.Safety | user/nfpcore/nfp_mutex.c:288-424 | In every interleaving of any number of interfaces with distinct nonzero ids, device accesses failing at any point: at most one interface lies between a winning test-and-set and its unlock write, the word is 0, 0xf or the owner in the upper half with 0xf below, a handle with positive depth means the word names its interface, and the depth is successful locks less successful unlocks, where only the one unlock that released the lock taken by `nfp_cpp_mutex_init` is not counted |
| MutexProtocol.ExclusiveExactlyWhenDistinguishable | user/nfpcore/nfp_mutex.c:376-418 | Mutual exclusion holds in all runs if and only if there is at most one interface, or the ids are nonzero and pairwise distinct |
| MutexProtocol.EqualIdsBothHold | user/nfpcore/nfp_mutex.c:414-418 | Two interfaces with the same id can both hold the lock |
| MutexProtocol.ZeroIdBothHold | user/nfpcore/nfp_mutex.c:414-418 | With id 0 the word of a taken lock whose owner is not yet written is mistaken for one's own |
| MutexProtocol.OrphanedExactlyAfterFailedOwnerWrite | user/nfpcore/nfp_mutex.c:396-412 | In every run from every start the lock is taken with nobody ever to release it if and only if the owner write of some lock call failed after its test-and-set won; otherwise a word that is not free has an interface that holds it, or is still the lock taken by `nfp_cpp_mutex_init` |
| MutexProtocol.NeverOrphaned | user/nfpcore/nfp_mutex.c:396-412 | So while no owner write fails, a word that is not free has a holder, unless it still is the lock taken by `nfp_cpp_mutex_init` |
| MutexProtocol.FailedOwnerWriteOrphans | user/nfpcore/nfp_mutex.c:406-408 | In every state of every run each failing owner write orphans the lock |
| MutexProtocol.OrphanedForever | user/nfpcore/nfp_mutex.c:406-408 | From then on no run ever frees it |
| MutexProtocol.LockCall | user/nfpcore/nfp_mutex.c:343-424 | The steps of a lock call, taken without interference, have exactly the outcome the sequential description gives |
| MutexProtocol.UnlockCall | user/nfpcore/nfp_mutex.c:288-329 | The same for unlock |
| MutexWord.LockedInjective | user/nfpcore/nfp_mutex.c:15-20 | Words of different owners differ |
| MutexWord.LockOutcomes | user/nfpcore/nfp_mutex.c:343-424 | For every word, key and depth: depth 1 to 65534 counts up, 65535 is refused; else a wrong key is refused, a word with lower half 0 or naming us is taken and then names us, one naming another answers busy, and a damaged one is invalid with its four low bits set |
| MutexWord.UnlockOutcomes | user/nfpcore/nfp_mutex.c:288-329 | For every word, key and depth: above depth 1 it counts down; else a wrong key and a word not naming us are refused, and ours becomes 0 |
| MutexHandles.LockThenUnlock | user/nfpcore/nfp_mutex.c:288-424 | A successful lock call followed by unlock restores word, depth and cache, except that a word nobody held ends as 0 |
| MutexHandles.AllocThenFree | user/nfpcore/nfp_mutex.c:117-175 | A handle obtained and given back leaves the cache as it was |
| MutexHandles.LocksCommute | user/nfpcore/nfp_mutex.c:288-424 | An unlock call and a lock attempt on mutexes at different locations commute |
| MutexHandles.TryLocksCommute | user/nfpcore/nfp_mutex.c:343-424 | So do two lock attempts |
| MutexHandles.UnlocksCommute | user/nfpcore/nfp_mutex.c:288-329 | and two unlock calls |
| MutexRuns.RunKeepsValid | user/nfpcore/nfp_mutex.c:117-424 | Every sequence of calls keeps the cache valid: one handle per address, use counts positive, keys those of the device, depth at most 0xffff, positive depth only with the word naming our interface |
| MutexRuns.HeldMeansOwned | user/nfpcore/nfp_mutex.c:353-359 | So in every run a positive depth means the word is locked by us |
| MutexRuns.FreeAfterExactlyAsManyUnlocks | user/nfpcore/nfp_mutex.c:298-325 | A free mutex locked k times is free again after exactly k unlock calls, for every k up to 0xffff, and the state is then the prior one |
| MutexRuns.LocksCount | user/nfpcore/nfp_mutex.c:353-412 | Each of these lock calls succeeds and the handle counts it |
| MutexRuns.DeepestLockRefused | user/nfpcore/nfp_mutex.c:353-359 | One lock call more is refused and changes nothing |
| MutexRuns.ForeignUnlockRefused | user/nfpcore/nfp_mutex.c:316-319 | Unlocking what the word says is another's is refused and changes nothing |
| MutexRuns.TryLockKeepsValid | user/nfpcore/nfp_mutex.c:343-424 | A lock attempt keeps the cache valid |
| MutexRuns.UnlockKeepsValid | user/nfpcore/nfp_mutex.c:288-329 | So does unlock |
| MutexRuns.UnlocksUndoLocks | user/nfpcore/nfp_mutex.c:298-325 | j unlock calls undo the last j of k lock calls |
| MutexCache.Cpp.AllocMutex | user/nfpcore/nfp_mutex.c:117-175 | On shared handle objects: share the cached handle, or create one if the device's key fits |
| MutexCache.Cpp.FreeMutex | user/nfpcore/nfp_mutex.c:230-248 | Drop a use; the last one unlinks the handle |
| MutexCache.Cpp.TryLockMutex | user/nfpcore/nfp_mutex.c:343-424 | The lock attempt on handle object and device words does what the value description says |
| MutexCache.Cpp.UnlockMutex | user/nfpcore/nfp_mutex.c:288-329 | The same for unlock |
| MutexCache.Cpp.FindCached | user/nfpcore/nfp_mutex.c:127-131 | The search of the cache |
| MutexCache.Cpp.Attempt | user/nfpcore/nfp_mutex.c:353-423 | Depth, key, test-and-set and owner write of one attempt, in that order: a key that does not fit is reported even where the lock word cannot be accessed |
| MutexCache.Cpp.TestAndClaim | user/nfpcore/nfp_mutex.c:376-423 | The test-and-set and, if it won, the write of the owner |
| ResourceTable.AcquireSucceeds | user/nfpcore/nfp_resource.c:113-140 | A successful acquisition amounts to obtaining and locking the resource's handle: word, depth and use count of the device mutex are as before, except that stray bits of a word nobody held are cleared |
| ResourceTable.AcquiredIsHeld | user/nfpcore/nfp_resource.c:126-132 | After it the resource is locked by us, one level deeper than before |
| ResourceTable.AcquireRefused | user/nfpcore/nfp_resource.c:134-140 | After any refusal, depths and use counts are as before and so is every word that was free or locked, but for a cleared device word |
| ResourceTable.AcquireThenRelease | user/nfpcore/nfp_resource.c:151-218 | Acquiring and releasing restores everything but the words of the two mutexes, which end as 0 unless held before |
| ResourceTable.AcquireThenReleaseRestores | user/nfpcore/nfp_resource.c:151-218 | The whole prior state comes back if and only if both mutexes were held or had the word 0 |
| ResourceTable.TryAcquireRefused | user/nfpcore/nfp_resource.c:113-140 | After one refused attempt depths, use counts and every undamaged word are as before, except the device word if nobody held it; a waiting attempt has changed nothing |
| ResourceTable.CloseNamesHaveDifferentKeys | user/nfpcore/nfp_resource.c:77-96 | Names that differ only within four consecutive octets have different keys |
| ResourceTable.FindEntry | user/nfpcore/nfp_resource.c:87-110 | The entry found is readable and has the key |
| ResourceTable.SearchMeaning | user/nfpcore/nfp_resource.c:87-110 | It is the first with the key; the search misses if and only if all entries are readable and none has the key, and fails on reading if and only if an unreadable entry comes before any with the key |
| ResourceTable.DeviceFoundExactlyForKeyZero | user/nfpcore/nfp_resource.c:77-96 | With the device mutex held, the entry found is that of the device mutex if and only if the checksum of the name is 0 |
| ResourceTable.DeviceAcquiredExactlyForKeyZero | user/nfpcore/nfp_resource.c:113-140 | A successful acquisition takes the device mutex itself if and only if the checksum of the name is 0 |
| ResourceTable.NeverReportsBusy | user/nfpcore/nfp_resource.c:151-204 | No refused attempt reports -EBUSY, the only error after which the caller repeats it |
| ResourceTable.TryAcquireSucceeds | user/nfpcore/nfp_resource.c:113-132 | One successful attempt amounts to locking the resource through a handle of its own |
| ResourceKeyZero.NameHasKeyZero | user/nfpcore/nfp_resource.c:77-85 | The eight octets ab-z15zy are such a name: their checksum is 0 |
| ResourceKeyZero.NameTakesDevice | user/nfpcore/nfp_resource.c:151-204 | and acquiring that name, on a device where all words are free, takes the device mutex |
| ResourceOutcome.OutcomeExactly | user/nfpcore/nfp_resource.c:67-204 | With the device mutex to be had: entry i is acquired if and only if the name is not that of the table, i is the first of the 128 entries with the checksum of the name, all before it being readable, and its mutex is free or ours below the maximal depth; the error is -95 if and only if the name is nfp.res, -2 if and only if no readable entry of all 128 has the key, -5 if and only if an unreadable one comes first, and -1 if and only if the entry is there and its lock is not to be had |
| ResourceOutcome.DeviceNotReady | user/nfpcore/nfp_resource.c:113-204 | The call waits if and only if another interface holds the device mutex; it ends with -22 if and only if that mutex is damaged, unreadable or at its maximal depth, and changes nothing if its key is not 0 |
| ResourceOutcome.LockExactly | user/nfpcore/nfp_mutex.c:343-424 | On a valid cache a lock attempt succeeds if and only if the mutex is free or ours below the maximal depth; busy, too deep, unreadable and damaged are each told apart exactly |
| ResourceOutcome.UnlockExactly | user/nfpcore/nfp_mutex.c:288-329 | On a valid cache an unlock call succeeds if and only if the depth is above 1 or the word names us; unreadable words and words not ours are told apart exactly |
| ResourceOutcome.HandleExactly | user/nfpcore/nfp_mutex.c:117-175 | A handle is to be had if and only if the address is a multiple of 8 whose key word is the key asked for |
| ResourceOutcome.PaddedOctets | user/nfpcore/nfp_resource.c:77-78 | The padded name has the octets before the first zero, then zeros |
| ResourceCalls.FindResource | user/nfpcore/nfp_resource.c:67-111 | The loop over the table, and the handle obtained at its end |
| ResourceCalls.TryAcquireResource | user/nfpcore/nfp_resource.c:113-140 | The attempt on shared handle objects |
| ResourceCalls.AcquireResource | user/nfpcore/nfp_resource.c:151-204 | The acquisition on shared handle objects |
| ResourceCalls.ReleaseResource | user/nfpcore/nfp_resource.c:212-218 | The release on shared handle objects |
| ResourceCalls.PadName | user/nfpcore/nfp_resource.c:77-78 | A name is cut at eight octets or padded with zeros |
| ResourceCalls.SearchAndTakeResource | user/nfpcore/nfp_resource.c:122-139 | What happens while the device mutex is held |
| ResourceCalls.TakeFound | user/nfpcore/nfp_resource.c:126-137 | The resource's mutex is taken or its handle given back, then the device mutex let go |
| Crc32.BurstsAreDetected | user/nfpcore/nfp_crc.c:11-49 | Messages of equal length that agree outside 32 consecutive bits, at any alignment, have equal checksums only if they are equal |
| Crc32.OctetBurstsAreDetected | user/nfpcore/nfp_crc.c:11-49 | The same for differences inside four consecutive octets |
| Crc32.ShiftLinear | user/nfpcore/nfp_crc.c:19-20 | The division step is linear over GF(2) |
| Crc32.ShiftInjective | user/nfpcore/nfp_crc.c:19-20 | and injective |
| Crc32.Crc32Be | user/nfpcore/nfp_crc.c:11-23 | The two loops feed the message bits, most significant first, through the division step |
| Crc32.Crc32PosixEnd | user/nfpcore/nfp_crc.c:31-43 | The octets of the length follow, least significant first without leading zeros, then the complement |
| Crc32.LengthOctetsExactly | user/nfpcore/nfp_crc.c:31-43 | Octet k fed for the length is its k-th least significant one, and there are as many as it has without leading zeros |
| Crc32.Crc32Posix | user/nfpcore/nfp_crc.c:45-49 | The whole checksum, as the DESCRIPTION section of the cksum utility in IEEE Std 1003.1-2017 defines it |
| Crc32.Octet | user/nfpcore/nfp_crc.c:17-20 | Eight division steps feed the eight bits of an octet |
| Crc32.FeedInjective | user/nfpcore/nfp_crc.c:16-21 | Equal remainders after the same bits come from equal remainders before |
| CppAddress.EncodeThenDecode | user/nfpcore/nfp-common/nfp_cppat.h:52-606 | For every target, mode, width and island an encoded address decodes to the island asked for if and only if the island fits six bits where it is written in full, is not the wildcard, and, where mode 3 of the memory unit forces direct locality on an address whose lower locality bit is set, happens to be what mode 3 reads back |
| CppAddress.RefusedExactlyWhenUnreachable | user/nfpcore/nfp-common/nfp_cppat.h:75-489 | Outside 32-bit SRAM addresses, encoding a six-bit island is refused exactly when no address that agrees outside the island bits decodes to it; where mode 3 forces direct locality it always succeeds, and it is stated when such an address exists |
| CppAddress.EncodeKeepsPayload | user/nfpcore/nfp-common/nfp_cppat.h:101-236 | Bits outside the island field are unchanged; forcing direct locality changes only that bit besides |
| CppAddress.ClearThenEncode | user/nfpcore/nfp-common/nfp_cppat.h:639-723 | Encoding gives the same address whether or not the island bits were cleared first |
| CppAddress.ClearedDecodes | user/nfpcore/nfp-common/nfp_cppat.h:639-723 | A cleared address leads to island 0 where the number stands in full, else to table entry 0 without the bits that come from the address |
| CppAddress.ClearThenEncodeFixed | user/nfpcore/nfp-common/nfp_cppat.h:77-99 | For 32-bit SRAM addresses, which are only checked, after clearing just that island is accepted |
| CppAddress.TranslationReachesIsland | user/nfpcore/nfp_target.h:537-577 | A translated identifier names no island, translating it again changes nothing, and its address leads to the island exactly under the condition of the round trip |
| CppAddress.TranslationKeepsAbove40 | user/nfpcore/nfp_target.h:537-577 | Translation leaves the address bits from the 40th up |
| CppAddress.Reachable | user/nfpcore/nfp-common/nfp_cppat.h:127-232 | In an index mode an island can be reached from an address exactly when a table entry fits it |
| CppBits.EncodedBits | user/nfpcore/nfp-common/nfp_cppat.h:52-606 | Which bits hold the island: bits 39:34 or 31:26, for the memory unit 37:32 or 29:24, for the context processor bus 29:24, hold it whole in mode 0 and in direct locality (bits 39:38 or 31:30); else the topmost of them says which table entry fits, none, one or two bits below it are the low bits of the island, and every other address bit stays |
| CppBits.RefusedBits | user/nfpcore/nfp-common/nfp_cppat.h:52-606 | Encoding answers -EINVAL if and only if there is no such mode, and -ENODEV if and only if neither table entry fits |
| CppBits.CheckedOnly | user/nfpcore/nfp-common/nfp_cppat.h:78-100 | A 32-bit SRAM address is never changed: it is accepted if and only if it leads to the island already or the island is -1 |
| CppBits.DecodedBits | user/nfpcore/nfp-common/nfp_cppat.h:240-637 | The island decoded is the six bits, or the entry the topmost selects with its low bits replaced by those below |
| CppBits.ClearedBits | user/nfpcore/nfp-common/nfp_cppat.h:639-723 | Clearing sets these bits to 0 and no others |
| CppBits.ThirtyTwoBitsStay | user/nfpcore/nfp-common/nfp_cppat.h:52-606 | A 32-bit address stays below 2 to the 32nd |
| CppBits.TargetsByNumber | user/nfpcore/nfp-common/nfp_cppat.h:574-606 | Which target numbers mean the memory unit, the context processor bus, the SRAM, or nothing |
| CppBits.EntryFields | user/nfpcore/nfp_target.h:562-569 | Mode, width and islands packed into a table entry are taken out again |
| CppWindow.SteeredSelects | user/nfpcore/nfp-common/nfp_cppat.h:127-231 | In an index mode the bits chosen for an island select it, whatever the rest of the window holds |
| CppWindow.UnsteeredSelectsNot | user/nfpcore/nfp-common/nfp_cppat.h:184-232 | and if none are chosen no window selects it |
| CppCoder.AddrEncode | user/nfpcore/nfp-common/nfp_cppat.h:574-606 | The dispatch over targets computes the encoding |
| CppCoder.EncodeBasic | user/nfpcore/nfp-common/nfp_cppat.h:52-238 | Masks, shifts and loops of the basic encoder |
| CppCoder.EncodeMu | user/nfpcore/nfp-common/nfp_cppat.h:357-490 | and of the memory-unit encoder with its locality bits |
| CppCoder.SteerPair | user/nfpcore/nfp-common/nfp_cppat.h:172-195 | The nested loops of mode 2 take the first table entry that fits |
| CppCoder.SteerTriple | user/nfpcore/nfp-common/nfp_cppat.h:216-232 | and those of mode 3 |
| CppCoder.AddrDecode | user/nfpcore/nfp-common/nfp_cppat.h:608-637 | The decoder |
| CppCoder.IidClear | user/nfpcore/nfp-common/nfp_cppat.h:639-723 | Clearing, with the fall-through of unsupported modes |
| CppCoder.WriteFull | user/nfpcore/nfp-common/nfp_cppat.h:101-107 | A whole island number is put into the window |
| CppCoder.SteerIndex | user/nfpcore/nfp-common/nfp_cppat.h:127-140 | Mode 1 sets or clears the index bit |
| CppCoder.MatchLow | user/nfpcore/nfp-common/nfp_cppat.h:184-187 | The inner loop finds the low bits that complete a table entry to the island |
| CppCoder.Replace | user/nfpcore/nfp-common/nfp_cppat.h:188-191 | The address then carries the window bits that select the island, and is otherwise what it was |
| CppCoder.ReadField | user/nfpcore/nfp-common/nfp_cppat.h:257-337 | Masks and shifts of the decoder |
| CppCoder.ClearField | user/nfpcore/nfp-common/nfp_cppat.h:652-668 | Masks of the clearing |
| BarWindow.ShownExactlyWhenInOneWindow | user/nfpcore/nfp_cpp_pcie_ops.c:132-246 | A nonempty range that does not wrap can be shown if and only if target and width are legal, the BAR is large enough for the kind of mapping, and every address lies in one window |
| BarWindow.ComputeBarIs | user/nfpcore/nfp_cpp_pcie_ops.c:132-246 | The word made of masked and shifted fields joined by or, with base and mask arithmetic on bits, is the word with every field beside the others, and the base the address rounded down; base bits beyond their room overlay the fields above |
| BarWindow.Compute | user/nfpcore/nfp_cpp_pcie_ops.c:132-246 | The computation step by step, the word growing by one field at a time, has this result |
| BarWindow.FixedHeaderIs | user/nfpcore/nfp_cpp_pcie_ops.c:168-173 | The fields of the fixed mapping, joined by or, do not overlap: they stand beside each other |
| BarWindow.BulkHeaderIs | user/nfpcore/nfp_cpp_pcie_ops.c:198-204 | So do those of the bulk mapping |
| BarWindow.MasksAre | user/nfpcore/nfp_cpp_pcie_ops.c:166-206 | Masking with the complement of the window size less one rounds down to a window, and masking with the window size less one leaves the rest |
| BarWindow.WindowIsBaseExactlyBelow40 | user/nfpcore/nfp_cpp_pcie_ops.c:194-243 | The window the configuration word opens is the base the driver records if and only if the address has at most 40 bits |
| BarWindow.FieldsAreAsAsked | user/nfpcore/nfp_cpp_pcie_ops.c:144-243 | For such addresses map type, length, target, token and action read back from the word, by shift and mask, as asked, cut to their widths |
| BarWindow.WordBits | user/nfpcore/nfp_cpp_pcie_ops.c:132-246 | In numbers: actions 0 and 32 get map type 1, need a BAR of 19 bits and place the base in 21 bits; any other gets map type 0 with the action in bits 20:16, needs 24 bits and places the base in 16; widths 4, 8 and 0 are coded 0, 1 and 3; target and token stand in bits 26:23 and 22:21 |
| BarWindow.AdmittedExactlyShown | user/nfpcore/nfp_cppcore.c:138-169 | For a range without island that passes the check against 40 address bits and is shown: window and fields are those asked for if and only if the range does not end at 2 to the 64th; otherwise the base bits set every bit of the map type |
| BarWindow.LastPageIsMisshown | user/nfpcore/nfp_cppcore.c:138-140 | The last page of the 64-bit range is such a range: its end wraps to 0, it passes the check and is shown by a word of map type 7 |
| BarWindow.TranslatedShown | user/nfpcore/nfp_cppcore.c:138-169 | For a range with an island, translated first: the window is the base recorded if and only if the address asked for has at most 40 bits, and the map type is never the general one |
| BarWindow.LongRangesNeverShown | user/nfpcore/nfp_cpp_pcie_ops.c:206-206 | No BAR shows a range of more than 1 GiB, even one whose end wraps |
| BarWindow.BasePlusOffset | user/nfpcore/nfp_cpp_pcie_ops.c:452-478 | The base is a multiple of the window, the masked offset used at acquisition lies inside the window, and together they are the CPP address |
| BarWindow.OneWindow | user/nfpcore/nfp_cpp_pcie_ops.c:206-206 | Comparing the aligned first and last addresses decides whether all addresses lie in one window |
| BarSlots.Pcie.AllocBar | user/nfpcore/nfp_cpp_pcie_ops.c:340-361 | The highest free BAR of the process, positions 1 to 3 for the primary and 4 to 6 for a secondary one, is locked; failure means all were locked |
| BarSlots.WidthsInOctets | user/nfpcore/nfp_target.h:24-35 | Access codes 1 and 2 mean 4 and 8 octets; code 0 is a width no BAR can have |
| BarSlots.Pcie.Reconfigure | user/nfpcore/nfp_cpp_pcie_ops.c:273-289 | A BAR is pointed at the range; it is left alone if the range cannot be shown, and only its recorded base changes if the configuration space is not mapped |
| BarSlots.Pcie.AreaInit | user/nfpcore/nfp_cpp_pcie_ops.c:407-450 | Refused without taking a BAR if the target has no such action or reads and writes differ in width, or if no BAR is free; otherwise the area gets a BAR no other live area holds, and succeeds if and only if that BAR can show the range; other areas are undisturbed |
| BarSlots.Pcie.Assign | user/nfpcore/nfp_cpp_pcie_ops.c:434-447 | The BAR taken is pointed at the area's range |
| BarSlots.Pcie.AreaAcquire | user/nfpcore/nfp_cpp_pcie_ops.c:452-478 | Base plus offset is the area's address, unless the map type reads as general |
| BarSlots.Pcie.AreaRelease | user/nfpcore/nfp_cpp_pcie_ops.c:491-498 | The BAR is free again; other areas are undisturbed |
| AreaTable.RunKeeps | user/nfpcore/nfp_cpp_dev_ops.c:91-209 | In every run of requests and releases two live areas overlap exactly when both are the last page of the 64-bit address space, whose end wraps to 0 |
| AreaTable.CollisionMissesOnlyTop | user/nfpcore/nfp_cpp_dev_ops.c:91-105 | This is exactly what the collision test misses |
| AreaTable.TopGivenTwice | user/nfpcore/nfp_cpp_dev_ops.c:91-189 | Requested twice, the last page is given twice |
| AreaTable.AutomaticPlacementSucceeds | user/nfpcore/nfp_cpp_dev_ops.c:161-179 | A request that leaves the place open is never refused for want of an offset |
| AreaTable.AnswerExactly | user/nfpcore/nfp_cpp_dev_ops.c:150-189 | For an offset asked for: invalid if and only if the size is neither 0 nor 4096 or the offset no multiple of 4096; colliding if and only if a live area overlaps, the last page apart; given, exactly there, if and only if neither and the area can be provided |
| AreaTable.OpenAnswer | user/nfpcore/nfp_cpp_dev_ops.c:150-189 | With the offset left open the range goes to 0 if that is free, else behind the first live area where it is; only the size can be invalid |
| AreaTable.ClearExactly | user/nfpcore/nfp_cpp_dev_ops.c:91-105 | Among live areas the collision test decides overlap, the last page apart |
| AreaTable.ReleaseTakesFirst | user/nfpcore/nfp_cpp_dev_ops.c:191-209 | A release takes away exactly the first area at the offset, unless that is mapped |
| AreaTable.ReleaseUndoesRequest | user/nfpcore/nfp_cpp_dev_ops.c:150-209 | Releasing what was just given hits it if and only if nothing live was at its offset, and then restores the list; otherwise the older area goes instead or, if mapped, nothing does |
| AreaTable.SharedOffsetExactly | user/nfpcore/nfp_cpp_dev_ops.c:91-105 | At the offset of a live area a range collides exactly when both are pages and not the last one |
| AreaTable.GrantThenRelease | user/nfpcore/nfp_cpp_dev_ops.c:150-209 | So a given area shares the offset of a live one only if one of them is empty or both are the last page |
| AreaTable.EmptyAreaMisreleased | user/nfpcore/nfp_cpp_dev_ops.c:150-209 | An empty area given at the offset of a live page: releasing it takes the page away |
| AreaTable.AreaList.RangeCheck | user/nfpcore/nfp_cpp_dev_ops.c:91-105 | The loop over live areas |
| AreaTable.AreaList.DoRequest | user/nfpcore/nfp_cpp_dev_ops.c:150-189 | The request on the list, with all its refusals |
| AreaTable.AreaList.DoRelease | user/nfpcore/nfp_cpp_dev_ops.c:191-209 | The release of the first area at an offset, unless it is mapped |
| AreaTable.RequestKeeps | user/nfpcore/nfp_cpp_dev_ops.c:150-189 | A request keeps live areas apart in this sense |
| AreaTable.ReleaseKeeps | user/nfpcore/nfp_cpp_dev_ops.c:191-209 | So does a release |
| AreaTable.AreaList.FindPlace | user/nfpcore/nfp_cpp_dev_ops.c:165-178 | The search for a place: 0, then behind each area in turn |
| ChunkedAccess.ReadTilesTile | user/nfpcore/nfp_cpp_dev_ops.c:436-482 | The areas of a read cover the range exactly once, in order, none crosses a multiple of 1 MiB, and all but the last end at one |
| ChunkedAccess.WriteTileCrosses | user/nfpcore/nfp_cpp_dev_ops.c:343-355 | A write opens a single area, which stays between boundaries exactly when the range does |
| ChunkedAccess.MoveArea | user/nfpcore/nfp_cpp_dev_ops.c:458-468 | The 64-byte loop moves the area's bytes, 64 at a time; on a failure, a prefix |
| ChunkedAccess.MoveRange | user/nfpcore/nfp_cpp_dev_ops.c:443-482 | The loop over areas moves the range if nothing fails and no area is longer than the largest window; on a failure, a prefix; other bytes stay |
| ChunkedAccess.DevRead | user/nfpcore/nfp_cpp_dev_ops.c:419-482 | The read call: complete, with the range in the buffer, if no opening and no transfer fails; on a failure, a prefix of it |
| ChunkedAccess.DevWrite | user/nfpcore/nfp_cpp_dev_ops.c:312-395 | The write call: if nothing fails, complete if and only if the range is not longer than the largest window, else an error before any byte; on a failure, a prefix is written |
| ChunkedAccess.WriteThenRead | user/nfpcore/nfp_cpp_dev_ops.c:312-482 | With no failure what was written is read back, for every range a write can open |
| ChunkedAccess.MovedOn | user/nfpcore/nfp_cpp_dev_ops.c:458-468 | Pieces that follow each other add up to the range |
| IntrusiveList.Turn | user/nfpcore/list.h:34-38 | A ring may be read from any of its nodes |
| IntrusiveList.InitListHead | user/nfpcore/list.h:34-38 | An empty list |
| IntrusiveList.AddBetween | user/nfpcore/list.h:64-75 | Insertion between neighbours |
| IntrusiveList.ListAdd | user/nfpcore/list.h:85-88 | Insertion first |
| IntrusiveList.ListAddTail | user/nfpcore/list.h:99-102 | Insertion last |
| IntrusiveList.ListDel | user/nfpcore/list.h:145-150 | Removal; the rest is a list and the node is poisoned |
| IntrusiveList.ListDelInit | user/nfpcore/list.h:196-200 | Removal leaving the node an empty list |
| IntrusiveList.ListReplace | user/nfpcore/list.h:159-166 | Another node takes the place; an empty list is overwritten |
| IntrusiveList.ListSwap | user/nfpcore/list.h:180-190 | Two nodes exchange places, also when adjacent in either order |
| IntrusiveList.ListSwapAcross | user/nfpcore/list.h:180-190 | Nodes of two lists exchange places |
| IntrusiveList.ListMove | user/nfpcore/list.h:207-211 | Move to the front of the same list |
| IntrusiveList.ListMoveTo | user/nfpcore/list.h:207-211 | Move to the front of another list |
| IntrusiveList.ListMoveTail | user/nfpcore/list.h:218-223 | Move to the end of the same list |
| IntrusiveList.ListMoveTailTo | user/nfpcore/list.h:218-223 | Move to the end of another list |
| IntrusiveList.ListBulkMoveTail | user/nfpcore/list.h:234-246 | A segment moves to the end; if there already nothing changes |
| IntrusiveList.ListRotateLeft | user/nfpcore/list.h:302-310 | The first item becomes the last |
| IntrusiveList.ListRotateToFront | user/nfpcore/list.h:319-328 | The items are rotated until the given one is first |
| IntrusiveList.ListCutPosition | user/nfpcore/list.h:365-377 | The list is split behind a node; an empty list is left alone |
| IntrusiveList.ListCutBefore | user/nfpcore/list.h:393-407 | The list is split before a node |
| IntrusiveList.SpliceBetween | user/nfpcore/list.h:409-421 | The items of one list are put between neighbours of another |
| IntrusiveList.ListSplice | user/nfpcore/list.h:428-433 | Concatenation in front |
| IntrusiveList.ListSpliceTail | user/nfpcore/list.h:440-445 | Concatenation behind |
| IntrusiveList.ListSpliceTailInit | user/nfpcore/list.h:471-478 | Concatenation behind, leaving the source empty |
| IntrusiveList.Questions | user/nfpcore/list.h:254-267 | What the tests for first, last and singular mean |
| IntrusiveList.EmptyList | user/nfpcore/list.h:274-277 | What the test for empty means |
| IntrusiveList.Unlink | user/nfpcore/list.h:111-115 | The neighbours of a removed node point at each other |
| IntrusiveList.CutPosition | user/nfpcore/list.h:339-349 | Items up to a node move to the other head |
| IntrusiveList.CutBefore | user/nfpcore/list.h:401-406 | Items before a node move to the other head |

## Left out

- Hardware intrinsics: DMA descriptors, NBI, CTM and BLM calls, signals and MAC egress commands; a transfer is a copy that completes before the next step.
- Order on the wire: after the head is committed contexts send without sequencing, so only "handed over once" is stated.
- Weak memory: the barriers in the code are taken as sequentially consistent.
- Fairness: the spinning loops are single comparisons in the step system; that every state can be drained and that distances shrink is stated, not that the scheduler is fair.
- The wait loop of `nfp_cpp_mutex_lock`: a busy device mutex is reported as `Waiting`, as nobody else acts within one process's calls; the interleaved protocol has the repeated attempts.
- Warning messages, timeouts and the repetition in `nfp_resource_acquire`, which no attempt calls for.
- ResourceOutcome.OutcomeExactly: `nfp_resource_acquire` returns only NULL on a refusal; the numbers are those its attempt returns, and -1 stands for a device handle that cannot be obtained.
- Integer widths of use counts and key fields of handles: use counts are unbounded; depths are bounded by the code itself.
- MutexCache.Cpp.FreeMutex: the cache is a sequence of shared handle objects, not nodes with their own links; `IntrusiveList` treats linking.
- Data races between threads of one process on the handle cache.
- Region descriptors of resources (address, size, CPP identifier): fields copied out of the table entry; an entry is readable when its lock words are.
- Out-of-memory returns, except where they leave state behind (an area request that finds no memory).
- Push and pull width tables, which are flat switches: their answer for an area is a parameter.
- `nfp_enable_bars` and the mapping of BARs: a BAR comes with its bit size, below 31, and whether it is mapped. General mapping is never asked for.
- BarSlots.Pcie.AreaInit: when the range cannot be shown the BAR stays locked, as in the code; that no BAR is ever lost is therefore not claimed.
- BarWindow.TranslatedShown: addresses are numbers here and 64-bit words in `CppAddress.TranslationKeepsAbove40`; that both speak of the same bits from the 40th up is by reading.
- CppWindow.SteeredSelects: C integers are modelled by their 64-bit sign extension; undefined shifts of unsupported modes have no effect in the model.
- ChunkedAccess.DevRead: which areas can be opened is an input, except that one longer than the largest window never can.
- ChunkedAccess.MoveRange: a failed opening of an area and a failed transfer are reported as the same input/output error.
- Socket shim, poll server, sysfs and PCI probing, memory zones, page maps, process file locks, NSP, hwinfo, MIP, nffw and rtsym readers, the port table, statistics and logging: input and output with little to prove.
- list.h: poisoning is modelled by null pointers; `list_splice_init`, `list_replace_init` and the variants that only combine modelled operations would add easy members.
