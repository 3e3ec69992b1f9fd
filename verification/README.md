# Donar: verified model of the link layer

Donar carries a datagram stream (a VoIP call) over up to 64 Tor links at once. This project models,
in Dafny, the four small stateful layers that this rests on, and two helpers of the same kind, and
proves what they promise. Every layer that works in place is a class whose methods are proved against
a specification; what the program promises over whole runs is proved about that specification.

* **Packet chains and framing** (`PacketChain`, `BufferPacket`, `Framing`, `Proxy`, `Datagrams`). Packets
  with a size field and a READ_NEXT bit lie end to end in one byte array. The array, the in-place append,
  and the resumable reader and writer are modelled byte by byte; sockets give and take arbitrary pieces.
  `Proxy` joins them with the pool: queued buffers on their way out through a socket. `Datagrams` does
  the same for the datagram sockets at both ends.
* **Buffer pool** (`BufferPool`). 1024 buffers move between a free queue, one slot per descriptor, an
  application map and one write queue per descriptor.
* **Lightning** (`LightningMonitoring`, `LightningHistory`, `LightningProtocol`, `LightningPacket`,
  `LightningRanking`, `LightningScheduler`, `LightningFairness`, `Padding`). Numbering, loss
  detection in a ring of 2048 entries, scoring and ranking of links, tags, swaps, selection of the
  least recently used link, and padding of cells with earlier datagrams.
* **Thunder and dup2** (`ThunderCounting`, `ThunderTraces`, `ThunderScheduler`, `ThunderDelivery`,
  `Dup2`). Redundant sending, round-robin visit counts, blacklisting, and duplicate suppression with
  16-bit ids.
* **Helpers**: the resumable SOCKS5 readers (`Socks5`, after sections 4 to 6 of RFC 1928), the tick
  alignment of the measurement tool (`MeasureTick`) and time as pairs of fields (`Timespecs`).
  `Basics` has a few definitions that all of them share.

The main results:

* `Framing.Transfer`: whatever pieces both kernels choose, the receiver gets a prefix of the chains
  sent; without errors each side gets on by a byte with every useful answer of its socket, so with
  enough of them it gets exactly the chains sent.
* `Proxy.Flush`: the same for a queue of pool buffers, which come back to the pool free and zeroed, in
  the order in which they were queued.
* `Socks5.Connect` and `Confirm`: a request or reply that arrives in any non-empty pieces is decoded to
  the same fields; `ServeRequest` and `AwaitReply` say this for every message, also for rejected ones, of
  which just as much is read.
* `PacketChain.ParseExact`: bytes read as a chain exactly when they start with that chain's encoding.
* `BufferPools.BuffersConserved` and the pool's `Valid`: no operation loses or doubles a buffer, leaves
  a free one dirty, or disturbs the order of a write queue.
* `LightningHistory.RingRefinesLog`, `LogExact` and `DoneExact`: the ring of 2048 entries agrees with an
  unbounded record, and both say of every id exactly what its arrivals and its announcement say, also if
  packets are repeated.
* `LightningProtocol.EndToEnd`: over every run with a network that delays, reorders, drops and repeats
  packets, the receiver blames the link that was really used, and knows the statistics that the sender was
  given with the newest packet.
* `LightningScheduler.Scheduler.OnDatagram`: tags, ranking, swap and selection of every datagram; swaps
  are never closer than the window (`Timespecs.NeverEarly`, kept in the scheduler's `Valid`). The ranking
  made from the history has exactly the links that are not connected at its end (`RankingExact`).
* `LightningFairness.DispatchAll` and `HandleWhile`: over any number of datagrams during which a category
  keeps its links, the scheduler picks each of k links once in any k selections.
* `Padding.Padder.Pad`: which earlier datagrams fill a cell, and which datagram ends the program, also
  after thunder's 16-bit counter has wrapped.
* `ThunderCounting.ExpectedExact`: what the receiver expects of each link is what the sender did, up to
  what a reset of the blacklist has made of the counts.
* `ThunderScheduler.Thunder.Schedule`: a datagram is delivered if and only if some connected link is not
  blacklisted; otherwise all links are reset, within (links + 1)² visits. Its copies are exactly what these
  visits put on the links in the system of `ThunderCounting` (`ThunderTraces.CopiesAreSent`).
* `ThunderDelivery.Delivery`: whatever frames of a sender arrive in whatever order, exactly the datagrams of
  the accepted ids are delivered, in order, without gaps exactly when frames reach back far enough.

Where the code does not do what one would expect, the code is modelled and the exact condition proved:

* A window of one second or more is stored with nanoseconds that repeat the whole window
  (src/utils.c:147-152). A swap is never early, but up to two seconds late (`Timespecs.ShortWindow`,
  `MiddleWindow`, `LongWindow`, `LateSwap`). For the same reason a datagram sent up to a second after the
  clock has passed the window still ends the program (`WindowExit`, `LateExit`). Two seconds after the
  window no swap is refused any more (`NeverTooLate`).
* Averages start from -1 (src/algo_lightning.c:322): `LightningRanking.AverageExact` says when the result
  is still the average.
* The ranking puts measured links first only for scores up to 32767 (`LightningRanking.MeasuredFirst`).
* Ids are compared modulo 65535 but wrap modulo 65536 (src/utils.c:73-76): dup2 loses every 65536th
  datagram on a perfect network (`Dup2.PerfectNetwork`).
* Thunder compares ids without wrapping: even a perfect network delivers exactly the first 65534
  datagrams (`ThunderDelivery.PerfectNetwork`).
* Thunder's key for stored datagrams has 16 bits, and the last keys before the wrap are never dropped: the
  program ends exactly at datagram 131071 - total_links (`Padding.Padder.Thunder`, `Pad`).
* A packet of lightning that arrives twice counts as late, whether or not it was missed
  (`LightningHistory.DoneExact`), by the time since the last gap seen in its slot, of whatever id
  (`DetectedExact`, `LightningRanking.RepeatIsDelay`).
* The writer for datagram sockets cannot go on in the middle of a buffer: `Datagrams.ResumesExactly` says
  when it would have to.
* Thunder's visit counter has 8 bits: the receiver's count is right exactly while no link is skipped 256
  times in a row (`ThunderCounting.ReceivedExact`).
* The first packets of lightning name link 0 for some packets that never existed, since its ring of links is
  only initialised in part (`LightningProtocol.BeforeFirst`); those are never announced missing
  (`AnnouncedExact`).
* A packet that is 2048 ids late or more overwrites a newer entry of the ring
  (`LightningHistory.StepLate` is the exact condition).

Conventions: sizes and ids on the wire are little-endian, as on the machines the program targets;
integers that the program narrows are narrowed explicitly; `exit(EXIT_FAILURE)` is a result value. Clock
readings, connected links, open sockets and how many bytes a socket takes are parameters. Ghost
parameters and fields (such as the chain a buffer holds) only serve the specification.

## Model

| member | source | states |
|---|---|---|
| `PacketChain.ParseEncode` | src/packet.c:18-23 | Following sizes and READ_NEXT bits over a printed chain gives back that chain, whatever bytes follow it |
| `PacketChain.EncodeParseFrom` | src/packet.c:18-23 | Every chain the reader accepts prints back to the very bytes it was read from |
| `PacketChain.ParseExact` | src/packet.c:18-56 | Bytes are read as chain c if and only if they start with the encoding of c |
| `PacketChain.HoldsParse` | src/packet.h:90-97 | A buffer that holds a chain followed by zeros can be read as that chain only, the empty one included |
| `PacketChain.HeaderAt` | src/packet.h:59-88 | The four header bytes of packet i, and its body, lie where the sizes of the packets before it say |
| `PacketChain.WalkAt` | src/packet.c:18-34 | The i-th step along the links reaches the i-th packet, and the walk stops at the last one, or on the zeros behind an open chain |
| `PacketChain.WalkEnd` | src/packet.c:36-41 | The end found by walking is the end of the chain, also in an empty buffer |
| `PacketChain.LinkLast` | src/packet.c:55-56 | Setting the last packet's READ_NEXT bit is exactly what opens the chain for one more packet |
| `PacketChain.HoldsSnoc` | src/packet.c:58-61 | Copying a packet over the zeros behind an opened chain yields the longer chain with a zero tail |
| `PacketChain.ArrivedWhole` | src/packet.c:103-106 | Whenever a packet is complete, the links announce one packet more than was counted if and only if packets of the chain are missing |
| `PacketChain.ArrivedSize` | src/packet.c:84-94 | Once two bytes of a packet have arrived, its size field is the true size |
| `PacketChain.SyncedMore` | src/packet.c:85-90 | Moving bytes from the socket to the buffer keeps buffer and rest of the stream in step |
| `PacketChain.StreamAt` | src/packet.c:114-132 | A stream of chains splits at every chain boundary |
| `BufferPackets.BufferPacket.constructor` | src/packet.h:90-97 | A fresh buffer is zero and holds the empty chain |
| `BufferPackets.BufferPacket.ApNext` | src/packet.c:18-23 | The successor in the array is the one that the bytes' size and READ_NEXT bit give |
| `BufferPackets.BufferPacket.LastAp` | src/packet.c:29-34 | Terminates at the start of the chain's last packet, or behind an open chain |
| `BufferPackets.BufferPacket.CountAp` | src/packet.c:43-48 | Counts the packets that the links announce, including one that has not arrived |
| `BufferPackets.BufferPacket.FullSize` | src/packet.c:50-52 | Is the total size of the packets in the buffer |
| `BufferPackets.BufferPacket.OpenChain` | src/packet.c:55-56 | Only the READ_NEXT bit of the last packet changes; an empty buffer is left alone |
| `BufferPackets.BufferPacket.PutPacket` | src/packet.c:58-61 | Exactly the packet's bytes are replaced, and its READ_NEXT bit is clear |
| `BufferPackets.BufferPacket.AppendAp` | src/packet.c:54-63 | The buffer's chain c becomes c + [packet]; beyond the packet's bytes only the link bit of the previous last packet changes, and the tail stays zero |
| `BufferPackets.BufferPacket.Read` | src/packet.c:85-88 | What is read is exactly what the offer and the data allow: an offer of bytes moves the smallest of offer, room and data; else EAGAIN or an error |
| `BufferPackets.BufferPacket.CurrentAp` | src/packet.c:75-81 | Walking over the complete packets leads to the start of the current one |
| `BufferPackets.BufferPacket.ReadUpTo` | src/packet.c:84-101 | Reads no byte beyond the goal and stays in step with the stream; READY exactly when the goal is reached; every useful offer used up has moved a byte, but for one that found no data |
| `BufferPackets.BufferPacket.ReadSizeField` | src/packet.c:84-91 | Reads no byte beyond the size field; READY only with the current packet's true size in the buffer, even if EAGAIN came between its two bytes; useful offers move bytes |
| `BufferPackets.BufferPacket.ReadCurrentAp` | src/packet.c:75-101 | READY exactly when the current packet is complete, with nothing read beyond it; useful offers move bytes |
| `BufferPackets.BufferPacket.CountCurrentAp` | src/packet.c:103-106 | The comparison of the two counts tells the last packet of the chain exactly |
| `BufferPackets.BufferPacket.ReadNextAp` | src/packet.c:74-107 | One turn of the loop completes one packet more, and tells whether it was the last, or leaves a state from which the next call goes on |
| `BufferPackets.BufferPacket.ReadPacketFromTcp` | src/packet.c:65-112 | From any point of a chain: READY with exactly this chain, a zero tail and no byte of the next chain read; otherwise a state from which the next call goes on; useful offers move bytes, and only an offered error fails |
| `BufferPackets.BufferPacket.Send` | src/packet.c:121-123 | What goes out is the next part of the chain's encoding, exactly as much as the offer allows |
| `BufferPackets.BufferPacket.WritePacketToTcp` | src/packet.c:114-132 | One send of what is left, exactly as the offer allows: partial sends add up to the encoding without repetition or gap; READY exactly at its end, and then the buffer is reset for reading |
| `BufferPackets.BufferPacket.Clear` | src/algo_utils.c:24-27 | A buffer given back holds the empty chain and is ready for reading |
| `Framing.Load` | src/packet.c:54-63 | Repeated appends build exactly the given chain |
| `Framing.SendOne` | src/proxy.c:116-140 | Repeated writes emit a prefix of the chain, and all of it when READY; they stop short only without offers or on an error, and every useful offer used up sends a byte |
| `Framing.SendAll` | src/proxy.c:103-141 | What a connection carries is the encodings of the chains in order, the last one perhaps cut; cut only without offers or on an error, and every useful offer used up sends a byte |
| `Framing.ReceiveOne` | src/proxy.c:50-67 | One chain, read in any pieces into a zeroed buffer, is the chain sent; reading stops before its end only without data, offers or on an error, and every useful offer used up reads a byte |
| `Framing.ReceiveAll` | src/proxy.c:50-74 | The chains received are a prefix of those sent, and every byte is in a chain received, in the current one, or unread; nothing is left unread with offers left and no error, and useful offers read bytes |
| `Framing.WholeStream` | src/packet.c:65-132 | Only the whole list of chains accounts for all bytes of the stream |
| `Framing.Transfer` | src/packet.c:65-132 | Round trip: under any fragmentation on both sides every byte that goes out and is read is in a chain received or in the one under way; without errors each side moves a byte per useful offer, and with enough of them exactly the chains sent are received |
| `BufferPools.BufferPool.constructor` | src/algo_utils.c:42-51 | All 1024 buffers are zero and free |
| `BufferPools.BufferPool.GetReadBuffer` | src/algo_utils.c:64-85 | The descriptor's buffer, else the first free one, else a subscription; ownership stays a partition |
| `BufferPools.BufferPool.GetWriteBuffer` | src/algo_utils.c:97-114 | The descriptor's buffer, else the head of its queue: buffers are taken in the order they were queued |
| `BufferPools.BufferPool.TakeFromQueue` | src/algo_utils.c:105-113 | The head of the queue comes into use and the order of queued and taken buffers is kept |
| `BufferPools.BufferPool.MoveReadToWrite` | src/algo_utils.c:116-137 | The buffer in use goes to the end of the other descriptor's queue; without one the program ends |
| `BufferPools.BufferPool.MoveUsedToFree` | src/algo_utils.c:139-162 | The buffer in use is zeroed and appended to the free queue, and nothing else changes |
| `BufferPools.BufferPool.MoveReadToApp` | src/algo_utils.c:164-177 | A key in use ends the program; otherwise the buffer, or NULL if there was none, is stored under the key |
| `BufferPools.BufferPool.MoveAppToWrite` | src/algo_utils.c:179-200 | The stored buffer goes to the end of the queue; without one nothing happens |
| `BufferPools.BufferPool.MoveAppToFree` | src/algo_utils.c:202-215 | The stored buffer is zeroed and freed; without one the program ends |
| `BufferPools.BufferPool.InjectToWrite` | src/algo_utils.c:217-237 | A zero buffer goes to the end of the queue, if one is free |
| `BufferPools.BufferPool.DupToWrite` | src/algo_utils.c:239-247 | A copy goes to the end of the queue; it crashes exactly when no buffer is free |
| `BufferPools.BufferPool.DupToApp` | src/algo_utils.c:249-269 | A copy is stored under the key; the program ends exactly when a buffer is free and the key in use |
| `BufferPools.BufferPool.DrainOnError` | src/proxy.c:176-192 | Terminates; the descriptor owns no buffer and no subscription; its buffers are free in their order and zeroed, and all others keep owner and contents |
| `BufferPools.BufferPool.DrainQueue` | src/proxy.c:183-186 | All that waits for the descriptor is freed in order and zeroed, and nothing else changes |
| `BufferPools.BufferPool.DrainOne` | src/proxy.c:183-186 | One round: the buffer in use is zeroed and free, and the next one of the queue, if any, in use |
| `BufferPools.DrainNext` | src/algo_utils.c:97-114 | Taking the next buffer leads from one round of draining to the next, or to its end |
| `BufferPools.ZeroedAt` | src/proxy.c:176-192 | Exactly the buffers given back are zero afterwards, and all others as they were |
| `Proxy.OnTcpWrite` | src/proxy.c:103-141 | The next part of the chain in the descriptor's buffer, or in the head of its queue, goes out as the socket allows; a partly written buffer stays in use, and a finished or failed one is zeroed and free, with all others unchanged |
| `Proxy.FlushNext` | src/proxy.c:103-141 | One call keeps output, queue and buffers in step: it continues the same chain or goes on to the next one |
| `Proxy.OutputMore` | src/proxy.c:124-126 | The next part of a chain continues what has gone out, and a finished one leads on to the next |
| `Proxy.Flush` | src/proxy.c:103-141 | Pool, buffers and socket together, from any point of the first chain: what goes out is the rest of the queued chains in their order up to some byte; with enough useful offers and no error all of them do, and their buffers come back free in that order |
| `Datagrams.WritePacketToUdp` | src/packet.c:134-170 | Exactly the payloads of the datagram packets go out, in their order, up to the first that the socket does not take; READY exactly when all are out, and then the buffer is reset for reading |
| `Datagrams.SendsAll` | src/packet.c:138-163 | All go out if and only if the socket has for each an answer that takes it whole |
| `Datagrams.SendAp` | src/packet.c:139-161 | One packet: its payload is sent and counted, or it is skipped if it is no datagram |
| `Datagrams.Continued` | src/packet.c:138-163 | After one packet, what the rest will do is what was left to do |
| `Datagrams.ResumesExactly` | src/packet.c:136 | A call that ended with EAGAIN can be made again if and only if no payload went out before the one refused; with one datagram in the buffer, always |
| `Datagrams.StuckAfterOne` | src/packet.c:136-161 | With two datagrams in the buffer and only the second refused, the next call would start outside the buffer |
| `Datagrams.OnUdpWrite` | src/proxy.c:143-174 | The datagrams of the descriptor's buffer, or of the head of its queue, go out as the socket allows; on EAGAIN the buffer stays in use, otherwise it is zeroed and free, with all others unchanged |
| `Datagrams.ReadPacketFromUdp` | src/packet.c:172-214 | READY exactly with a datagram of 1 to 65529 bytes, and then the buffer holds the chain of its one packet; empty ones are swallowed and longer ones an error |
| `Datagrams.DatagramPayload` | src/packet.c:134-214 | A datagram read into a buffer is written out again unchanged |
| `BufferPools.TakeInOrder` | src/algo_utils.c:107-111 | Taking the head of a queue keeps first in, first out, for every descriptor |
| `BufferPools.QueueInOrder` | src/algo_utils.c:127-136 | Appending to a queue keeps first in, first out, for every descriptor |
| `BufferPools.PlacesByOwner` | src/algo_utils.c:29-40 | Every place holds exactly the buffers whose owner it is, and no buffer is in none |
| `BufferPools.BuffersConserved` | src/algo_utils.c:29-40 | Free, used, stored and waiting buffers always add up to the size of the pool |
| `Timespecs.NormalOrder` | src/utils.c:109-145 | On normalised times the field-wise comparisons and the difference are those of the instants, and the error exit is taken exactly for a greater start |
| `Timespecs.WindowExit` | src/utils.c:124-152 | Exactly when taking the window from the clock ends the program: below one second while the clock is within it; else as long as the whole seconds do not exceed those of the window, so up to a second longer |
| `Timespecs.LateExit` | src/algo_lightning.c:134-165 | With the default window of 2 s, the program still ends 2.9 s after the clock starts |
| `Timespecs.ShortWindow` | src/utils.c:147-152 | Below one second the window test is exact |
| `Timespecs.MiddleWindow` | src/utils.c:147-152 | Between one and two seconds: the exact condition under which the window is over |
| `Timespecs.LongWindow` | src/utils.c:147-152 | From two seconds on the test compares whole seconds and waits for two more: the exact condition |
| `Timespecs.NeverEarly` | src/algo_lightning.c:474-477 | Whatever the window, if the test lets a swap happen, the window has passed since the last one |
| `Timespecs.NeverTooLate` | src/algo_lightning.c:474-477 | Whatever the window, two seconds after it has passed the test lets a swap happen |
| `Timespecs.LateSwap` | src/algo_lightning.c:134-165 | With the default window of 2 s, a swap 3.9 s after the last one is still refused |
| `MeasureTick.TickAtProduct` | src/measure.c:142-149 | The k-th tick is k intervals after the emission |
| `MeasureTick.TicksFirst` | src/measure.c:142-149 | A tick lies after now exactly from the computed number on |
| `MeasureTick.MeasureState.Generate` | src/measure.c:122-130 | The counter goes up by one, modulo 2^64 |
| `MeasureTick.MeasureState.Advance` | src/measure.c:143-147 | One interval later as an instant, although the carry test leaves a full second of nanoseconds standing |
| `MeasureTick.MeasureState.NextTick` | src/measure.c:132-155 | Terminates with the first tick strictly after now and moves the counter to the number before it |
| `MeasureTick.MeasureState.NextPacket` | src/measure.c:122-155 | The packet generated next carries the number of that tick, and every earlier tick is not after now |
| `SerialIds.RingOrder` | src/utils.c:73-89 | Any two ids are comparable, in one way only, except 0 and 65535, which are each greater than the other |
| `SerialIds.RingGeDistance` | src/utils.c:73-76 | The comparison told by the distance of the two ids, for all ids |
| `SerialIds.RingGeCounters` | src/utils.c:73-76 | For counters at most 32767 apart the wrapped comparison is theirs, with one exception: 65535 looks as new as the 0 after it |
| `Dup2.Dup2.OnStream` | src/algo_dup2.c:26-82 | Last port and last id of the chain decide: missing data ends the program, an id that is not newer is a duplicate, a newer one becomes the last id whether or not its socket exists |
| `Dup2.Dup2.Tag` | src/algo_dup2.c:88-95 | The n-th datagram gets id n modulo 65536 |
| `Dup2.ScanTagged` | src/algo_dup2.c:38-49 | A datagram followed by its metadata scans to its own port and id |
| `Dup2.RunIsIdeal` | src/algo_dup2.c:57-65 | Within a window of 32767 the wrapping ids accept exactly what unbounded numbers would, but for id 0 right after 65535 |
| `Dup2.IdealIncreases` | src/algo_dup2.c:57-65 | Acceptance by unbounded numbers is strictly increasing |
| `Dup2.RunIncreases` | src/algo_dup2.c:57-65 | Over every run within the window, deliveries are strictly increasing: none twice, none out of order |
| `Dup2.EveryWrapIsLost` | src/algo_dup2.c:57-65 | In-order arrivals from any point on: exactly the multiples of 65536 are not accepted |
| `Dup2.PerfectNetwork` | src/algo_dup2.c:57-95 | Even a perfect network loses every 65536th datagram, and no other |
| `LightningMonitoring.Monitor.Monitoring` | src/algo_lightning.c:243-273 | One packet takes the ring, the highest id and the remote statistics to the state of the specification; only a new highest id updates the statistics |
| `LightningMonitoring.AnnounceExact` | src/algo_lightning.c:254-265 | Every missing id within reach gets its entry with its link, the guard never fires, and no other recent slot changes |
| `LightningMonitoring.SlotsDiffer` | src/algo_lightning.c:258-269 | Fewer than 2048 ids never share a slot |
| `LightningHistory.StepNew` | src/algo_lightning.c:243-273 | A new highest id keeps ring and unbounded record in agreement and is recorded in order |
| `LightningHistory.StepLate` | src/algo_lightning.c:267-273 | A late or repeated id keeps the agreement if and only if it is within the last 2048, or nothing is known of the id whose slot it takes |
| `LightningHistory.SecondArrival` | src/algo_lightning.c:267-273 | A second arrival of an id that came in order turns its entry into OOO_DONE with the detection time left over in the slot; nothing else changes |
| `LightningHistory.RingRefinesLog` | src/algo_lightning.c:243-274 | Over every run in which no packet is 2048 ids late, repeated ones included, the ring agrees with an unbounded map on all of the last 2048 ids |
| `LightningHistory.AnnouncerExact` | src/algo_lightning.c:254-265 | An id is announced missing by at most one packet, the first one beyond it, and never once it has arrived |
| `LightningHistory.ExpectedNext` | src/algo_lightning.c:254-273 | What one more arrival, repeated or not, changes in what is to be recorded |
| `LightningHistory.LogExact` | src/algo_lightning.c:254-273 | Over every run, also with repeated packets, an id is in order, missing, late or repeated exactly as its arrivals and its announcement say, with those links and times |
| `LightningHistory.NewHighestInOrder` | src/algo_lightning.c:267-273 | A packet that raised the highest id is in order until it comes again, and never late |
| `LightningHistory.OutOfOrderExact` | src/algo_lightning.c:254-273 | An id that arrived is late if and only if an earlier packet announced it missing, and repeated if and only if none did and it came more than once |
| `LightningHistory.DoneExact` | src/algo_lightning.c:254-273 | Over every run in which no packet is 2048 ids late, an entry of the ring is OOO_DONE if and only if its id arrived and was announced missing, or arrived at least twice; exact conditions also for the other two states |
| `LightningHistory.RunPlaced` | src/algo_lightning.c:254-273 | Over every run, however late its packets, each entry is in the slot of its id and none is newer than the highest |
| `LightningHistory.GuardNeverFires` | src/algo_lightning.c:257-265 | Over every run, the entry-already-exists guard never fires: every id announced gets its entry |
| `LightningHistory.DetectedExact` | src/algo_lightning.c:254-273 | Over every run, the detection time of an entry is that of the last gap seen in its slot, whatever id it was for |
| `LightningHistory.RunTimely` | src/algo_lightning.c:251-273 | With a monotonic clock no entry lies ahead of now and none was finished before it was detected, duplicates and late packets included |
| `LightningHistory.StatsNeverAbort` | src/algo_lightning.c:331-343 | The differences of entry times in the statistics never reach the error exit, and their milliseconds are within the clock |
| `LightningProtocol.SendContext.constructor` | src/algo_lightning.c:127-154 | The ring of links starts without links and ids start at 1 |
| `LightningProtocol.SendContext.SendMessage` | src/algo_lightning.c:394-453 | Without a link or its socket the packet is dropped and takes no id; otherwise it carries the next id, the links in the ring and the statistics given, and the ring remembers its own link |
| `LightningProtocol.SendKeeps` | src/algo_lightning.c:420-444 | After a send the ring holds the true links of the last 64 packets, and every list of links on the way is right |
| `LightningProtocol.AnnouncedExact` | src/algo_lightning.c:254-265 | Whatever id is announced missing exists, and the link named is the one that carried it |
| `LightningProtocol.DeliverKeeps` | src/algo_lightning.c:243-273 | Delivering any packet, in any order and any number of times, keeps all entries true |
| `LightningProtocol.Attribution` | src/algo_lightning.c:221-275 | Over every run: each entry with an id names the link that carried it, every list on the way is right, and the remote statistics are those in the newest packet |
| `LightningProtocol.RunGiven` | src/algo_lightning.c:221-453 | What was sent on which link and with which statistics, and the newest id received, are what the events of the run say |
| `LightningProtocol.EndToEnd` | src/algo_lightning.c:221-453 | Told from the events alone: each entry and each list of links names the link chosen for the packet, and the remote statistics are those that the sender was given with the newest packet delivered |
| `LightningProtocol.BeforeFirst` | src/algo_lightning.c:152-154 | What the ring and the lists of the first packets say of ids that no packet has: no link, or link 0 where the ring was not initialised |
| `LightningPacket.LeRoundTrip` | src/packet.h:70-73 | A 64-bit id survives its byte form |
| `LightningPacket.LeAt` | src/packet.h:70-73 | Byte i of an id is the one of weight 256 to the i |
| `LightningPacket.StatsRoundTrip` | src/algo_lightning.c:428-433 | 16-bit statistics, negative ones included, survive their byte form |
| `LightningPacket.ToPacket` | src/algo_lightning.c:159-164 | The monitoring packet has exactly the announced size, at most 204 bytes |
| `LightningPacket.PacketRoundTrip` | src/algo_lightning.c:232-243 | Id, list of links and statistics read from the packet are those written, with the same parameters on both ends |
| `LightningPacket.FindMonitoring` | src/algo_lightning.c:226-230 | Finds the first monitoring packet, and ends the program exactly when there is none |
| `LightningPacket.Carry` | src/algo_lightning.c:420-433 | Behind any padded datagrams, through bytes and back, the message is found and unchanged |
| `LightningRanking.AverageExact` | src/algo_lightning.c:322-360 | The computed average is the true one, rounded down, if and only if the sum does not divide evenly or is zero over two packets or more; else it is one less |
| `LightningRanking.CountsExact` | src/algo_lightning.c:330-332 | Which entries count: of a link that exists, and still missing or within the window; the exact age up to which they do, whatever the window |
| `LightningRanking.DeltaExact` | src/algo_lightning.c:333-345 | The delay of an entry: none in order, since its detection when missing, from there to its arrival when late, in whole milliseconds |
| `LightningRanking.OneEntry` | src/algo_lightning.c:328-355 | Each entry has its own part in sum and number, and changing it changes just that |
| `LightningRanking.NoEntry` | src/algo_lightning.c:328-355 | Without an entry that counts, both are zero |
| `LightningRanking.NarrowExact` | src/algo_lightning.c:362 | The narrowed value fits its type, differs by whole multiples of its range, and is unchanged if it fits |
| `LightningRanking.MergeExact` | src/algo_lightning.c:366-371 | The merged score is the mean of what both sides measured, rounded down, or what one of them did |
| `LightningRanking.SumNonNegative` | src/algo_lightning.c:328-355 | On entries no newer than the clock no delay is negative, so the sums that are averaged never are |
| `LightningRanking.AverageRange` | src/algo_lightning.c:325-360 | An average is a delay or the mark of an unmeasured link |
| `LightningRanking.RepeatIsDelay` | src/algo_lightning.c:267-343 | Over runs: a packet that arrives more than once without having been missed counts as a delay since the last gap seen in its slot, of whatever id, or since the start of the clock |
| `LightningScheduler.FinalScoreExact` | src/algo_lightning.c:325-386 | Every final score is at least -2, and is -2 exactly for a link that is not connected |
| `LightningRanking.ReorderedRanking` | src/algo_lightning.c:388-391 | Reordering the entries keeps every link in exactly one place |
| `LightningRanking.Qsort` | src/algo_lightning.c:389-391 | The result is ordered by the program's comparison and has the same entries |
| `LightningRanking.RankingOrder` | src/algo_lightning.c:304-311 | With scores in range: measured links by score, then unmeasured, then disconnected ones; `RankingExact` applies it to the ranking itself |
| `LightningRanking.KeyInRange` | src/algo_lightning.c:304-311 | What a score counts for in the comparison, for all scores for which its 32-bit sum does not overflow |
| `LightningRanking.MeasuredFirst` | src/algo_lightning.c:304-311 | A measured link precedes the unmeasured ones if and only if its score is at most 32767 |
| `LightningScheduler.Scheduler.Accumulate` | src/algo_lightning.c:318-355 | One pass over the history leaves at each link the sum of its delays, less one, and the number of its entries |
| `LightningScheduler.Scheduler.Score` | src/algo_lightning.c:325-386 | A connected link's score is the mean of local and remote score, rounded down, or the one of them that was measured; any other link has the mark of a disconnected one; what goes to the peer is the local score narrowed to 16 bits |
| `LightningScheduler.Scheduler.ScoresMean` | src/algo_lightning.c:325-386 | In the ranking made from the history, a score is a delay or a mark, and -2 marks exactly the links not connected |
| `LightningScheduler.Scheduler.ScoresMerge` | src/algo_lightning.c:325-386 | In the ranking made from the history, every connected link has its merged score |
| `LightningScheduler.Scheduler.RankingExact` | src/algo_lightning.c:304-391 | The ranking made from the history: whenever no score exceeds 32767, measured links by score, then unmeasured ones, then exactly those not connected |
| `LightningScheduler.Scheduler.UpdateStats` | src/algo_lightning.c:313-392 | The ranking has every link once with its merged score, sorted unless scheduling is disabled, and then in the order of `RankingExact`; the exit is taken exactly under the condition of `Timespecs.WindowExit` |
| `LightningScheduler.Scheduler.SortStats` | src/algo_lightning.c:388-391 | After sorting, each link still has its own entry |
| `LightningScheduler.Scheduler.AddTags` | src/algo_lightning.c:535-539 | Exactly so many links get a slow tag, the best-ranked ones without a tag; no other tag changes |
| `LightningScheduler.Scheduler.DropTags` | src/algo_lightning.c:540-544 | Exactly so many links lose their tag, the worst-ranked ones with a tag; no other tag changes |
| `LightningScheduler.Scheduler.AdaptTags` | src/algo_lightning.c:531-546 | The number of tagged links becomes the target, by promoting the best or demoting the worst |
| `LightningScheduler.Scheduler.LinkCategories` | src/algo_lightning.c:505-516 | Of the tagged links as many as asked for are fast and the rest slow, and no slow one precedes a fast one |
| `LightningScheduler.CategoriesNext` | src/algo_lightning.c:508-515 | One turn of that loop keeps its count of categorised links |
| `LightningScheduler.CategoriesEnd` | src/algo_lightning.c:505-516 | After the loop, the counts of fast and slow links and their order |
| `LightningScheduler.WorstExact` | src/algo_lightning.c:481-487 | After any number of ranks the eviction candidate is the worst tagged link so far |
| `LightningScheduler.OldestExact` | src/algo_lightning.c:488-494 | After any number of ranks the admission candidate is the connected idle link used least recently so far |
| `LightningScheduler.SwapFound` | src/algo_lightning.c:479-495 | The search evicts a link with the worst score, admits the idle connected link used least recently, and finds none only if there is none |
| `LightningScheduler.RetainedExact` | src/algo_lightning.c:481-484 | For eviction, a link without a score counts more than any measured one, and a slower one more than a faster one |
| `LightningScheduler.EvictedExact` | src/algo_lightning.c:479-487 | The evicted link was not measured, or all tagged links were and none has a higher score |
| `LightningScheduler.Scheduler.FindSwap` | src/algo_lightning.c:479-495 | One pass computes both candidates |
| `LightningScheduler.Scheduler.ChooseSwap` | src/algo_lightning.c:479-499 | A candidate is found on each side if and only if there is one |
| `LightningScheduler.Scheduler.UpdateUsed` | src/algo_lightning.c:474-503 | Exactly when the window is over and both candidates exist they change places; the number of tagged links stays, and all swaps of the run remain a window apart; the exit as in `Timespecs.WindowExit` |
| `LightningScheduler.Scheduler.SwapIfFound` | src/algo_lightning.c:479-502 | Once the window is over, a swap is made if and only if there are both candidates |
| `LightningScheduler.AdmittedConnected` | src/algo_lightning.c:488-502 | A swap never admits a link that is not connected |
| `LightningScheduler.Scheduler.SelectLink` | src/algo_lightning.c:564-572 | Selects the first of the least recently used links of the category, and none exactly when all of them were used at now or later |
| `LightningScheduler.Scheduler.Stamp` | src/algo_lightning.c:405-416 | The selected link is stamped whether or not it has a socket |
| `LightningScheduler.Scheduler.Target` | src/algo_lightning.c:533 | As many links are to be in use as there are sockets, but not more than twice the fast ones |
| `LightningScheduler.Scheduler.Retag` | src/algo_lightning.c:530-550 | From any earlier tags: as many as the target, the swap if it is due, and half of them fast |
| `LightningScheduler.Scheduler.RefreshTags` | src/algo_lightning.c:528-550 | Scores, ranking and its order, promoted or demoted tags, swap and categories of one datagram, for any earlier state |
| `LightningScheduler.OtherStamp` | src/algo_lightning.c:562-588 | Stamping the fast link does not influence which slow one is selected |
| `LightningScheduler.Scheduler.Dispatch` | src/algo_lightning.c:562-595 | Each copy goes to the least recently used link of its category, the two copies never to the same link, and the alternation advances |
| `LightningScheduler.Scheduler.OnDatagram` | src/algo_lightning.c:518-599 | After every datagram: as many tags as the target, half of them fast and ranked in front; the order of the ranking; the swap, if due, of a connected link; the two selections; and swaps a window apart since the start |
| `LightningScheduler.AddSwap` | src/algo_lightning.c:474-502 | A swap that passes the test is a window away from all swaps before it |
| `LightningFairness.AllBefore` | src/algo_lightning.c:562-572 | With an advancing clock, every link of the category was last used before the selection |
| `LightningFairness.NextIsNew` | src/algo_lightning.c:562-572 | While some link of the category was not picked in a round, the next pick is such a link |
| `LightningFairness.RoundRobin` | src/algo_lightning.c:405-572 | Any k consecutive selections by the rule in a category of k links pick each link exactly once, also when packets are dropped |
| `LightningFairness.AlwaysPicks` | src/algo_lightning.c:564-572 | As long as the category has a link, a selection finds one |
| `LightningFairness.ChosenPicks` | src/algo_lightning.c:564-572 | With an advancing clock a selection finds a link if and only if the category has one |
| `LightningFairness.RecordMore` | src/algo_lightning.c:405-572 | One more selection by the rule extends the record of selections |
| `LightningFairness.DispatchAll` | src/algo_lightning.c:562-595 | The scheduler run over any number of datagrams with unchanged tags and an advancing clock: its selections are made by the rule at the readings and from the stamps that it had; in both categories none fails while there is a link, and any k in a row pick each of k links once |
| `LightningFairness.HandleWhile` | src/algo_lightning.c:518-599 | The same for the whole handler, while scores, ranking, swaps and tags change as they do: as long as a category keeps its links, its selections are made by the rule and fair; it stops only when the program exits or the category changes |
| `LightningFairness.ChosenByLinks` | src/algo_lightning.c:564-572 | A selection only depends on which links are in the category |
| `LightningFairness.DispatchRecords` | src/algo_lightning.c:562-595 | The two copies of a datagram stamp only the link picked in each category, and nothing beyond the last reading |
| `LightningFairness.Alternates` | src/algo_lightning.c:562-595 | Sending on both categories stays so; sending on one alternates between them |
| `LightningFairness.WantedExact` | src/algo_lightning.c:562-595 | So a category gets a selection from every datagram, or from every other one |
| `Padding.FrameSize` | src/algo_lightning.c:192-218 | A frame's size is the sum of its datagrams |
| `Padding.FrameNext` | src/algo_lightning.c:214-216 | Appending the next older datagram gives the next longer frame |
| `Padding.NextKey` | src/algo_utils.c:249-269 | The key of the next datagram is in use for exactly one datagram, the one whose copy ends the program |
| `Padding.KeyStored` | src/algo_thunder.c:61-68 | Which keys are in use after one more datagram, also after the counter has wrapped: its own and all before but the oldest |
| `Padding.StoreHolds` | src/algo_thunder.c:63-68 | Storing a datagram and dropping the oldest keeps the map exact, over both rounds of the counter |
| `Padding.CountDown` | src/algo_thunder.c:70-76 | Counting the key down finds the datagrams before the newest one, one after the other, and exactly so many |
| `Padding.Padder.Lightning` | src/algo_lightning.c:127-154 | Keys of 64 bits from 1 on |
| `Padding.Padder.Thunder` | src/algo_thunder.c:363-380 | Keys of 16 bits from 2 on: with them the program ends at datagram 131071 - total_links |
| `Padding.Padder.Store` | src/algo_lightning.c:182-190 | The program ends if and only if this is the datagram whose key is still in use; otherwise the map holds exactly the datagrams it should, also after a wrap |
| `Padding.Padder.AppendGroup` | src/algo_thunder.c:90-91 | A datagram and its metadata are appended in place in their order |
| `Padding.Padder.AddOlder` | src/algo_lightning.c:195-216 | The next older datagram is added if and only if it is stored and fits |
| `Padding.Padder.OlderFound` | src/algo_thunder.c:72-88 | What is stored under the next smaller key is the next older datagram, if there is one |
| `Padding.Padder.AddAll` | src/algo_thunder.c:70-93 | The loop adds one older datagram after the other, and stops only when none is found or the next does not fit |
| `Padding.Padder.Pad` | src/algo_thunder.c:58-94 | Ends exactly at the datagram whose key is in use (131071 - total_links for thunder); else the frame is datagrams n, n-1, ..., n-k in one contiguous run, in both rounds of the counter; with the monitoring packet it fits in 498 bytes whenever the newest datagram does, and it ends early only because with one more it would not |
| `Padding.ReachFirstRound` | src/algo_thunder.c:61-76 | Until the counter wraps (65534 datagrams of thunder), the datagrams found are the last ones, as many as there are links |
| `Padding.FewDatagrams` | src/algo_thunder.c:280-297 | A thunder frame has fewer than 64 datagrams, so it never exceeds the receiver's arrays |
| `Padding.FrameFits` | src/algo_lightning.c:214-218 | With its monitoring packet a padded frame fits in 498 bytes whenever the newest datagram does |
| `Padding.FrameRun` | src/algo_lightning.c:192-218 | Packet j of a lightning frame is datagram n - j |
| `ThunderCounting.VisitsClosed` | src/algo_thunder.c:113-118 | After n visits every link had n / total, and the first n mod total links one more |
| `ThunderCounting.LinkAtMod` | src/algo_thunder.c:114 | Stepping to the next link and back to 0 after the last one is counting modulo the number of links |
| `ThunderCounting.RoundRobinCounts` | src/algo_thunder.c:244-246 | Right after a visit to link l the counts of all links follow from l's by the receiver's formula |
| `ThunderCounting.VisitKeeps` | src/algo_thunder.c:113-137 | A visit, with or without a packet, keeps every packet's count equal to the visits since the packet before, modulo 256 |
| `ThunderCounting.DeliverKeeps` | src/algo_thunder.c:231-233 | A delivery keeps each link's count equal to its start value plus the increments that arrived since |
| `ThunderCounting.ResetKeeps` | src/algo_thunder.c:168-174 | A reset of the blacklist keeps the counts equal to what it set them to plus the increments since |
| `ThunderCounting.RunInv` | src/algo_thunder.c:111-233 | All three hold over every run of visits, deliveries and resets |
| `ThunderCounting.SumExact` | src/algo_thunder.c:231-233 | Between any two packets, increments add up to the visits if and only if no counter wrapped |
| `ThunderCounting.ReceivedExact` | src/algo_thunder.c:168-233 | Over every run, resets included, received_pkts_on_link is one plus the sender's visits at the latest packet, shifted by what the last reset made of it, if and only if no 8-bit counter has wrapped since |
| `ThunderCounting.ExpectedExact` | src/algo_thunder.c:244-246 | Over every run, what is expected of every link is one plus the sender's visits to it when it sent the packet just received, with the shift of that packet's link |
| `ThunderCounting.BehindExact` | src/algo_thunder.c:244-247 | A link is found behind if and only if its visits accounted for by arrived packets, with its shift, are fewer than those before that packet, with the shift of its link |
| `ThunderCounting.NoShift` | src/algo_thunder.c:375-378 | Without a reset there is no shift |
| `ThunderCounting.ResetExact` | src/algo_thunder.c:168-174 | A reset makes each count one more than the mark, which shifts it by what the mark is beyond the visits that had arrived |
| `ThunderCounting.BehindWithoutReset` | src/algo_thunder.c:244-247 | Then a link is found behind if and only if a visit to it before that packet is not accounted for by an arrived packet |
| `ThunderScheduler.Thunder.constructor` | src/algo_thunder.c:363-380 | Counters start at zero, received counts at one |
| `ThunderScheduler.Thunder.VisitNext` | src/algo_thunder.c:114-115 | A visit moves on to the next link, counts it modulo 256, and is logged |
| `ThunderScheduler.Thunder.NextLink` | src/algo_thunder.c:111-122 | Terminates within total + 1 visits at the next connected link, having sent nothing, and fails exactly when none is connected |
| `ThunderScheduler.Thunder.SendCopy` | src/algo_thunder.c:129-141 | The copy carries the link's counter, which starts again; the visit is logged as one that sent |
| `ThunderScheduler.Thunder.Avoided` | src/algo_thunder.c:36-41 | A link is avoided exactly if the scheduler is on and its mark has reached its count |
| `ThunderScheduler.Thunder.Pass` | src/algo_thunder.c:111-164 | Idle visits and one more to the next connected link, which sends exactly unless the link is blacklisted and was visited fewer than PROBE_EVERY times |
| `ThunderScheduler.Thunder.SearchOn` | src/algo_thunder.c:103-166 | One pass of a search: it goes on while only blacklisted links were met, and otherwise ends with its outcome |
| `ThunderScheduler.Thunder.Passes` | src/algo_thunder.c:103-166 | The passes end at a link that is not blacklisted, without a connected link, or after every connected link was found blacklisted; the copies are exactly those that their visits sent |
| `ThunderScheduler.Thunder.Schedule` | src/algo_thunder.c:96-183 | A datagram is delivered if and only if some connected link is not blacklisted (with the scheduler off, if and only if one is connected); the copies are exactly those that the new visits sent, each with its count, all but the last probes; if all are blacklisted, which needs the scheduler on, none is afterwards; at most (total + 1)^2 visits |
| `ThunderTraces.EndsDecided` | src/algo_thunder.c:103-183 | The outcome depends only on which links are connected and blacklisted |
| `ThunderTraces.Covers` | src/algo_thunder.c:113-118 | Every link comes up within total visits |
| `ThunderTraces.CopiesByRule` | src/algo_thunder.c:124-137 | Copies go to connected links, those to blacklisted ones are probes, and there is at most one per visit to a connected link |
| `ThunderTraces.ProbesAlternate` | src/algo_thunder.c:114-137 | A blacklisted link is probed on every second visit: of two in a row never both send, and if the first does not, the second does exactly if the first was the only one since the last copy |
| `ThunderTraces.LogIsRun` | src/algo_thunder.c:113-137 | The scheduler's counters are those of the round-robin system run on the logged visits |
| `ThunderTraces.CopiesAreSent` | src/algo_thunder.c:96-166 | For every link, the copies of a datagram are exactly the packets that its visits put on the link in the round-robin system, with their counts and in their order |
| `ThunderScheduler.Thunder.OnBlock` | src/algo_thunder.c:193-206 | The mark of a link rises to the expected count exactly when that is news, and never falls |
| `ThunderScheduler.Thunder.Classify` | src/algo_thunder.c:221-261 | The count grows by the increment; every mark is that of `MarkAfter`, and the timers are those of `TimersExact` |
| `ThunderScheduler.MarkAfter` | src/algo_thunder.c:193-261 | A mark never falls, and rises to the expected count exactly when the link is behind, out of time and marked lower |
| `ThunderScheduler.TimersExact` | src/algo_thunder.c:244-259 | Exactly the links that are behind and have time left get a timer, with the count expected of them and that time |
| `ThunderDelivery.Unpad` | src/algo_thunder.c:280-297 | Collects every datagram with the packet behind it, in order |
| `ThunderDelivery.FrameUnpads` | src/algo_thunder.c:280-297 | A frame as it is sent, padding and closing monitoring packet included, unpacks into exactly its datagrams and metadata, newest first, so never more than there are links |
| `ThunderDelivery.FrameIds` | src/algo_thunder.c:43-56 | The ids of a padded frame are consecutive, also after the counter has wrapped |
| `ThunderDelivery.PaddedOneRound` | src/algo_thunder.c:43-94 | The frames that padding builds never reach back over a wrap of the counter, so their ids do not wrap either |
| `ThunderDelivery.Receiver.Adapt` | src/algo_thunder.c:305-340 | Delivers, oldest first, the payloads whose id is above the last delivered one |
| `ThunderDelivery.AdaptedIds` | src/algo_thunder.c:313-331 | Payloads are delivered for exactly the accepted ids |
| `ThunderDelivery.AcceptRises` | src/algo_thunder.c:313-316 | One frame delivers strictly increasing ids above the last one |
| `ThunderDelivery.DeliveriesRise` | src/algo_thunder.c:313-331 | Whatever frames arrive in whatever order, delivered ids strictly increase |
| `ThunderDelivery.NothingAfterLastId` | src/algo_thunder.c:315-316 | After id 65535 nothing is delivered any more |
| `ThunderDelivery.AcceptFrame` | src/algo_thunder.c:313-316 | A frame with consecutive ids delivers exactly those above the last delivered one, in ascending order |
| `ThunderDelivery.NewerDelivered` | src/algo_thunder.c:313-331 | Of payloads with consecutive ids the newer ones are delivered, oldest first |
| `ThunderDelivery.FrameDelivers` | src/algo_thunder.c:342-349 | Whatever number its newest datagram has, a frame as it is sent delivers exactly its datagrams above the last delivered one, in the order they were sent |
| `ThunderDelivery.GapFree` | src/algo_thunder.c:313-331 | Over every run of frames: deliveries have no gap if and only if each frame that brings something new reaches back to the id after the last delivered one |
| `ThunderDelivery.RunDelivers` | src/algo_thunder.c:265-349 | Over every run of arriving frames of one sender, the packets delivered are the datagrams of exactly the accepted ids |
| `ThunderDelivery.Delivery` | src/algo_thunder.c:265-349 | End to end: whatever frames arrive in whatever order and however often, the datagrams delivered have strictly increasing ids, and there is no gap if and only if each frame with something new reaches back to the id after the last delivered one |
| `ThunderDelivery.InTurnNumbers` | src/algo_thunder.c:305-331 | Frames in turn deliver one datagram each, up to the last id |
| `ThunderDelivery.PerfectNetwork` | src/algo_thunder.c:43-349 | Even if every frame arrives in its turn, exactly the first 65534 datagrams are delivered |
| `Socks5.ConnectRequest` | src/socks5.c:23-75 | A request exists exactly for names of at most 255 bytes, and fits in the 262-byte buffer: CONNECT, version 5, this name, and this port with its high byte first |
| `Socks5.ParseEncode` | src/socks5.c:62-75 | A one-shot reader of sections 4 and 6 of RFC 1928 reads back what was encoded, whatever follows |
| `Socks5.ImageNext` | src/socks5.c:439-492 | Storing a chunk at its place takes the zeroed structure from p bytes to p + k bytes of the message |
| `Socks5.ImageParts` | src/socks5.h:109-125 | In the filled structure head, address and port lie in their own fields, however long the address |
| `Socks5.ImageFields` | src/socks5.c:226-243 | The filled structure has the message's fields, and the computed size is the number of bytes on the wire |
| `Socks5.HostString` | src/socks5.c:494-497 | The name printed as a C string out of the structure is the name asked for |
| `Socks5.Context.Recv` | src/socks5.c:439-452 | One read, exactly as the offer and the data allow, takes structure and socket from p bytes to p + k bytes of the message |
| `Socks5.Context.ReadRequestHead` | src/socks5.c:439-453 | The fixed part in any pieces; complete exactly at its end, and useful offers move bytes |
| `Socks5.Context.ReadRequestHost` | src/socks5.c:455-485 | Any part of the address, in any pieces; complete exactly at its end, and an unknown type is rejected before any byte of it; useful offers move bytes |
| `Socks5.Context.OnRequest` | src/socks5.c:439-509 | From any point of a request, one call keeps the structure equal to the bytes read; without an error only an unknown address type is rejected, at the end of what is defined of it; useful offers move bytes |
| `Socks5.Context.ReadRequestPort` | src/socks5.c:487-503 | Done exactly when the port is complete |
| `Socks5.Context.HostEnd` | src/socks5.c:142-224 | Up to where to read: the end of the address, or of the length byte that tells it |
| `Socks5.Context.ReadReplyHost` | src/socks5.c:142-224 | One read within the address, whose length may itself have to be read first; only that of an empty domain name brings no byte |
| `Socks5.Context.OnReply` | src/socks5.c:245-292 | From any point of a reply, one call keeps the structure equal to the bytes read; without an error it is rejected only for its address type or its code, and only when all of it has been read; useful offers move bytes, but for two calls at most |
| `Socks5.ServeRequest` | src/socks5.c:439-509 | In any pieces, the request decoded is the request sent, and no byte beyond it is consumed, also of a rejected one; with a useful offer for every byte and no error it is decoded, or rejected exactly for its address type |
| `Socks5.AwaitReply` | src/socks5.c:245-292 | In any pieces, the reply decoded is the reply sent, accepted or rejected, and exactly socks5_server_reply_size bytes are consumed; with a useful offer for every byte, one or two more, and no error it is accepted, or rejected exactly for its type or code |
| `Socks5.Connect` | src/socks5.c:62-509 | With 7 useful offers and one for every byte of the name, and no error, the server decodes exactly the client's host and port; under any fragmentation it decodes nothing but a CONNECT to them, and rejects exactly when it meets a socket error |
| `Socks5.Confirm` | src/socks5.c:361-373 | With 11 useful offers and no error the client accepts the server's reply, which is success with 127.0.0.1 and port 0; under any fragmentation it rejects it exactly when it meets a socket error |

## Left out

- Sockets, epoll, timerfd, accept and connect, signals, GLib internals, printing and option parsing: I/O and foreign code. What they return is a parameter.
- src/evt_core.c, and callbacks that run while a handler is still at work (`main_on_tcp_write` called from a scheduler, `notify_read`): each handler is one atomic step.
- `ring_buffer_*` in src/utils.c, `is_in_order` and `compare_int64` in src/algo_thunder.c: not used by the code modelled.
- Packet dropping while circuits are being built (`-b`), traffic capture, the address a datagram goes to, and a peer that restarts with ids from 1.
- `measure_summary`, results/, the dcall, Tor control, capture and test programs, shell and terraform files: reporting, text I/O and plumbing.
- The SOCKS5 handshakes before the request, and the senders of request and reply: of the latter, `on_socks5_server_send_handshake` sends from the start again after a partial send, which is right only when its two bytes go out at once.
- `compute_delta` and the arrays of time differences in thunder: the delays that a packet announces are parameters of `Classify`.
- Timers: `OnBlock` is what happens when one fires; that it fires, and when, is not modelled.
- The measlat tags that lightning writes into datagrams, the csv and explain output, and `deliver`, which only moves a buffer to a write queue or frees it.
- Overflow of 64-bit ids, counters and times, and of the 32-bit sum in the ranking's comparison for scores below -2147450880.
- BufferPackets.BufferPacket.ReadPacketFromTcp: covers streams that the writer can produce (packets of at least 4 bytes with a command, chains of at most 65535 bytes and 255 packets); the code does not check this either, and what it does with other streams is not modelled.
- BufferPackets.BufferPacket.AppendAp: needs room for the packet in the buffer, as the code does without checking.
- BufferPools.BufferPool.GetReadBuffer: not called without a descriptor, which the code would dereference when no buffer is free.
- Datagrams.WritePacketToUdp: needs a port in every datagram packet, as the senders make them, and starts at the beginning of the buffer; what the code reads when it has to start elsewhere lies outside the buffer.
- Datagrams.ReadPacketFromUdp: needs a zeroed buffer, as the pool hands it out.
- Dup2.Dup2.OnStream: needs two bytes of content in each datagram and metadata packet, as the sender makes them.
- LightningPacket.Carry: the template that the packet is first copied from is shorter than the packet, so the copy reads beyond it; all those bytes are written again afterwards, and only the result is modelled.
- LightningRanking.Qsort: stands for the library's sort; which of two equal scores comes first is left open everywhere else.
- Padding.Padder.Pad: keeps the stored datagrams as chains instead of pool buffers, and assumes that a buffer is free for the copy.
- ThunderDelivery.Receiver.Adapt: needs metadata behind every datagram and a socket for its port; otherwise the code follows NULL.
