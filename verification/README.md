# A model of the chained buffer and of the reliable file transfer

The repository sends files over UDP. Its two halves are a chained byte buffer in C
(`chainbuffer/`) and a sender and receiver in C++ (`udp_transport/`) that make a lossy
datagram network reliable. This project models both and proves what they promise.

| file | what it models |
|---|---|
| `MachineInts.dfy` | the fixed-width integers of the sources; arithmetic on them is checked never to wrap |
| `Memory.dfy` | memcpy, and what a contract says when it allocates nothing |
| `SepSearch.dfy` | what it means to search bytes for a separator, without chunks |
| `ChunkViews.dfy` | a list of chunks as values, and the byte queue it stands for |
| `ChainBuffer.dfy` | the chunks and the manager as heap objects, updated in place |
| `ByteQueue.dfy` | runs of calls on the abstract queue; every buffer call is a step of such a run |
| `WireFormat.dfy`, `DataSegment.dfy` | the 12-byte header and payload, as values and as the object that fills byte arrays |
| `Segments.dfy` | how a file is cut into packets, and what of it survives the wire |
| `ErrorReply.dfy` | the client's test for an error reply, and the data packets it misreads |
| `SenderModel.dfy`, `ReceiverModel.dfy` | both ends as state machines, with their invariants |
| `UdpServer.dfy`, `UdpClient.dfy` | both ends as objects whose loops do exactly what the state machines say |
| `Network.dfy` | the two ends joined by a network that loses, duplicates and reorders: safety of every run |
| `Lossless.dfy` | the same ends without losses: progress, termination, completeness |
| `Congestion.dfy` | what the congestion window really does |
| `LossResponse.dfy` | how the sender answers repeated acknowledgements and timeouts, over lossy runs |
| `GivingUp.dfy` | when a run can make the client give up |
| `EndsOfRuns.dfy` | each end's part of a network run, and the objects that perform it |

## What was found

Some things the sources suggest are not what the code does. Each has its exact condition.

- **Files of more than 6 422 540 bytes never arrive.** The client decides whether a packet is
  the server's error reply by looking for the packet's first bytes, as a C string, inside
  `FILE NOT FOUND` (udp_transport/udp_client.cpp:46-51). Packet 4399 has sequence number
  0x62004F, whose first bytes spell `O` and a zero, and `O` occurs in the message: the client
  gives up. `ErrorReply.MisreadExactly` lists the misread numbers,
  `Network.ErrorTestLimitsFiles` shows that no run whatever completes a longer file, and
  `GivingUp.GivesUpIff` that some run makes the client give up exactly from that length on.
- **Binary files are altered.** The serialiser copies up to the first zero byte of a payload, so
  a packet arrives with zeros from there on, in the protocol runs as on the wire.
  `Segments.FileOnTheWire`: a file survives exactly when no packet of it holds a non-zero byte
  behind a zero byte. `Segments.TwoBytesAreLost`: the file 0, 1 arrives as 0, 0.
- **The client skips what it has no memory to write.** When `malloc` returns null
  (udp_transport/udp_client.cpp:110-116), the payload is passed over and the packet still counts
  as in order. `Network.RunIsSafe` says what the output then is.
- All this gives the exact reach of the protocol. `Lossless.CompletesIff`: a transfer that
  loses nothing completes with the file if and only if the file has at most 1460 * 4399 bytes,
  no packet of it holds a non-zero byte behind a zero byte, and malloc refuses the client no
  packet with data.
- **Draining does not reset the search cursor.** `ByteQueue.DrainHidesSeparator` gives an input
  on which a separator is overlooked, `ByteQueue.DrainSkips` the exact condition under which a
  search after a drain is right.
- **A search in a queue shorter than the separator can follow a null pointer**, because
  `total_len - seplen` wraps around. `ByteQueue.SafeSearchIsExact` says exactly when: some end
  of the queue is a beginning of the separator. `ByteQueue.ShortQueueRunsOff` is an input.
- **Coalescing a drained or unused buffer follows a null pointer**: `buffer_write_atmost` reads
  through `first` (chainbuffer/chain_buffer.c:563) without a test. It does so exactly when the
  list is empty (`ChainBuffer.Buffer.WriteAtMost`), as it is after everything was drained
  (`ChainBuffer.Buffer.Drain`).
- **Fast retransmit does not halve the window.** The test behind it cuts the window to one
  segment every time (`Congestion.FastRetransmitCutsToOne`), and a timeout is followed by slow
  start only if the window held at least four segments (`Congestion.SlowStartAfterTimeout`).

## How the sources are read

The UDP files do not compile as they stand; these readings fill the gaps.

- `SlidWinBuffer` and `data_buffer_` are declared nowhere. A window record has the fields used
  at udp_transport/udp_server.cpp:271-275 less its time stamp; a slot of the receiver's vector
  holds the packet, and its payload stands for the slot's chained buffer. What the sender
  stores in a segment's `data_buffer_` is what the serialiser finds in `data_`.
- udp_transport/udp_server.cpp:414 takes a non-zero result of `buffer_remove` for a failure,
  but chainbuffer/chain_buffer.c:464 returns a count. Success is "as many bytes as asked for".
- udp_transport/udp_server.cpp:201 and :306 pass byte offsets to `retransmit_segment`, which
  indexes records. The index is the offset divided by the segment size.
- udp_transport/udp_client.cpp:127 and udp_transport/udp_server.cpp:296-298 index -1 before
  anything is in order or acknowledged. The receiver acknowledges nothing then, and the sender
  starts its scan at record 0.
- `last_with_datap`, a pointer to a pointer, is the chunk whose `next` it points to, or null
  when it points to `first`.
- `sizeof(buf_chain_t)` is a constant of which only 0 < H < 1024 is known.
- `malloc` and `calloc` succeed or fail as a Boolean parameter says. The client's writing loop
  is given the set of packets for which `malloc` fails it; no packet is written twice, so that
  covers every way it can fail. Only the loops of `send()` take it that it succeeds.
- `free` takes a live chunk, so none is freed twice, and links are only followed from live
  chunks. The other fields of a freed chunk can be named, but nothing is known of them, so no
  contract rests on freed memory. Every operation registers all chunks that come into being
  during it, and every registered chunk is live exactly while it is on the list.
- Following a null pointer is an outcome of the search and of the coalescing, not something a
  precondition excludes.
- The deserialiser is given the number of payload bytes, at most what the packet has behind its
  header.
- In `buffer_drain`, the test at chainbuffer/chain_buffer.c:430-432 never fires; in
  `buffer_write_atmost`, neither do the partial-chunk branch (612-616) nor the second flag's
  branch (626-632). The loop at 569-573 computes a value that is not used and is left out.
- `send()` takes the results of its `select` calls as a sequence, in which time-outs, errors
  and segments come in any order.

## Model

| member | source | states |
|---|---|---|
| ChainBuffer.RoundUp | chainbuffer/chain_buffer.c:93-106 | the doubling loop ends without wrapping, at the least doubling of 1024 that holds the request, or at the request itself from 8 MiB on |
| ChainBuffer.NewChunk | chainbuffer/chain_buffer.c:86-118 | null exactly when malloc fails or the request exceeds 16 MiB - H; otherwise a fresh empty chunk that holds the request |
| ChainBuffer.FreeAll | chainbuffer/chain_buffer.c:126-135 | every chunk of the list ends up freed, each once, and no link is read from a freed chunk |
| ChainBuffer.Chunk.Align | chainbuffer/chain_buffer.c:244-250 | the data survive the overlapping move and start at offset 0 |
| ChainBuffer.Buffer.New | chainbuffer/chain_buffer.c:61-76 | null exactly when malloc fails, otherwise an empty valid buffer that owns no chunk, with the cursor at 0 |
| ChainBuffer.Buffer.constructor | chainbuffer/chain_buffer.c:71-73 | the initialised manager is a valid empty buffer |
| ChainBuffer.Buffer.Len | chainbuffer/chain_buffer.c:48-51 | the number of queued bytes |
| ChainBuffer.Buffer.Structure | chainbuffer/chain_buffer.c:7-24 | in every valid buffer: no chunk, one empty chunk, or only non-empty ones; data inside each chunk's memory; sizes in [1024 - H, 16 MiB - H]; `total_len` the sum; `last` and `*last_with_datap` the final node |
| ChainBuffer.Buffer.FreeEmptyChunks | chainbuffer/chain_buffer.c:154-169 | frees a lone empty chunk or nothing, keeps the contents, and returns the slot where the list ends |
| ChainBuffer.Buffer.Insert | chainbuffer/chain_buffer.c:178-198 | links a new chunk behind the data, loses and leaks none, and keeps the structural invariant |
| ChainBuffer.Buffer.InsertNew | chainbuffer/chain_buffer.c:209-218 | a chunk of sufficient size on an empty list, or null with nothing changed, exactly when allocation fails |
| ChainBuffer.Buffer.Spill | chainbuffer/chain_buffer.c:312-343 | the data continue the queue across the old and the new last chunk, or nothing changes; the new chunk's size is the allocation for twice the old one, the old one or the data; whatever was allocated is owned |
| ChainBuffer.Buffer.Add | chainbuffer/chain_buffer.c:262-349 | 0 and the data appended, or -1 and every object unchanged; if malloc succeeds, 0 exactly when the data fit into min(16 MiB - length, 16 MiB - H); if it fails, 0 exactly when they fit in place; every chunk that came into being is owned |
| ChainBuffer.Buffer.CopyOut | chainbuffer/chain_buffer.c:359-386 | the first min(n, length) bytes in order, across chunks; the rest of the target and the queue untouched |
| ChainBuffer.Buffer.FreeHead | chainbuffer/chain_buffer.c:426-438 | freeing the first chunk keeps `last_with_datap` off freed memory, also when it pointed into that chunk |
| ChainBuffer.Buffer.Drain | chainbuffer/chain_buffer.c:408-446 | exactly the first min(n, length) bytes leave; whole chunks are freed and one is trimmed; the cursor stays; a buffer drained empty has no chunk |
| ChainBuffer.Buffer.Remove | chainbuffer/chain_buffer.c:458-465 | hands out and drops the same first min(n, length) bytes |
| ChainBuffer.Buffer.CheckSep | chainbuffer/chain_buffer.c:478-497 | across chunk boundaries: a match, a mismatch, or the bytes end while all agrees, as on the flat contents |
| ChainBuffer.Buffer.Locate | chainbuffer/chain_buffer.c:515-522 | the chunk that holds the cursor's byte, or none when the cursor is at the end |
| ChainBuffer.Buffer.Scan | chainbuffer/chain_buffer.c:512-542 | the first occurrence from the cursor on, with the new cursor, and termination |
| ChainBuffer.Buffer.Search | chainbuffer/chain_buffer.c:509-543 | only the cursor changes; answer and cursor are those of a search of the flat contents |
| ChainBuffer.MoveChunks | chainbuffer/chain_buffer.c:592-616 | the copy loop consumes and frees every chunk, so no part of one is left over, and notices the last one with data |
| ChainBuffer.Buffer.CoalesceInPlace | chainbuffer/chain_buffer.c:576-582 | the contents end up in the first chunk alone, and every other chunk the buffer ever owned is freed |
| ChainBuffer.Buffer.CoalesceInNew | chainbuffer/chain_buffer.c:583-590 | the contents end up in the new chunk alone, and every chunk the buffer owned before is freed |
| ChainBuffer.Buffer.WriteAtMost | chainbuffer/chain_buffer.c:553-634 | the contents stay and are contiguous at the returned place, in one chunk, all others freed, with `last_with_datap` at the head; no memory exactly when a new chunk is needed and not to be had, a null access exactly when the list is empty, and nothing changed then |
| ChainBuffer.Buffer.Destroy | chainbuffer/chain_buffer.c:143-146 | no chunk the buffer ever owned stays alive |
| ByteQueue.Perform | chainbuffer/chain_buffer.c:262-634 | refinement: every call on a valid buffer, whatever malloc does, is a step of the abstract byte queue, which also says when an append must succeed or fail and when coalescing may; every chunk that came into being is owned |
| ByteQueue.PerformAll | chainbuffer/chain_buffer.c:262-634 | any sequence of calls on one buffer is a run of the abstract queue, and the buffer holds what it accepted less what was consumed |
| ByteQueue.Lifetime | chainbuffer/chain_buffer.c:61-634 | conservation over whole lives: after buffer_new, any calls and buffer_free, no chunk allocated on the way is still alive |
| ByteQueue.FifoRun | chainbuffer/chain_buffer.c:262-465 | over every run the queue is the stream of accepted bytes less what was consumed from its front |
| ByteQueue.RemoveReturnsStream | chainbuffer/chain_buffer.c:458-465 | what each removal hands out is the next piece of that stream |
| ByteQueue.CapacityKept | chainbuffer/chain_buffer.c:268-270 | no run exceeds 16 MiB |
| SepSearch.ViableInPrefix | chainbuffer/chain_buffer.c:516-541 | appending bytes never revives a position that was ruled out |
| SepSearch.FirstEndUnique | chainbuffer/chain_buffer.c:509-543 | a naive search has one answer |
| ByteQueue.StepKeepsCursorSafe | chainbuffer/chain_buffer.c:509-543 | appends, coalescing, searches for the separator, and drains with the cursor at 0 keep the cursor from skipping a possible occurrence |
| ByteQueue.SafeSearchIsExact | chainbuffer/chain_buffer.c:523-542 | a resumed search answers for the whole queue; it runs off the list exactly when the queue is shorter than the separator and some end of it begins the separator |
| ByteQueue.FailedSearchAdvances | chainbuffer/chain_buffer.c:526-542 | a failed search leaves the cursor where the separator no longer fits, no further than that takes and never past the last byte |
| ByteQueue.IncrementalSearch | chainbuffer/chain_buffer.c:509-543 | in every run of appends, coalescings, searches for one separator, and drains and removals while no search is under way, each search agrees with a naive one |
| ByteQueue.DrainSkips | chainbuffer/chain_buffer.c:408-446 | after a drain the next search is right if and only if the separator does not start in the window the stale cursor skips |
| ByteQueue.DrainHidesSeparator | chainbuffer/chain_buffer.c:408-446 | a concrete run in which a separator is overlooked |
| ByteQueue.ShortQueueRunsOff | chainbuffer/chain_buffer.c:526-527 | one stored line feed searched for two: the search must follow the null pointer |
| WireFormat.HeaderRoundTrip | udp_transport/data_segment.cpp:33-41 | every header, negative numbers included, is read back from its bytes |
| WireFormat.EncodeLayout | udp_transport/data_segment.cpp:33-45 | where each field stands in the packet, least byte first, with flags as 0 or 1, the text behind byte 12 and zeros behind the text |
| WireFormat.DecodeLayout | udp_transport/data_segment.cpp:51-55 | what each field is of arbitrary bytes, by their positions; any byte but zero sets a flag |
| WireFormat.UndamagedIff | udp_transport/data_segment.cpp:43-45 | cutting a payload at its first zero byte and padding it with zeros changes nothing if and only if no non-zero byte follows a zero byte |
| WireFormat.PaddedText | udp_transport/data_segment.cpp:43-62 | the payload's length taken of the zero-padded packet is the payload so cut and padded |
| WireFormat.SegmentRoundTrip | udp_transport/data_segment.cpp:22-63 | deserialising a serialised segment gives its header always, and its payload cut and padded, which is the payload under exactly that condition |
| DataSegments.BufferLen | udp_transport/data_segment.cpp:9-14 | the length of the C string, 0 for null |
| DataSegments.DataSegment.constructor | udp_transport/data_segment.cpp:16-20 | -1 in both numbers, 65535 in the 16-bit length |
| DataSegments.DataSegment.SerializeToCharArray | udp_transport/data_segment.cpp:22-47 | every byte of the packet, position by position, whether its memory is reused or new; null exactly when it cannot be allocated |
| DataSegments.DataSegment.DeserializeToDataSegment | udp_transport/data_segment.cpp:49-82 | every field as a number of the packet's bytes, position by position, and the payload a fresh NUL-terminated copy |
| DataSegments.Transmit | udp_transport/data_segment.cpp:22-63 | one object serialised and deserialised into another: every header arrives, and of the payload what the wire makes of it |
| Segments.PayloadsAreThePrefix | udp_transport/udp_server.cpp:243-280 | the payloads of the first n packets are the file up to there, and all of it once a fin packet is among them |
| Segments.FinPackets | udp_transport/udp_server.cpp:246-252 | which packets carry fin; two do exactly when the length is a positive multiple of 1460, and the second is empty |
| Segments.PacketOnTheWire | udp_transport/udp_server.cpp:405-411 | serialising and deserialising any packet of a transfer gives what the protocol runs deliver of it; it is the packet exactly when no non-zero byte follows a zero byte |
| Segments.ReceivedIsThePrefix | udp_transport/udp_client.cpp:105-116 | the first n packets carry their part of the file to the output exactly when the wire and malloc take nothing from any of them |
| Segments.FileOnTheWire | udp_transport/data_segment.cpp:43-63 | the output is the whole file exactly when no packet of it is altered by the wire and none with data is refused by malloc |
| Segments.TwoBytesAreLost | udp_transport/data_segment.cpp:43-45 | an input: of the file 0, 1 only zeros arrive |
| ErrorReply.HeadDecides | udp_transport/udp_client.cpp:46-48 | the C string the client looks for ends within the first nine bytes of a data packet |
| ErrorReply.ErrorIsRecognised | udp_transport/udp_client.cpp:46-48 | the server's error reply, as a C string in the twenty copied bytes, passes the client's test |
| ErrorReply.MisreadExactly | udp_transport/udp_client.cpp:46-51 | a data packet is taken for the error reply if and only if its number spells O, OT, OU, OT_ or OUN in front of a zero byte |
| ErrorReply.FirstMisread | udp_transport/udp_client.cpp:46-51 | that never happens before packet 4399, and always there |
| SenderModel.RetransmitIsOriginal | udp_transport/udp_server.cpp:431-443 | a retransmission equals the original packet in number, payload and fin flag |
| SenderModel.SendsNextPacket | udp_transport/udp_server.cpp:243-280 | a first transmission is the next packet of the file, and record i describes packet i |
| SenderModel.BurstStepOk | udp_transport/udp_server.cpp:120-138 | one iteration of the sending loop keeps the sender's invariant, and what it sends is the next packet |
| SenderModel.BurstCounts | udp_transport/udp_server.cpp:120-138 | how many packets the loop still sends, by its limit, the windows and what is in flight, and that they are the next ones |
| SenderModel.RoundSends | udp_transport/udp_server.cpp:112-138 | with w the smaller window and f packets in flight, a round sends min(w, w + 1 - f) packets, none if that is negative, fewer only because the file ends |
| SenderModel.OnAckLaw | udp_transport/udp_server.cpp:299-323 | number by number: a new one clears the duplicate counter and ends fast recovery, a repeated one is counted, the third halves the window, an old one changes nothing |
| SenderModel.AfterAckLaw | udp_transport/udp_server.cpp:156-173 | at the threshold the window starts again from one; a completed round doubles it or adds one |
| SenderModel.ErrorsChangeNothing | udp_transport/udp_server.cpp:150-152 | errors of `select`, wherever they come, change nothing of what `send()` does |
| SenderModel.ScanStopsAt | udp_transport/udp_server.cpp:333-340 | the cumulative scan stops at the acknowledged packet, inside the window |
| SenderModel.CongestionKept | udp_transport/udp_server.cpp:156-173 | every acknowledgement keeps windows in 1..128, one mode on, slow-start windows powers of two, congestion avoidance at threshold 64, fast recovery only within it |
| SenderModel.AckStepOk | udp_transport/udp_server.cpp:296-340 | an honest acknowledgement, however stale, moves `last_acked_packet_` to the acknowledged packet or not at all; what it retransmits is the next packet |
| SenderModel.TimeoutStepOk | udp_transport/udp_server.cpp:176-206 | a timeout sends the packet behind the last acknowledged one, as many times as packets are in flight, and nothing else |
| UdpServers.SlidingWindow.AddToBuffer | udp_transport/sliding_window.cpp:13-16 | appends the record and returns its index |
| UdpServers.UdpServer.constructor | udp_transport/udp_server.cpp:20-33 | the initial state of the sender's state machine |
| UdpServers.UdpServer.ReadFileAndSend | udp_transport/udp_server.cpp:379-428 | the payload comes out of its chained buffer as it went in and is sent once; an unreadable range or a failing malloc sends nothing; no chunk of the buffer outlives the call |
| UdpServers.UdpServer.SendPacket | udp_transport/udp_server.cpp:243-280 | does the model's sending step on window and counters, and on the network unless malloc fails |
| UdpServers.UdpServer.RetransmitSegment | udp_transport/udp_server.cpp:431-443 | sends the record's packet, or nothing for an index outside the window or when malloc fails |
| UdpServers.UdpServer.SendBurst | udp_transport/udp_server.cpp:112-138 | a round sends exactly as many packets as the windows and the file allow, and does all sending steps of the model |
| UdpServers.UdpServer.WaitForAck | udp_transport/udp_server.cpp:282-349 | a new number clears `dup_ack_` and sends nothing, a repeated one is counted, an old one or a segment without the flag changes nothing; all else as in the model |
| UdpServers.UdpServer.ScanWindow | udp_transport/udp_server.cpp:330-340 | the loop finds the first record that ends at or behind the acknowledged number |
| UdpServers.UdpServer.OnReadable | udp_transport/udp_server.cpp:153-173 | acknowledgement, mode switch and exit of the select loop as in the model |
| UdpServers.UdpServer.Adjust | udp_transport/udp_server.cpp:156-173 | the fields after the threshold test and after a completed round |
| UdpServers.UdpServer.OnTimeout | udp_transport/udp_server.cpp:174-206 | the window is one, the threshold half of the old window or one, slow start is on; the retransmissions are the model's |
| UdpServers.UdpServer.RetransmitUnacked | udp_transport/udp_server.cpp:188-204 | one and the same retransmission per packet in flight |
| UdpServers.UdpServer.SelectLoop | udp_transport/udp_server.cpp:149-208 | handles results of select until the round ends or none is left |
| UdpServers.UdpServer.Send | udp_transport/udp_server.cpp:93-212 | for every sequence of select results whose acknowledgements stay inside the window, the object ends in the state the model's run ends in, having sent the same packets in the same order |
| ReceiverModel.ExpectsNext | udp_transport/udp_client.cpp:74-79 | the next expected number is where the packet behind the last one in order starts |
| ReceiverModel.IndexIsRight | udp_transport/udp_client.cpp:81-90 | the old-packet test and the truncating division find each packet's index; a packet below the expected one never carries fin |
| ReceiverModel.DrainedContinues | udp_transport/udp_client.cpp:105-121 | writing the contiguous slots continues the file |
| ReceiverModel.CompleteIffFin | udp_transport/udp_client.cpp:123-126 | the loop's exit test holds exactly when the first fin packet is in order |
| ReceiverModel.ReceiveOk | udp_transport/udp_client.cpp:45-131 | one packet of the file, in any order of arrival, keeps the receiver's invariant, never indexes below 0, and acknowledges only full packets that are in order |
| ReceiverModel.AnswersExactly | udp_transport/udp_client.cpp:82-128 | a packet is answered if and only if the loop runs on and it is old or admitted with something in order, and then with the end of the last packet in order; old, dropped and misread packets change nothing else |
| ReceiverModel.LoopAnswers | udp_transport/udp_client.cpp:45-131 | over any sequence of packets of the file the loop sends one answer for each of these and none for the others, in order |
| ReceiverModel.WrittenIsWhatArrived | udp_transport/udp_client.cpp:105-126 | the output is what arrived of the packets in order, less those malloc refused; it is a prefix of the file, and the whole file when the loop has ended, exactly when wire and malloc spare those packets |
| ReceiverModel.StopsBeforeMisread | udp_transport/udp_client.cpp:46-51 | the receiver never gets past packet 4398 |
| ReceiverModel.InOrderArrival | udp_transport/udp_client.cpp:74-128 | with nothing missing, the next packet is written at once and acknowledged unless it is the last |
| UdpClients.UdpClient.constructor | udp_transport/udp_client.cpp:25-28 | the initial state; a receiver window of 0 stands for 100 |
| UdpClients.UdpClient.InsertSegment | udp_transport/udp_client.cpp:189-203 | placeholders up to the index and the packet at it, all other slots kept |
| UdpClients.UdpClient.WriteInOrder | udp_transport/udp_client.cpp:105-121 | goes exactly up to the first gap and writes each packet on the way for which there is memory |
| UdpClients.UdpClient.ReceivePacket | udp_transport/udp_client.cpp:45-131 | one iteration of the receive loop does the model's step; an old packet is answered with the next expected number and changes nothing else, one beyond the window is not answered |
| UdpClients.UdpClient.ReceiveLoop | udp_transport/udp_client.cpp:45-131 | the loop over any packets that do not index below zero ends in the model's state, having sent the same acknowledgements in the same order |
| Network.StepInv | udp_transport/udp_server.cpp:107-212 | every event of a lossy, duplicating, reordering network keeps the joint invariant of both ends and the wire |
| Network.RunInv | udp_transport/udp_server.cpp:107-212 | the invariant holds in every state of every run |
| Network.RunIsSafe | udp_transport/udp_client.cpp:74-128 | end-to-end safety: in every run the output is what arrived of the packets in order, less those malloc refused; it is the file up to there if and only if wire and malloc spare those packets, and the whole file when the loop has ended if and only if they spare the file |
| Network.WrittenOnlyGrows | udp_transport/udp_client.cpp:105-121 | nothing written is ever taken back |
| Network.AcksAreTruthful | udp_transport/udp_server.cpp:314-340 | the sender never believes more than the receiver has in order; `send_base_` is the end of the last acknowledged packet; no acknowledgement covers the packet that completes the transfer |
| Network.SenderInRuns | udp_transport/udp_server.cpp:107-206 | in every run: the congestion invariant, at most min(rwnd, 128) + 1 packets in flight, record i at byte 1460 * i, and only genuine packets on the wire |
| Network.ArrivalsAreDefined | udp_transport/udp_server.cpp:333-340 | in every run the scan stays inside the window and the receiver's index is never negative |
| Network.ErrorTestLimitsFiles | udp_transport/udp_client.cpp:46-51 | no run completes a file of more than 6422540 bytes; below that length the client never gives up |
| GivingUp.GivesUpIff | udp_transport/udp_client.cpp:46-51 | some run makes the client give up if and only if the file has at least 6422540 bytes: at that length the empty packet 4399 can overtake the last one with data |
| Network.SlotsHoldWhatWasAdmitted | udp_transport/udp_client.cpp:88-103 | a slot holds its packet if and only if that packet was admitted earlier in the run |
| Network.InOrderIsLeastMissing | udp_transport/udp_client.cpp:88-121 | the index behind the last packet in order is the least one never admitted, and the vector reaches at most the window beyond |
| Network.AnswersInRuns | udp_transport/udp_client.cpp:82-128 | in every run every arrival is answered exactly when it should be, with the end of the last packet in order |
| Network.FinHandling | udp_transport/udp_client.cpp:92-126 | the fin flag is set exactly when a fin packet is buffered, the loop has ended exactly when one is in order, and no fin packet arrives below the expected number |
| Network.NoOverflow | udp_transport/udp_server.cpp:124-138 | while 67 + length + 1460 fits into 32 signed bits, so do the sender's fields, sums and differences, the acknowledgements, and what the receive loop computes from an arriving packet |
| Lossless.FreshRoundSends | udp_transport/udp_server.cpp:107-138 | every round sends at least one packet and moves `start_byte_` |
| Lossless.TimeoutMeansDone | udp_transport/udp_server.cpp:174-206 | a timeout with nothing in transit finds the transfer complete |
| Lossless.StepInv | udp_transport/udp_server.cpp:107-212 | every event keeps the queues in step with both ends |
| Lossless.NeverStuck | udp_transport/udp_server.cpp:107-212 | until the sender has finished, some event can happen |
| Lossless.StepDecreases | udp_transport/udp_server.cpp:107-212 | every event brings the end closer in a well-founded order |
| Lossless.EndIsReached | udp_transport/udp_server.cpp:107-212 | every infinite sequence of steps reaches the end |
| Lossless.RunExists | udp_transport/udp_server.cpp:107-212 | for all parameters there is such an infinite sequence of steps |
| Lossless.TransferCompletes | udp_transport/udp_server.cpp:107-212 | without losses and within 6422540 bytes the sender stops after at most length / 1460 + 1 rounds with every packet at the client, its last one unacknowledged; the output is the file if and only if wire and malloc spare it |
| Lossless.IsARun | udp_transport/udp_server.cpp:107-212 | every transfer without losses is also a run of the lossy network |
| Lossless.CompletesIff | udp_transport/udp_client.cpp:45-131 | without losses a transfer completes with the file if and only if the file has at most 6422540 bytes, no packet of it holds a non-zero byte behind a zero byte, and malloc refuses the client no packet with data |
| Congestion.NewAckMovesOn | udp_transport/udp_server.cpp:156-173 | each new acknowledgement stays in the round or starts the next one with the next window |
| Congestion.WindowIsSawtooth | udp_transport/udp_server.cpp:107-173 | without losses, and as long as the client still misses something, round n is limited to window 2^n up to 128 and then to an endless climb from 2 to 64, whatever the timing |
| Congestion.RoundsSend | udp_transport/udp_server.cpp:107-173 | without losses, and as long as the client still misses something, n completed rounds have sent exactly the sum of min(rwnd, sawtooth) packets, or the whole file |
| Congestion.FastRetransmitCutsToOne | udp_transport/udp_server.cpp:300-313 | the third duplicate retransmits the next packet and always leaves a window of one |
| Congestion.SlowStartAfterTimeout | udp_transport/udp_server.cpp:176-186 | after a timeout the next new acknowledgement leaves slow start unless the window had held four segments |
| LossResponse.ThirdDuplicatesSend | udp_transport/udp_server.cpp:299-323 | in every run an acknowledgement sends a packet if and only if it is the fourth, seventh, tenth arrival and so on of the greatest number so far, and then the packet it asks for |
| LossResponse.CountersInRuns | udp_transport/udp_server.cpp:299-323 | in every run `send_base_` is the greatest number that arrived and `dup_ack_` its further arrivals modulo three |
| LossResponse.LeavesFastRecovery | udp_transport/udp_server.cpp:314-320 | the next new acknowledgement makes the window one larger, or one at the threshold, clears the flag and leaves congestion avoidance on |
| LossResponse.TimeoutClimb | udp_transport/udp_server.cpp:156-186 | in every run, after a timeout at window w and until the next loss, every completed round doubles the window from one until it first reaches max(w / 2, 1); then congestion avoidance is on |
| LossResponse.SwitchesAtThreshold | udp_transport/udp_server.cpp:156-164 | an acknowledgement ends that slow start if and only if it finds the window at max(w / 2, 1) or above |
| EndsOfRuns.SenderRunsSend | udp_transport/udp_server.cpp:93-212 | in every network run the acknowledgements keep `send()` inside its window; fed with them and the timeouts, it is in the run's state whenever that waits or has finished, and has sent exactly the packets on the wire |
| EndsOfRuns.ClientRunsLoop | udp_transport/udp_client.cpp:45-131 | in every network run the receive loop never indexes below zero; fed with the arrivals, it is in the run's state and has sent exactly the run's acknowledgements |
| EndsOfRuns.Serve | udp_transport/udp_server.cpp:93-212 | the server object performs the sender's part of any network run |
| EndsOfRuns.Fetch | udp_transport/udp_client.cpp:21-135 | the client object performs the receiver's part of any network run |

## Left out

- Sockets, `select`, file streams, DNS, logging, the `main` programs and the build: input and output only. The file is a byte sequence, the network a set or queue of packets.
- `Tcp/`: a plain stream copy without protocol logic.
- Round-trip and time-out estimation in floating point (udp_transport/udp_server.cpp:351-363): a timeout may happen at any moment, or, without losses, when nothing is in transit.
- Packet statistics and time stamps: they influence nothing else.
- The client's random drop and delay: covered by the lossy network.
- Liveness over a lossy network: the sender stops after one timeout once everything was sent, so delivery is only claimed without losses.
- The server's own error reply as an event of the protocol runs: a run starts with a file that was opened. That the reply is recognised is stated by itself.
- Sequence numbers beyond 32 signed bits: the runs use unbounded integers, and NoOverflow says when these are the program's.
- UdpServers.UdpServer.Send: does not model a failing `malloc` in the packets its loops send, which SendPacket and RetransmitSegment do; such a packet would be lost, as the network may lose it anyway.
- UdpServers.UdpServer.ReadFileAndSend: does not model `send_data_segment`, which is declared and defined nowhere; what serialising does to the packet is part of its arrival.
- UdpServers.UdpServer.WaitForAck: does not model acknowledgement numbers beyond the sent window, on which the source reads past its vector; SenderRunsSend shows that none occurs in a run.
- UdpClients.UdpClient.ReceivePacket: does not model packets that the source would file below index zero; ClientRunsLoop shows that none arrives in a run.
- ChainBuffer.Buffer.Insert: does not model an empty chunk inserted behind a non-empty list, which no caller in the source does.
- UdpServers.UdpServer.SendPacket: does not model the loop at udp_transport/udp_server.cpp:262-269, which only sets a time stamp.
- DataSegments.DataSegment.DeserializeToDataSegment: does not model the length the client passes, which counts the header too and reads beyond the packet; it is bounded by the packet.
- The manager structure of a buffer is not freed by `buffer_free`; the model only speaks of chunks.
- `add_to_data_segment_vector` and `test/`: unused by the protocol.
