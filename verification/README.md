# SVS communication core: a verified model

This project models, in Dafny 4.11, the communication core of the SVS kiosk software and proves what it promises.
`dafny verify dfyconfig.toml` checks everything.

**The BDP bus.** A server talks to up to 256 devices over serial buses. `BdpWire` is the frame on the wire,
`Crc16` its checksum, `BusReceiver` the byte-driven receiver with its buffer and index updated in place, and
`BdpReceiver`, `BdpStream` and `BurstErrors` say what that receiver makes of any byte stream, clean or damaged.
`FrameList` is the frame manager as it is coded: a doubly linked list behind a head node, appended to by client
requests, searched and cut by responses, and walked by a periodic thread that sends, retries and frees nodes on
the way. It refines `FrameQueue`, the same three steps on a sequence with a log of events. `FrameRuns` and
`FrameDrain` prove what every interleaving of those steps keeps, `FramePass` what one step makes of each frame and
when, `FrameRequests` that the frames are those the clients requested, and `FrameWire` joins sender and receiver.
`ArpTable` translates device numbers to addresses and back, and `Backoff` waits for a quiet bus.

**The card reader.** `CommandSession` is one command session with ACK/NAK retries, framing and reply decoding,
with its checksum in `CrcCcitt`; `ChunkedTransmit` is the chunked IC-card and SAM transmission on top of it;
`CardPower` is the timed power sequencer.

**Firmware and cache.** `FirmwareUpload` is the block transfer of an image. `IntrusiveList` and `StatusCache` are
the user-status cache over a doubly linked list whose nodes are freed while it is iterated.

`Binary` and `Lfsr` hold the arithmetic both checksums share: a shift register on bits, proved to be polynomial long
division over GF(2), to be linear, and never to be driven to zero by a burst. `TimeVals` is the truncating
millisecond difference of two `struct timeval`, `Links` the nodes and links both linked lists are made of, and
`Sequences` a few facts about cutting and joining sequences.

## How the model is set up

- Code that changes things in place is a class or a method with loops. Each method is proved against a function on
  values (`Step`, `Visit`, `Apply`, ...); the main theorems are about these functions and about all runs of them.
- Bytes are integers 0..255 and words are integers 0..65535, with wrap-around, truncation and two's complement
  written out. The host is little-endian, as the packed header structure assumes.
- A locked section is one atomic step. A clock is a function from the number of readings taken so far, so every
  reading may differ; readings that only feed a log line are not counted. Randomness, bus silence, device answers and
  I/O errors are arbitrary parameters.
- Queued frames carry a ghost number `id`, counting accepted requests; the log of sends, removals, replies and
  callbacks is ghost as well and only records what the code does.

## What the proofs found

Where the code does not keep what its comments or tests suggest, the code is modelled as it is and the exact
condition is proved.

- A preamble is recognised if and only if the receiver is idle before it (`BdpStream.SynchronisesIffIdle`), and
  outside a frame the frame written next is delivered if and only if the receiver is idle
  (`BdpStream.DeliveredIffIdle`). One stray 0xAA directly before a frame loses that frame; `m` stray ones lose it
  exactly when `m` is no multiple of eight (`BdpStream.StrayPreamblesIff`).
- Sequence numbers repeat after 255 allocations, so two queued frames can share one (`FrameWire.NumbersCollide`, and
  the exact condition `FrameRuns.SameNumberIff`). A response then removes the right frame exactly when no frame
  before it is older by a multiple of 255 allocations (`FrameRuns.ResponseRemovesIff`).
- Device number 255 always means broadcast, so the device at table position 255 cannot be addressed
  (`ArpTable.PhysicalThenVirtual`); `ArpTable.LastDeviceUnreachable` fills the table and names such a device.
- An image shorter than one block of 896 bytes is never sent, and the upload still reports success
  (`FirmwareUpload.Upload`, with the exact condition in `FirmwareUpload.ReproducedIff`). The comment at
  src/svsBdpMsg.h:511 calls 255 retries infinite; the code stops after 255 tries.
- The inter-frame gap exceeds its nominal 2 ms exactly when an activity stamp lies in the future
  (`Backoff.GapWithinLimitIff`). The delays follow the code's spread of 20 000 us, not the range named in a comment.
- The truncating difference counts more than has passed exactly when the microseconds of the later instant are behind
  those of the earlier by other than whole milliseconds (`TimeVals.DiffOvercountsIff`). `CardPower.TruncationCutsShort`
  is a run whose power-up follows its power-down after 5499.001 ms instead of 5500, and
  `CardPower.PowerOnFallsShortIff` and `CardPower.PowerOffFallsShortIff` say exactly when an operation falls short.
  The bounds the sequencer guarantees are therefore 5499 ms and 1999 ms, which still meet the 5 s and 1 s rules.
- That difference is kept in 32 bits, so that after 2^31 ms, nearly 25 days, the sequencer waits although nothing is
  missing (`CardPower.LongIdleWaits`, with the exact condition in `CardPower.NeedlessWaitIff`).
- Check-and-add compares a finished record's age with `<=` and the sweep with `>=`. They disagree, the one refusing a
  record as not expired that the other removes, exactly when the age equals the limit
  (`StatusCache.ExpiryTestsDisagreeIff`).
- `hash_add_user_status` keeps user ids distinct exactly when its id is new (`StatusCache.OperationsKeepDistinct`).

## Model

| member | source | states |
|---|---|---|
| Lfsr.FeedIsRemainder | src/crc.c:41-48 | clocking message bits through the register is long division over GF(2): the register ends as the remainder of the message, followed by zeros and with the start value added to its head, by the generator |
| Lfsr.BurstChangesRegister | src/crc.c:72-76 | two messages that differ only inside a window as wide as the register leave different registers, from any start value |
| Crc16.CrcTable.constructor | src/crc.c:27-52 | the nested loops fill all 256 entries so that entry `i` is eight bit steps over `i` |
| Crc16.TableStep | src/crc.c:74-75 | one table look-up of the low byte equals eight single-bit steps of the reflected register |
| Crc16.CrcTable.Compute | src/crc.c:66-79 | the table-driven loop over any byte string gives the bit-by-bit CRC |
| Crc16.CrcTable.ResumeCompute | src/crc.c:94-107 | the same from any previous CRC |
| Crc16.ResumeAppend | src/crc.c:94-107 | resuming from the CRC of `a` over `b` gives the CRC of `a` followed by `b`, so the receiver's byte-at-a-time value is the sender's header-then-payload value |
| Crc16.CrcIsRemainder | src/crc.c:27-79 | the CRC of any message is the remainder of its polynomial times x^16 by x^16 + x^15 + x^2 + 1, bits lowest first |
| Crc16.BurstChangesCrc | src/crc.c:66-79 | messages that differ only inside 16 consecutive bits have different CRCs |
| CrcCcitt.UpdateByte | ccr.origin/CRC_Proc.c:22-41 | the eight-turn shift loop is eight register steps over the byte, highest bit first |
| CrcCcitt.Compute | ccr.origin/CRC_Proc.c:45-71 | the byte loop gives the bit-by-bit CRC of the whole string |
| CrcCcitt.CrcIsRemainder | ccr.origin/CRC_Proc.c:22-71 | that CRC is the remainder by x^16 + x^12 + x^5 + 1 of section 2 of ITU-T V.41, bits highest first, start value 0 |
| CrcCcitt.TrailerIffZero | ccr.origin/Prtcl_RS232C_8.c:603-607 | two trailing bytes carry the CRC of what precedes them if and only if the whole has CRC zero |
| BdpWire.HeaderRoundTrip | src/svsBdpMsg.h:166-177 | reading the packed header from its bytes gives back every field, whatever payload follows |
| BdpWire.HeaderLayout | src/svsBdpMsg.h:166-177 | every field of the packed header lies at its offset, whatever payload follows |
| BdpWire.LittleEndian | src/svsBdpMsg.h:166-177 | fields travel lowest byte first, the socket number in two's complement |
| BdpWire.BuiltFrame | src/svsBdp.c:1143-1188 | every frame the sender builds has matching length, inverted length and CRC, and decodes to the request's address, message type, socket, flags, number, time stamp and payload |
| BdpReceiver.StepKeepsValid | src/svsBdp.c:833-928 | every byte keeps the index inside the 1048-byte buffer, the running CRC equal to the CRC of the bytes behind the CRC field, and from index 7 on the length validated |
| BdpReceiver.CoveredGrows | src/svsBdp.c:873-880 | storing a byte and resuming the CRC over it keeps the CRC equal to that of the covered part of the buffer |
| BdpReceiver.OnlyWellFormed | src/svsBdp.c:880-921 | from any reachable state and for any bytes, only frames with consistent length fields and a correct CRC are handed on |
| BdpReceiver.ReturnsToIdle | src/svsBdp.c:833-928 | from every state, whatever arrives, the receiver is idle again after at most 1056 further bytes |
| BdpStream.SynchronisesIffIdle | src/svsBdp.c:835-871 | preamble and start byte bring the receiver to the start of a frame if and only if it was idle before them |
| BdpStream.FrameStartsIff | src/svsBdp.c:835-871 | after any bytes from idle the receiver is at the start of a frame if and only if the last eight are preamble and start byte and it was idle before these |
| BdpStream.LengthDecides | src/svsBdp.c:880-903 | the seventh byte lets an attempt go on if and only if the length fields are inverse to each other and the length is at most 1024 |
| BdpStream.FramesArePaidFor | src/svsBdp.c:833-921 | every frame delivered from any state is at least its preamble and start byte shorter than what the receiver has consumed for it |
| BdpStream.DeliveredIffIdle | src/svsBdp.c:835-921 | from every state outside a frame, the frame written to the bus next is delivered if and only if the receiver is idle |
| BdpStream.StrayPreamblesIff | src/svsBdp.c:835-871 | `m` stray preamble bytes before a frame let it through if and only if `m` is a multiple of eight; one loses it |
| BdpStream.FrameConsumed | src/svsBdp.c:873-920 | a frame with right length fields ends the attempt at its last byte and is delivered, byte for byte, exactly when its CRC matches |
| BdpStream.WireFrameAccepted | src/svsBdp.c:1295-1344 | a well-formed frame as written to the bus is delivered once and leaves an idle receiver idle |
| BdpStream.StreamRoundTrip | src/svsBdp.c:822-920 | every sequence of well-formed frames, each preceded by any bytes other than 0xAA, decodes from idle to exactly those frames in order |
| BdpStream.CutsDoNotMatter | src/svsBdp.c:806-822 | without an over-long gap the frames received do not depend on how the stream is cut into reads, empty reads included |
| BdpStream.RecoversAfterGap | src/svsBdp.c:806-814 | after a gap over the inter-byte limit a clean stream is decoded in full from any reachable state |
| BurstErrors.ConsistentLengthUnchanged | src/svsBdp.c:880-903 | matching bits of the length and its inverse are 16 apart, so a 16-bit burst that leaves them consistent has not changed the length |
| BurstErrors.BurstBreaksCrc | src/svsBdp.c:905-919 | a burst of up to 16 bits that leaves the length fields alone, in the CRC field, the header or the payload, or across them, breaks the CRC check |
| BurstErrors.BurstNeverDelivered | src/svsBdp.c:873-920 | whatever burst of up to 16 bits hits a well-formed frame behind its start byte, the attempt begun there returns to idle within the frame and delivers nothing |
| BusReceiver.Bus.StoreByte | src/svsBdp.c:873-921 | state FRAME, in place: buffer, index, running CRC, length check and CRC check are one step of the abstract receiver |
| BusReceiver.Bus.ReceiveByte | src/svsBdp.c:833-928 | the whole switch on the receive state is one step of the abstract receiver and keeps its invariant |
| BusReceiver.Bus.Receive | src/svsBdp.c:773-938 | one read, with the inter-byte timeout and the loop over its bytes, yields exactly the abstract frames and state |
| FrameList.FrameManager.constructor | src/svsBdp.c:1859-1876 | the empty list behind its head node represents the initial server |
| FrameList.FrameManager.NodeAddFromTail | src/svsBdp.c:1911-1946 | the walk to the tail links a new node behind the last one; prev and next stay mutually consistent and the count grows by one |
| FrameList.FrameManager.NodeRemove | src/svsBdp.c:1948-1978 | unlinks exactly the given node, keeps the others in order, and does nothing for null and for the head |
| FrameList.FrameManager.NodeFind | src/svsBdp.c:1980-2002 | finds the first node with the sequence number, or null exactly when there is none |
| FrameList.FrameManager.TakeSequenceNumber | src/svsBdp.c:1171-1183 | hands out the current number and advances it in 8 bits, skipping 0 |
| FrameList.FrameManager.Transmit | src/svsBdp.c:1123-1196 | a request is refused as busy at 255 frames and as failed without an address, with nothing changed; otherwise the built frame joins at the end |
| FrameList.FrameManager.FrameFindAndRemove | src/svsBdp.c:2043-2077 | copies and removes the first frame with the number; without one the queue is unchanged |
| FrameList.FrameManager.Respond | src/svsBdp.c:1031-1092 | a response refines the abstract step: removal, then callback, reply or nothing |
| FrameList.FrameManager.ActiveElsewhere | src/svsBdp.c:2094-2115 | the inner loop finds whether any other frame of the same device, before or behind, is active |
| FrameList.FrameManager.SendIdle | src/svsBdp.c:2117-2158 | sends and activates the frame, and unlinks it at once when no response is due |
| FrameList.FrameManager.Timeout | src/svsBdp.c:2170-2195 | resends with a new stamp while retries are left, otherwise unlinks the node |
| FrameList.FrameManager.ThreadPass | src/svsBdp.c:2079-2207 | one walk over the linked list, nodes being freed on the way, refines a left-to-right pass that visits every frame of the sequence once |
| FramePass.ActiveFrame | src/svsBdp.c:2162-2198 | in every run a pass looks at each active frame at one clock reading: before its timeout nothing happens to it; from then on it is sent once more with a new stamp, or leaves as exhausted after three sendings |
| FramePass.NotBeforeTimeout | src/svsBdp.c:2162-2198 | if by every reading of the pass the timeout has not passed, the frame stays as it is and the pass does nothing about it |
| FramePass.AfterTimeout | src/svsBdp.c:2162-2198 | if by every reading it has passed, the pass sends the frame again or, after three sendings, gives it up |
| FramePass.IdleFrame | src/svsBdp.c:2094-2158 | in every run a pass sends an idle frame if and only if the queue it leaves holds no older frame of its device; it then drops it exactly for a broadcast, a frame without acknowledgement, or one without a timeout, and activates it otherwise |
| FramePass.ResponseEvents | src/svsBdp.c:1031-1092 | a response is about the first frame with its number and no other: that frame leaves as answered and its client is told exactly if the answer is expected; without such a frame nothing changes |
| FrameRequests.FramesAreRequests | src/svsBdp.c:1143-1194 | in every run every queued frame has the device, callback and times of its request, and every frame in the queue or handed to the bus decodes to the address looked up, the request's message type, flags, socket (-1 for a broadcast) and payload, its own number and the time of acceptance |
| FrameRequests.RequestAnswered | src/svsBdp.c:1137-1157 | a client is told busy exactly at 255 queued frames and failure exactly when otherwise the device has no address; a refused request changes nothing, an accepted one joins behind the others |
| FrameRuns.RunKeepsInv | src/svsBdp.c:2079-2207 | after every interleaving of requests, responses and passes the whole queue invariant holds: order, numbers, send counts, departures, notices, well-formed transmissions, at most 255 frames |
| FrameRuns.OneActivePerDevice | src/svsBdp.c:2094-2156 | in every run a device has at most one active frame, and it is the first of that device in the queue |
| FrameRuns.FirstTransmissionsInOrder | src/svsBdp.c:2094-2133 | in every run first transmissions to a device happen in the order its requests were accepted |
| FrameRuns.SentOncePerPass | src/svsBdp.c:2092-2198 | a pass hands each queued frame to the bus at most once, and no other frame |
| FrameRuns.AtMostThreeSends | src/svsBdp.c:2117-2195 | in every run no frame is handed to svsBdpFrameSend more than 3 times |
| FrameRuns.Conservation | src/svsBdp.c:2043-2195 | in every run the queue holds at most 255 frames, each accepted request is either queued or has left exactly once, and its client is told at most once, only after a response took the frame |
| FrameRuns.ClientTold | src/svsBdp.c:1031-1092 | in every run and whatever happens later, the client of a frame that a response finds is told exactly once if the answer is of the right type or an error report, wanted and in time, by callback or by reply, and never otherwise |
| FrameRuns.SendsByReason | src/svsBdp.c:2117-2195 | in every run a frame given up was sent exactly three times, one dropped because nobody answers exactly once, an answered one at most three times |
| FrameRuns.AllocationsRepeatIff | src/svsBdp.c:1171-1183 | numbers lie in 1..255, two allocations get the same number exactly when a multiple of 255 lies between them, and any 255 consecutive ones are distinct |
| FrameRuns.QueuedCarryAllocated | src/svsBdp.c:1171-1194 | in every run every queued frame carries the number allocated to its request |
| FrameRuns.SameNumberIff | src/svsBdp.c:1171-1183 | in every run two queued frames share a number exactly when a multiple of 255 requests lies between them |
| FrameRuns.ResponseRemovesIff | src/svsBdp.c:2043-2077 | in every run a response with the number of frame `i` removes exactly frame `i` and keeps the rest in order if and only if no frame before it is older by a multiple of 255 allocations |
| FrameRuns.ResponseRemovesItsRequest | src/svsBdp.c:2043-2077 | in particular it does while every queued frame is among the last 255 allocated |
| FrameDrain.QueueDrains | src/svsBdp.c:2043-2207 | from every reachable state of n frames, with no new requests and a clock that never runs back and advances by the largest timeout between passes, every interleaving of responses with more than 3n passes empties the queue |
| FrameDrain.PassesAloneDrain | src/svsBdp.c:2079-2207 | in particular more than 3n passes in a row do |
| FrameWire.TransmissionsDecoded | src/svsBdp.c:1261-1347 | whatever the thread sends in any run, in any order and behind any bytes but 0xAA, an idle receiver decodes as exactly those frames |
| FrameWire.NumbersCollide | src/svsBdp.c:1171-1183 | a concrete run in which a frame outlives 255 allocations and a response to the later frame finds the earlier |
| ArpTable.Table.Update | src/svsBdp.c:678-745 | adds an address exactly when it is neither zero, broadcast, known nor beyond a full table, at the next number; its bus and the count of that bus are recorded, and all other buses and counts stay |
| ArpTable.Table.Flush | src/svsBdp.c:747-758 | forgets every address; the per-bus counts are not in its frame, so they stay |
| ArpTable.Table.VirtualToPhysical | src/svsBdp.c:576-599 | the address of a number, broadcast for 255, an error beyond the table |
| ArpTable.Table.PhysicalToVirtual | src/svsBdp.c:604-655 | the number of a known address; an error for the zero and broadcast addresses and for unknown ones |
| ArpTable.UpdateAccepted | src/svsBdp.c:678-745 | an update succeeds exactly when the address is in the table afterwards: it was there, or is neither zero nor broadcast and there is room below 256; a new one gets the next number and the others keep theirs |
| ArpTable.PhysicalIff | src/svsBdp.c:576-599 | exactly which address each number leads to |
| ArpTable.PhysicalThenVirtual | src/svsBdp.c:576-655 | number to address to number returns every number below the table's size except 255, and only those |
| ArpTable.VirtualThenPhysical | src/svsBdp.c:576-655 | address to number to address returns exactly when the number is not 255 |
| ArpTable.RunKeepsNumbers | src/svsBdp.c:678-758 | every run of updates and flushes keeps the addresses distinct, non-zero and non-broadcast, and without a flush only appends |
| ArpTable.NumberIsStable | src/svsBdp.c:678-745 | an address keeps its number, and gets no other, through any later run without a flush |
| ArpTable.LastDeviceUnreachable | src/svsBdp.c:576-599 | a run that fills all 256 positions, after which a known device with number 255 is reached by no number |
| Backoff.BusStats.ComputeDelay | src/svsBdp.c:1408-1413 | the delay is the base plus the scaled draw doubled per turn, cut at the limit |
| Backoff.DelayBounds | src/svsBdp.c:1408-1413 | every delay lies in 5000..50000 us; the smallest draw always gives 5000, the largest 25000, 45000 and then 50000 |
| Backoff.DelayGrows | src/svsBdp.c:1408-1413 | later turns and larger draws never shorten the delay, and below the limit each turn doubles what exceeds 5000 us |
| Backoff.GapCompletes | src/svsBdp.c:1376-1388 | the gap lasts until 2000 us have passed since both the last sending and the last reception, and no longer |
| Backoff.BusStats.Wait | src/svsBdp.c:1365-1442 | at most one gap and 16 delays, each the one of its turn and its draw; success outside loopback at the first test with 5000 us of silence, failure only after activity every time; and the statistics |
| Backoff.GapWithinLimitIff | src/svsBdp.c:1376-1388 | the gap is at most 2000 us exactly when neither activity stamp lies in the future |
| Backoff.TotalUnderOneSecond | src/svsBdpMsg.h:32-37 | for every random source and every clock, the two activity stamps not being in the future, all sleeps of a call sum to at most 802 ms, under the one second limit; a call that gives up slept at least 80 ms |
| FirmwareUpload.SendBlock | src/svsApi.c:996-1006 | a block is tried until its first acknowledgement, at most max(1, retries) times |
| FirmwareUpload.Upload | src/svsApi.c:958-1031 | the blocks handed over are a prefix of the image's blocks, all of them on success, each tried until its first acknowledgement and at most max(1, retries) times; failure means a block never acknowledged or a full block that cannot be read; a short image succeeds with nothing sent |
| FirmwareUpload.ImageReproduced | src/svsApi.c:970-1025 | for every image of one block up to 4 GB, writing the blocks reproduces the image over any memory; offsets are contiguous, all blocks but the last are full, the last is short |
| FirmwareUpload.ReproducedIff | src/svsApi.c:976-981 | empty memory ends up as the image exactly when the image is empty or fills a block |
| TimeVals.DiffWithinOneMs | ccr.origin/cmgrapi.c:1130-1134 | the truncating difference of any two instants is off by less than one millisecond |
| TimeVals.DiffOvercountsIff | ccr.origin/cmgrapi.c:1130-1134 | it counts more than has passed exactly when the later microseconds are behind the earlier by other than whole milliseconds |
| CardPower.WaitsLongEnough | ccr.origin/cmgrapi.c:1190-1205 | time passed plus time waited exceeds the limit less 1 ms, despite truncation to milliseconds and to 32 bits |
| CardPower.WaitFallsShortIff | ccr.origin/cmgrapi.c:1190-1205 | time passed and time waited fall short of the limit exactly when the difference is counted too high and the limit had not passed already |
| CardPower.Sequencer.TurnOn | ccr.origin/cmgrapi.c:1153-1229 | stamps, flags, clock and power events of a power-up, with its partly set stamp flags, are the abstract step |
| CardPower.Sequencer.TurnOff | ccr.origin/cmgrapi.c:1231-1315 | the same for a power-down, including the early exit when the port is already off |
| CardPower.PowerRulesHold | ccr.origin/cmgrapi.c:1084-1097 | in every run every power-up comes more than 5499 ms after every earlier power-down and every power-down more than 1999 ms after every earlier power-up |
| CardPower.PowerOnEffect | ccr.origin/cmgrapi.c:1153-1229 | from any state a power-up switches the reader on exactly once: the first time after the full 5.5 s, later no sooner than called, within 5.5 s, and (before 2^31 ms have passed) less than a millisecond after what was missing; with the stamps and flags it leaves |
| CardPower.PowerOffEffect | ccr.origin/cmgrapi.c:1231-1298 | the same for a power-down with the port on and its 2 s |
| CardPower.PowerOffIdle | ccr.origin/cmgrapi.c:1299-1306 | a power-down with the port not on switches nothing, and the first time marks and stamps |
| CardPower.EveryCommandGiven | ccr.origin/cmgrapi.c:1153-1315 | in every run each power-up is carried out, each power-down exactly if the port is on, in order and nothing else |
| CardPower.NeedlessWaitIff | ccr.origin/cmgrapi.c:1190-1205 | with the limit passed there is still a wait exactly when the milliseconds modulo 2^32 lie below the limit or from 2^31 on |
| CardPower.LongIdleWaits | ccr.origin/cmgrapi.c:1190-1205 | two instants 2^31 ms apart after which the full 5.5 s are waited |
| CardPower.PowerOnFallsShortIff | ccr.origin/cmgrapi.c:1190-1212 | a power-up comes less than 5500 ms after the last stamped power-down exactly when the sleep overruns by less than the time counted in excess |
| CardPower.PowerOffFallsShortIff | ccr.origin/cmgrapi.c:1260-1300 | the same for a power-down and its 2000 ms |
| CardPower.TruncationCutsShort | ccr.origin/cmgrapi.c:1130-1134 | a concrete run whose power-up follows its power-down after 5499.001 ms |
| ChunkedTransmit.Port.StartTransmit | ccr.origin/Prtcl_RS232C_8_FuncDef.c:294-431 | the first exchange sends the first chunk with the right operation code and leaves index and remaining size on course |
| ChunkedTransmit.Port.ContinueTransmit | ccr.origin/Prtcl_RS232C_8_FuncDef.c:433-616 | sends the next chunk, polls exactly while the last answer announces more, completes exactly when it announces the end, and reports anything else, or a bad answer, as the error it is |
| ChunkedTransmit.Port.Transmit | ccr.origin/Prtcl_RS232C_8_FuncDef.c:161-290 | for every device: the commands sent are the payload's chunks followed by polls; how many, the result and the data returned follow from the device's answers and the caller's limit, errors included |
| ChunkedTransmit.TransmitSucceeds | ccr.origin/Prtcl_RS232C_8_FuncDef.c:161-290 | if the first n answers are good, at least one per chunk, and from the last chunk on announce more except the n-th, which announces the end, the result is no error, the data is their joined bodies cut to the limit, and if they fit exactly the chunks and n less their number polls were sent |
| ChunkedTransmit.TransmitFails | ccr.origin/Prtcl_RS232C_8_FuncDef.c:433-598 | which answer causes which error, and what data is then returned |
| ChunkedTransmit.ChunksCarryPayload | ccr.origin/Prtcl_RS232C_8_FuncDef.c:310-598 | chunks join to the payload; they are 0x04 alone or 0x05 ... 0x05 0x06; all but the last hold exactly 300 bytes; a poll is an empty 0x07 |
| ChunkedTransmit.SentIsPayloadPrefix | ccr.origin/Prtcl_RS232C_8_FuncDef.c:433-616 | the data sent is always a prefix of the payload, and all of it once the chunks are out |
| ChunkedTransmit.BytesAddUp | ccr.origin/Prtcl_RS232C_8_FuncDef.c:310-598 | bytes sent plus DataSizeToSend equal the payload's length at every point of a transmission |
| CommandSession.Link.ReceiveData | ccr.origin/RS232C_Interface.c:227-313 | exactly the requested bytes, in order, if they arrive; otherwise a timeout if nothing came, a character timeout if the bytes stopped, and an error if the line broke |
| CommandSession.Link.AwaitAck | ccr.origin/Prtcl_RS232C_8.c:402-440 | bytes other than ACK and NAK are skipped; what comes next, an ACK, a NAK, silence or a broken line, is the answer |
| CommandSession.Link.SendUntilAck | ccr.origin/Prtcl_RS232C_8.c:371-445 | the command goes out unchanged once more for every NAK and every silence, at most 4 times; success means an ACK arrived; four refusals fail by the kind of the last, and a failed sending or a broken line at once |
| CommandSession.Link.TryReply | ccr.origin/Prtcl_RS232C_8.c:462-607 | an attempt succeeds only with a correctly framed reply with the right CRC that arrived there; and every stray byte, whole, damaged or broken-off frame, broken-off length, cancellation, or silence is taken for what it is |
| CommandSession.Link.ReceiveReply | ccr.origin/Prtcl_RS232C_8.c:453-625 | for every device at most 3 NAKs for bad CRC and 3 for timeouts; for every script of attempts the first decisive one gives the result, and each one before that stopped or had a bad CRC is answered with its NAK, in order |
| CommandSession.Link.Decode | ccr.origin/Prtcl_RS232C_8.c:637-731 | a reply is decoded exactly when it is long enough and tagged positive or negative |
| CommandSession.Link.Execute | ccr.origin/Prtcl_RS232C_8.c:268-754 | for every device the line carries at most 4 commands, from each of which the reader decodes the command meant, then NAKs within limits, then exactly one ACK on success, and the result is the decoding of a CRC-correct reply that arrived; after any refusals and failed attempts within the limits a good reply is returned, with exactly these retries on the line |
| CommandSession.ReaderHears | ccr.origin/Prtcl_RS232C_8.c:334-366 | reading tag, code, parameter and data by position, with length and CRC, recovers the command from its frame |
| CommandSession.ReplyRoundTrip | ccr.origin/Prtcl_RS232C_8.c:637-731 | decoding inverts the encoding of every reply that fits the buffer, with each field at its position and the reply type by its tag |
| CommandSession.DecodedInverts | ccr.origin/Prtcl_RS232C_8.c:637-731 | encoding what was decoded rebuilds the frame, so decoding loses nothing |
| CommandSession.CommandLeavesZero | ccr.origin/Prtcl_RS232C_8.c:330-369 | every command frame, CRC included, leaves remainder zero |
| CommandSession.CrcOkIffZero | ccr.origin/Prtcl_RS232C_8.c:603-607 | the reply check accepts exactly the frames that leave remainder zero |
| IntrusiveList.List.RPush | cache/list.c:52-68 | appends the node; head, tail, prev, next and len keep representing one sequence |
| IntrusiveList.List.RPop | cache/list.c:74-88 | detaches the last node, or returns null on an empty list |
| IntrusiveList.List.LPop | cache/list.c:94-108 | detaches the first node, or returns null on an empty list |
| IntrusiveList.List.LPush | cache/list.c:115-131 | puts the node in front |
| IntrusiveList.List.Find | cache/list.c:137-158 | the first node whose value matches, null exactly when none does |
| IntrusiveList.List.At | cache/list.c:164-182 | the node at a position of the sequence, negative positions counted from the tail, null out of range |
| IntrusiveList.List.Remove | cache/list.c:188-202 | unlinks exactly the given node and keeps the others in order |
| IntrusiveList.Iterator.Next | cache/list_iterator.c:43-52 | hands out the current node having already moved on, so that node may be freed |
| StatusCache.Cache.AddUserStatus | cache/hashmap.c:94-133 | appends a record without looking for the id |
| StatusCache.Cache.CheckAndAddUserStatus | cache/hashmap.c:275-361 | adds a new user; reuses, marks or refuses the first record of a known one by its status and age |
| StatusCache.Cache.UpdateUserStatus | cache/hashmap.c:367-408 | sets status and time of the user's first record only, or fails |
| StatusCache.Cache.RemoveExpiredStatus | cache/hashmap.c:410-464 | the sweep that frees nodes while iterating refines a pass over the sequence with one clock reading per finished record |
| StatusCache.Cache.SetExpiry | cache/hashmap.c:470-495 | a longer expiry is taken over, a shorter one ignored, so that the expiry never falls below two minutes |
| StatusCache.Cache.UpdateProcessStatus | cache/hashmap.c:504-552 | sets the process status of a finished first record, otherwise fails unchanged |
| StatusCache.Cache.ForceUpdateUserStatus | cache/hashmap.c:561-618 | reopens a finished first record for a new bike, otherwise fails unchanged |
| StatusCache.Cache.RemoveUserStatus | cache/hashmap.c:177-212 | removes the user's first record only, or fails unchanged |
| StatusCache.Cache.RemoveBikeStatus | cache/hashmap.c:221-259 | removes the bike's first record only, or fails unchanged |
| StatusCache.SweepKeepsUnexpired | cache/hashmap.c:410-464 | a sweep at one instant leaves, in order, exactly the records that are not both finished and expired then |
| StatusCache.SweepBounds | cache/hashmap.c:410-464 | with a running clock a sweep keeps every record not expired when it ends and none that had expired when it began |
| StatusCache.ExpiryTestsDisagreeIff | cache/hashmap.c:275-464 | for a finished, unprocessed record check-and-add says not expired while a sweep at that instant removes it, if and only if its age equals the limit; the other way round they never disagree |
| StatusCache.SweepLeavesOut | cache/hashmap.c:410-464 | whatever the clock does, a sweep only leaves records out and never an unfinished one |
| StatusCache.OperationsKeepDistinct | cache/hashmap.c:94-618 | every operation but hash_add_user_status keeps user ids distinct; that one exactly when its id is new |
| StatusCache.OthersUntouched | cache/hashmap.c:94-618 | an operation for one user leaves all other users' records as they are, in their order |
| StatusCache.AddEffect | cache/hashmap.c:94-133 | the user gets one more record with the ids cut to 32 characters, no time and no process status, whatever there was |
| StatusCache.CheckAndAddEffect | cache/hashmap.c:275-361 | what becomes of the user's records and what is answered: a record for a new user; refusal for an unfinished or processed first record; a mark if it is not expired; else a new bike and status |
| StatusCache.UpdateStatusEffect | cache/hashmap.c:367-408 | the first of the user's records gets status and time, the rest stay |
| StatusCache.UpdateProcessEffect | cache/hashmap.c:504-552 | the first, if finished, gets the process status, the rest stay |
| StatusCache.ForceUpdateEffect | cache/hashmap.c:561-618 | the first, if finished, is taken over for another bike, unprocessed, the rest stay |
| StatusCache.RemoveUserEffect | cache/hashmap.c:177-212 | the first of the user's records goes, the rest stay |
| StatusCache.RemoveBikeEffect | cache/hashmap.c:221-259 | the first of the bike's records goes, all others stay |
| StatusCache.RunKeepsDistinct | cache/hashmap.c:94-618 | user ids stay distinct over every run without hash_add_user_status |

## Left out

- Serial ports, sockets, select, read and write, termios, udev and FPGA mapping: they appear as byte streams,
  arbitrary answers and events.
- Threads start-up, mutex creation and lock failures: each locked section is one atomic step, and so is svsBdpTx
  with its unlocked sequence counter.
- Partial writes: the frame thread ignores the result of svsBdpFrameSend, and the model records the hand-over.
- The rest of the dispatch in svsBdpRx (per-message length tables, loopback addresses, table updates on receive,
  asynchronous events): it chooses messages by constant tables. Statistics counters and log lines: no logic.
- Payloads over 1024 bytes: the frame buffers hold no more, and the limit is a type of the request.
- Allocation failure, in the frame list, the list library and the cache; mutex errors of the cache.
- list_destroy and the iterator's own allocation: nothing is left to state after them.
- User and bike ids without a terminating zero: ids are strings cut to 32 characters.
- Integer overflow of times and byte counts in 64 bits: times are unbounded. The 32-bit truncation in the power
  sequencer and the 32-bit block offset are modelled.
- Per-bus device counts after a table flush: the code decides nothing there.
- FirmwareUpload.Upload: the progress pauses and per-block timeouts are not modelled; they only delay. The loops in
  svsBdpBootblockUpload, svsKrFirmwareUpgrade and svsKrBootblockUpload are the same.
- CommandSession.Link.Execute: reply lengths that do not fit the buffers end in an error here, where the code
  relies on the device; the cancel flag, the port checks and the semaphore are left out, and so is the resynchronising
  branch that exact receives never reach. A device is a finite script of bytes and timeouts, with failure after its
  end, so unbounded skipping of stray bytes is not covered.
- CommandSession.Link.Decode: a reply whose text is under five bytes ends in an error here, where the code copies it
  with a wrapped size; as with replies too long for the buffer, what then happens to memory is not modelled.
- Files (crc16_file), CRC-8, DES and authentication, XML configuration, the rotating log, menus, card tracks, power
  manager text and DIO setters: foreign calls, I/O or easy.
- The one-shot API wrappers and the request and response tables of src/svsApi.c, and the BDP simulator: repetitive.
