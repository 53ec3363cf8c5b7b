# A verified model of the esp8266_hosted_linux serial link

An ESP8266 acts as a network card for Linux. IP packets travel over a serial line in frames
`[2-byte little-endian length][payload][split byte]`; the split byte is 0x55 for data and 0xaa for the
commands of the start-up phase. A length below 20 (the shortest IPv4 header, section 3.1 of RFC 791) or
above 1500 makes a receiver skip to the next split byte.

The model covers both ends:

| file | models |
|---|---|
| `Framing.dfy` | the frame format and the reference decoder (`Next`, `Parse`) that gives a byte stream its meaning |
| `Resynchronisation.dfy` | what resynchronisation guarantees after arbitrary bytes, and where it cannot |
| `EspAsWritten.dfy` | the firmware's `restart` loop, its start-up readers and one call of `uart2wifi`, as pure functions |
| `EspReceiver.dfy` | the same as an object: receive buffer, state, `uart2wifi` and the three start-up readers |
| `HostAsWritten.dfy` | the driver's `ttyio_receive_data` as a pure function, and the exact condition under which it misreports |
| `HostReceiver.dfy`, `HostHazards.dfy` | the same as an object, as written and repaired, and where the condition holds |
| `Agreement.dfy` | the two receivers compared |
| `HostCuts.dfy` | the streams the driver's receiver, as written, takes right however they are cut |
| `PacketQueue.dfy`, `EspSender.dfy` | the firmware's queue (a linked list) and `wifi2uart` |
| `HostTransmit.dfy` | `uart_wifi_xmit` and the carrier, queue and wake-up flags |
| `Downlink.dfy`, `Uplink.dfy` | each direction end to end, under every interleaving of its steps |
| `Provisioning.dfy`, `Handshake.dfy` | credentials and address handshake, as the firmware sees them |
| `NetifAsWritten.dfy` | the driver's `ttyio_netif_info`, one turn of its loop as a pure function, and when a call ends |
| `NetifNoise.dfy`, `NetifText.dfy` | what noise costs its reader, and the text it prints behind what it stored |
| `HostPort.dfy` | the same as an object, and the switch to data mode |
| `SessionDown.dfy`, `SessionUp.dfy`, `Session.dfy` | a first session as one system of both ends, announcement, echo and packets interleaved in any order |
| `SessionExample.dfy` | how a data path opens, step by step |

Objects are classes with the source's own fields, updated in place; buffers are arrays. Devices and
failures are inputs: the successive FIFO readings (`polls`), the FIFO level of a send step, the outcomes
of allocations (`allocs`, `allocOk`) and of network output (`outputOk`), how many bytes a presentation
holds. Every theorem holds for all of them, so for every chunking, delay and failure pattern. The whole effect of each step is a pure
function of the state (`After` in `Downlink`, `Uplink` and `Session`, and what it is made of), the methods come to exactly
that, and a run comes to its iteration (`AfterAll`); the properties are proved of the states so reached. A reader
that busy-waits returns `None` when its FIFO readings run out. Bytes are unsigned.

## Findings

- **Driver, scan of the presented bytes.** `skip` starts at `processed` but is added to it (uart.c:165-170), so
  the scan is right only if nothing had been processed, and the result is then not the number of bytes processed
  that uart.c:52 promises. `HostHazards.OverrunExample` follows 26 bytes to a negative copy count;
  `HostHazards.GarbageAtBoundary` gives the family.
- **Driver, delivered length.** The packet gets the buffer's length, not the declared one (uart.c:116-118):
  `HostHazards.OverlongDelivery`, with an instance in `HostHazards.OverlongExample`.
- **When a call misreports.** A call misreports if it reports bytes it never looked at or delivers more bytes than a
  frame declared. `HostAsWritten.Hazard` is a computable condition on the state, the presented bytes and the outcomes of
  the call's allocations; a call misreports exactly when it holds (`HostAsWritten.HazardExact`). Without hazard the call decodes exactly the bytes it reports; the converse fails, since the
  bytes passed over may not matter (`HostHazards.BenignHazard`). More memory never removes a hazard, so `Hazard` with no failing
  allocation decides from state and bytes alone whether a call is safe whatever its allocations do
  (`HostAsWritten.SafeWhateverMemory`). There is no hazard on streams of whole frames, nor in a resynchronisation that
  begins with the call. `repaired` selects a receiver with a relative advance and with the bytes behind a frame kept; if a
  replacement buffer is not available then, the frame waits for the next call.
- **Driver, whole streams.** The streams that are safe under every cut and every pattern of allocation failures are
  exactly those in which every skipped run ends in a split byte that had already been read into the buffer
  (`HostCuts.SafeExactly`); one call with everything is the worst cut. On them the code as written delivers exactly the
  packets of the stream (`HostCuts.TameDecodes`).
- **Driver, handshake that never returns.** 15 bytes with a correct length word and a wrong trailer, or a 12
  followed by a byte that is neither 0 nor 12, make `ttyio_netif_info` loop for ever: resynchronisation looks for the byte 12 and
  finds it in first place (uart.c:280-294). Three, respectively two, turns of the loop lead back to the same state with nothing consumed
  (`NetifAsWritten.BackWhereItWas`). `NetifAsWritten.Loops` computes beforehand, from the state and the presented bytes, whether
  a call does this, and is exact (`NetifAsWritten.LoopsExact`).
- **Driver, handshake that is missed.** Its scan of the presented bytes repeats the absolute-index mistake (uart.c:297-303): a call
  reports bytes it never looked at exactly if it finds a 12 by scanning after it has used bytes (`NetifNoise.StraysExact`).
  The four bytes 0, 0, 0, 12 make it copy a negative count (`NetifNoise.OverrunOfFour`). Noise before the announcement costs it:
  given bytes without a 12 and then the announcement, in any calls, the reader gets it if and only if there is at most one such
  byte or a call ends between the second of them and the announcement (`NetifNoise.NoiseCosts`). The firmware sends it once, so
  the session then never starts.
- **Firmware, first packet.** The driver echoes 64 bytes and the handshake consumes 15. The remaining 49 are read by
  `uart2wifi` as a bad length, and its search for 0x55 ends inside the first data frame: the first
  packet the driver sends after a handshake is lost (`Handshake.TailCosts`, `Session.FirstSessionOfBoth`). A later echo has the
  printed addresses there instead of zeros, which is no better (`NetifText.StaysInert`).
- **Driver, lost wake-up.** The refusing branch of `uart_wifi_xmit` checks the room, stops the queue and requests the wake-up in
  three steps. If the line transmits everything in between, the queue stays stopped: `HostTransmit.Netdev.RefuseInterrupted` gives
  the exact schedules, `HostTransmit.LostWakeup` an instance, and `Uplink.Link.Run` says that over any run the queue is
  stranded at the end exactly if a refusal stranded it and no link-up, stop, open or outside wake-up came since; until
  then it takes no packet.
- **Firmware, send buffer.** `wifi2uart` copies a queued packet of more than 1500 bytes past its buffer (`overrun` in
  `EspSender.Sender.Wifi2Uart`); the queue itself takes up to 32768. Left to drain, the firmware overruns its buffer exactly if
  its queue ever took such a packet (`Downlink.Link.Flush`).
- **Framing.** A packet that contains the split byte can keep a lost receiver out of step for any number of
  perfect frames (`Resynchronisation.NeverBackInStep`). A packet settles if a receiver entering its frame behind any
  split byte in it ends in step; this is checkable packet by packet and exact (`Resynchronisation.SettlesExact`). Of settling
  frames at most those within 3006 bytes are lost, and within 1503 if none holds an inner split byte
  (`Resynchronisation.SelfStabilising`).
- **Credentials.** `recv_ssid` and `recv_passwd` refuse a frame only if its NUL and its split byte are both wrong
  (`Provisioning.CredentialRoundTrip`); the password attribute accepts lines shorter than the 8 bytes the reader wants, and the
  firmware then goes on waiting (`Provisioning.Provision`).

## Model

| member | source | states |
|---|---|---|
| `Framing.NextSound` | uart_wifi_passthrough/main/uart2wifi.c:281-374 | looking for one frame in any of the four grammars accounts for every byte: skipped runs with the split byte last or absent, then what is remembered, or one whole frame that passes every test, whose payload is returned, and what follows it |
| `Framing.NextAppend` | uart_wifi_passthrough/main/uart2wifi.c:281-374 | a scan in any of the four grammars can be interrupted after any byte and resumed from what it remembers |
| `Framing.ParseAppend` | uart_wifi_passthrough/main/uart2wifi.c:281-374 | decoding a concatenation is decoding the first part and resuming: packets depend only on the bytes, not on how they are cut |
| `Framing.RoundTrip` | uart_wifi_passthrough/main/wifi2uart.c:247-257 | encoding then decoding any list of packets gives them back exactly if every one has 20 to 1500 bytes |
| `Framing.PrefixDecodesToPrefix` | uart_wifi_driver/uart.c:77-146 | any part of a stream of frames decodes to a prefix of its packets |
| `Framing.Recovery` | uart_wifi_passthrough/main/uart2wifi.c:293-298 | from a lost position, or at a boundary where the next two bytes are no length, garbage up to the first split byte is dropped and all following frames are decoded |
| `Resynchronisation.SettlesExact` | uart_wifi_passthrough/main/uart2wifi.c:359-373 | entered behind any of its split bytes, a frame leaves whatever follows decoded as if from a frame boundary if and only if the packet settles, a condition on the packet alone |
| `Resynchronisation.SelfStabilising` | uart_wifi_passthrough/main/uart2wifi.c:350-373 | after any bytes and from any state, of the settling frames that follow only those ending within 3006 bytes can be missing, and within 1503 bytes if none holds an inner split byte |
| `Resynchronisation.NeverBackInStep` | uart_wifi_passthrough/main/uart2wifi.c:360-371 | counterexample family: with the split byte in the payload, a lost receiver delivers none of n perfect frames and n-1 wrong packets, for every n |
| `EspReceiver.Receiver.Uart0RecvData` | uart_wifi_passthrough/main/uart2wifi.c:33-40 | moves exactly as many bytes as the reading says, but at most 128 and at most those there are, behind those already buffered, in order, within the buffer |
| `EspReceiver.Receiver.Poll` | uart_wifi_passthrough/main/uart2wifi.c:281-314 | the restart loop comes to exactly what `Looped` says, keeps the meaning of buffered and unread bytes, the buffer bound 0..1630 and the byte accounting, and stops only with an accepted frame in front or with none complete |
| `EspAsWritten.LoopedKeeps` | uart_wifi_passthrough/main/uart2wifi.c:281-374 | a run of the loop, under any readings, keeps the meaning of the bytes and stops only with a frame that passes every test or with none complete; if the FIFO never reads empty too early, only when nothing is left to read or something was dropped |
| `EspAsWritten.SpinKeeps` | uart_wifi_passthrough/main/uart2wifi.c:50-268 | a spinning start-up reader keeps the meaning of the bytes, and with readings that never come too early has its frame if the reference decoder finds one |
| `EspReceiver.Receiver.Resync` | uart_wifi_passthrough/main/uart2wifi.c:359-373 | drops through the first split byte or everything, and logs the run dropped |
| `EspReceiver.Receiver.HandOver` | uart_wifi_passthrough/main/uart2wifi.c:343-349 | removes exactly the frame in front, keeps every byte behind it, ends in STATUS_LEN |
| `EspReceiver.Receiver.Uart2Wifi` | uart_wifi_passthrough/main/uart2wifi.c:277-375 | one call comes to exactly what `Called` says: nothing is output, or exactly the next packet of the stream; a packet once built is kept until the network takes it, and needs no further allocation; a refused output leaves it built; all packets of the stream are out once a call succeeds in finding nothing |
| `EspReceiver.Receiver.RecvCommand` | uart_wifi_passthrough/main/uart2wifi.c:50-268 | a start-up reader comes to exactly what `Spin` says: it returns the payload the reference decoder finds, for every chunking, leaves every byte behind it for the next reader, and ends in STATUS_LEN |
| `EspReceiver.Receiver.Drain` | uart_wifi_passthrough/main/main.c:199-202 | from any state, repeated calls with a cooperating network terminate with every packet of the stream output |
| `EspReceiver.SkipHit` | uart_wifi_passthrough/main/uart2wifi.c:360-370 | skipping keeps accounting and refinement: bytes are frames and skipped runs with the split byte last or absent, then buffer, then unread |
| `EspReceiver.TakeFrame` | uart_wifi_passthrough/main/uart2wifi.c:343-348 | handing a frame over keeps accounting and refinement, one packet further |
| `HostAsWritten.HazardExact` | uart_wifi_driver/uart.c:77-177 | from any state and at any point of a call as written: it reports bytes it never looked at, or delivers more than declared, if and only if `Hazard` holds |
| `HostAsWritten.SafeWhateverMemory` | uart_wifi_driver/uart.c:120-146 | a call is safe under every pattern of allocation failures if and only if it is without any: an exact condition on state and presented bytes alone |
| `HostReceiver.Host.AllocNewSkb` | uart_wifi_driver/uart.c:25-48 | a fresh empty buffer in STATUS_LEN, or none and the state untouched |
| `HostReceiver.Host.ReceiveData` | uart_wifi_driver/uart.c:53-183 | as written it computes exactly `Written`, with the bytes looked at and delivered in excess; it reports unseen bytes or over-long packets if and only if `Hazard` holds beforehand; otherwise the bytes reported are decoded as the grammar says, for every allocation pattern; repaired, this holds on every input |
| `HostReceiver.ScanHitStep` | uart_wifi_driver/uart.c:165-173 | the scan step, repaired and as written: the latter counts the bytes processed before it twice |
| `HostReceiver.DeliverStep` | uart_wifi_driver/uart.c:112-146 | delivery as written, with or without a replacement buffer, and the bytes delivered beyond the declared length |
| `HostHazards.NoHazardOnFrames` | uart_wifi_driver/uart.c:80-146 | on whole frames no hazard: whatever is buffered, however much is presented, whichever allocations fail |
| `HostHazards.SafeOnFrames` | uart_wifi_driver/uart.c:70-146 | a receiver that decoded a part of a stream of frames may be presented any part of the rest |
| `HostHazards.RecoversFromLost` | uart_wifi_driver/uart.c:149-177 | a resynchronisation that begins with the presentation meets no hazard |
| `HostHazards.GarbageAtBoundary` | uart_wifi_driver/uart.c:92-97 | two bytes that are no length at a boundary are a hazard whenever the next split byte comes in the same presentation |
| `HostHazards.OverrunExample` | uart_wifi_driver/uart.c:165-173 | a concrete presentation that holds a packet, of which the code as written delivers nothing before copying a negative count |
| `HostHazards.BenignHazard` | uart_wifi_driver/uart.c:165-173 | a concrete presentation on which a call misreports and still ends with the right packets and state: for what a caller sees, hazard is necessary and not sufficient |
| `HostHazards.OverlongDelivery` | uart_wifi_driver/uart.c:112-134 | a family of presentations of which the code as written delivers a packet longer than declared |
| `HostHazards.OverlongExample` | uart_wifi_driver/uart.c:112-134 | a concrete 63-byte presentation of which the code as written delivers a packet with 37 bytes too many |
| `Agreement.EspDecodes` | uart_wifi_passthrough/main/uart2wifi.c:277-375 | on every byte stream: any calls with any readings and refusals output exactly what `AfterCalls` says, a part of the reference decoding, and a drain then outputs all of it |
| `Agreement.HostDecodes` | uart_wifi_driver/uart.c:53-183 | the same of the repaired driver, unprocessed bytes being presented again; with enough memory it has delivered after every presentation exactly the packets complete by then |
| `Agreement.ReceiversAgree` | uart_wifi_driver/uart.c:77-177 | firmware and repaired driver deliver the same packets on every byte stream, whatever cuts and failures each meets |
| `HostCuts.SafeExactly` | uart_wifi_driver/uart.c:77-177 | no cut of a stream into presentations and no pattern of allocation failures meets a hazard if and only if the stream is tame, a condition on its bytes alone: every skipped run ends in a split byte already read, or no split byte follows, and no frame ends short of what was read |
| `HostCuts.TameDecodes` | uart_wifi_driver/uart.c:53-183 | on every tame stream the driver as written delivers exactly the packets of the reference decoding, for every cut and every failure, and after any presentations exactly what `Served` says, a part of them |
| `HostCuts.FramesAreTame` | uart_wifi_driver/uart.c:80-146 | streams of frames of 20 to 1500 bytes are tame |
| `PacketQueue.ThreadSafeQueue.Enqueue` | uart_wifi_passthrough/main/wifi2uart.c:52-103 | appends a copy, or refuses with the code the source gives and changes nothing; total is the sum of lengths and at most 32768 |
| `PacketQueue.ThreadSafeQueue.Dequeue` | uart_wifi_passthrough/main/wifi2uart.c:106-142 | removes the oldest packet; head and tail are null exactly when empty |
| `PacketQueue.ThreadSafeQueue.Clear` | uart_wifi_passthrough/main/wifi2uart.c:145-169 | walks the chain to its end and leaves an empty queue |
| `EspSender.Sender.UartWifiRecv` | uart_wifi_passthrough/main/wifi2uart.c:206-221 | a packet of any length is appended to what the queue and the sender hold exactly if it is not empty, fits the bound and memory is there, and is dropped otherwise |
| `EspSender.Sender.Uart0FillTxfifo` | uart_wifi_passthrough/main/wifi2uart.c:224-234 | writes the first bytes that fit: the shorter of what is given and 128 less the level, or, the room being computed in eight bits, 384 less a level above 128; a FIFO of 128 is never overfilled |
| `EspSender.Sender.Wifi2Uart` | uart_wifi_passthrough/main/wifi2uart.c:241-268 | the packet framed, the bytes written and what is left are exactly those of `Framed`, `Fed` and `Remaining`; bytes written plus bytes pending are always the frames of all packets framed, in order; the buffer is overrun exactly if nothing is pending and the next packet has more than 1500 bytes; room and work mean progress |
| `Downlink.Link.InOrder` | uart_wifi_driver/uart.c:53-183 | in every reachable state the packets delivered by the driver as written are a prefix of those the queue accepted, if these have 20 to 1500 bytes; once nothing is queued, pending or in flight all are delivered if and only if they have |
| `Downlink.Link.Run` | uart_wifi_passthrough/main/wifi2uart.c:206-268 | every run of enqueues of packets of any length, send steps and presentations leaves exactly the state of `AfterAll`, with the properties of `InOrder` |
| `Downlink.Link.Flush` | uart_wifi_passthrough/main/main.c:199-202 | from every reachable state, steps with room and memory terminate with nothing on the wire, in an overrun if and only if the queue ever took a packet above 1500 bytes, and with everything accepted delivered if and only if all packets have 20 to 1500 bytes |
| `HostTransmit.Netdev.Xmit` | uart_wifi_driver/netdev.c:122-158 | all or nothing, for any payload size: nothing written, counted or changed but the queue stopped and the wake-up requested, or one frame of linear part and fragments, whole if the length has 16 bits and cut by the tty otherwise, with counters in step |
| `HostTransmit.Netdev.RefuseInterrupted` | uart_wifi_driver/netdev.c:134-138 | the refusal as three steps with transmissions in between: the bytes go out in order, and the queue is stranded if and only if the line emptied meanwhile under carrier and no earlier request was still standing for a transmission to answer when it was stopped |
| `HostTransmit.LostWakeup` | uart_wifi_driver/netdev.c:134-138 | a concrete schedule: a packet of 1500 bytes fills the tty, the next is refused, all bytes go out before the queue is stopped, and it is stranded |
| `HostTransmit.Netdev.WriteWakeup` | uart_wifi_driver/uart.c:14-23 | clears the request and wakes the queue if the carrier is on |
| `HostTransmit.Netdev.TxDone` | uart_wifi_driver/uart.c:9-13 | a queue stopped under carrier has a wake-up requested and bytes left whose transmission wakes it |
| `HostTransmit.Netdev.CarrierUp` | uart_wifi_driver/netdev.c:26-32 | carrier on and queue running, keeping the flow-control invariant |
| `HostTransmit.Netdev.Stop` | uart_wifi_driver/netdev.c:113-114 | carrier off and queue stopped, keeping the flow-control invariant |
| `HostTransmit.Netdev.Open` | uart_wifi_driver/netdev.c:82 | carrier off, keeping the flow-control invariant |
| `Uplink.Link.InOrder` | uart_wifi_passthrough/main/uart2wifi.c:318-349 | in every reachable state the packets output are a prefix of what all bytes mean, and of the packets accepted if start-up left nothing behind and these have 20 to 1500 bytes |
| `Uplink.Link.Step` | uart_wifi_driver/netdev.c:26-32 | every step comes to exactly what `After` says of tty, flags, line and firmware; it strands the queue if and only if it is a refusal interrupted at the wrong moments or for more room than there ever is; a stranded queue stays so until a link-up, stop, open or outside wake-up |
| `Uplink.Link.Run` | uart_wifi_driver/netdev.c:122-158 | every run of transmissions of any size, interrupted refusals, serial progress, `uart2wifi` calls with any refusals, open, stop, link and wake-up events leaves exactly the state of `AfterAll`; the queue is stranded at the end if and only if some step stranded it and none since rescued it, and meanwhile nothing is accepted |
| `Uplink.Link.Flush` | uart_wifi_passthrough/main/main.c:199-202 | from every reachable state the output becomes the decoding of the whole stream, if all packets have 16-bit lengths; with nothing left behind by start-up, each accepted packet exactly once and in order if and only if all have 20 to 1500 bytes |
| `Provisioning.Attributes.Store` | uart_wifi_driver/main.c:38-82 | a line ending in newline and within the limit becomes a length word, the line up to its first NUL or its newline, zeros to the length of the line, and 0xaa; any other changes nothing |
| `Provisioning.CredentialRoundTrip` | uart_wifi_passthrough/main/uart2wifi.c:65-94 | a credential frame is read back as sent exactly if its length is 1 to 32 for an ssid, 8 to 64 for a password, and its last payload byte is NUL or its split byte right |
| `Provisioning.Provision` | uart_wifi_passthrough/main/main.c:119-122 | both lines, in any pieces, come back without their newline and terminated; with enough readings the password does if and only if its line has 8 bytes or more |
| `Handshake.EchoAgreement` | uart_wifi_passthrough/main/uart2wifi.c:210-245 | an echo of 64 bytes with no 0xaa behind its first 15 satisfies the reader exactly if those 15 are the announcement, even where address bytes force resynchronisation |
| `Handshake.Announcement` | uart_wifi_passthrough/main/main.c:27-46 | the announcement is that of the first interface with the address, or there is none with it: 12, 0, then address, mask and gateway, then 0xaa |
| `Handshake.StartHock` | uart_wifi_passthrough/main/main.c:18-57 | announces the interface with the address, in those 15 bytes; the reader comes to exactly what `Opening` says; the data path opens only on agreement, with exactly the rest of the echo left over, and does open on agreement |
| `Handshake.TailCostsAFrame` | uart_wifi_driver/uart.c:264-272 | bytes without 0x55 that start with no length, before the first frame, cost that frame; the others survive if it holds no inner split byte |
| `Handshake.TailCosts` | uart_wifi_driver/uart.c:264-272 | of the packets behind such bytes all come through if and only if there are none; else exactly those decoded from behind the first split byte of the first frame |
| `Handshake.FirstSession` | uart_wifi_passthrough/main/main.c:48-55 | handshake, any run of transmissions and a drained line: the data path opens if and only if the echo begins with the announcement sent, the packets accepted are those of the run, and the output is the decoding of the echo's rest and the accepted frames, with the loss of `TailCosts` |
| `NetifAsWritten.BackWhereItWas` | uart_wifi_driver/uart.c:215-294 | from 15 bytes with length 12 and a wrong trailer three turns of the loop, and from a 12 followed by bytes that are no 12, the next of them no 0, two turns, lead back to the same state with nothing consumed |
| `NetifAsWritten.CirclesNeverReturns` | uart_wifi_driver/uart.c:212-315 | from such a state no number of turns ends the call |
| `NetifAsWritten.LoopsExact` | uart_wifi_driver/uart.c:212-315 | from every state a call can reach: it never returns if and only if the computable condition `Loops` on state and presented bytes holds, and otherwise ends where `End` says |
| `NetifAsWritten.ProperRun` | uart_wifi_driver/uart.c:215-277 | on bytes that begin like a handshake frame, in any pieces: the call waits with everything stored, or announces at 15 bytes with the rest unprocessed, or never returns if the trailer is wrong |
| `NetifNoise.StraysExact` | uart_wifi_driver/uart.c:297-303 | a call that returns reports bytes it never looked at if and only if a scan of presented bytes finds a 12 after the call has used some, decided without indices |
| `NetifNoise.NoiseCosts` | uart_wifi_driver/uart.c:215-306 | for any bytes without a 12 followed by an announcement, in any calls: the announcement is got if and only if there is at most one such byte, or a call ends between the second of them and the announcement; and what is stored is then the announcement |
| `NetifNoise.OverrunOfFour` | uart_wifi_driver/uart.c:297-303 | four concrete bytes after which a call counts five and copies a negative count |
| `NetifNoise.AnnouncementGone` | uart_wifi_driver/uart.c:297-306 | two zero bytes and an announcement in one call: all 17 bytes are reported and nothing is kept |
| `HostPort.Port.NetifInfo` | uart_wifi_driver/uart.c:193-315 | on all inputs: stuck if and only if `Loops` holds beforehand, and otherwise exactly the end `End` computes; with the announcement the 64 bytes are echoed, then the addresses are printed behind the 15, and state and count are not stored back |
| `HostPort.Port.Listen` | uart_wifi_driver/uart.c:317-333 | calls in a row until the reader no longer waits come to what `Reader` says, of which `NoiseCosts` speaks |
| `NetifText.ThreeLines` | uart_wifi_driver/uart.c:187-189 | the text is three lines, each of four decimal numbers joined by dots and ended by a newline |
| `NetifText.ReadsBack` | uart_wifi_driver/uart.c:185-190 | for every address, mask and gateway the printed text reads back as the twelve bytes; it is cut, by its last newline, if and only if every byte has three digits |
| `NetifText.StaysInert` | uart_wifi_driver/uart.c:267-272 | the text printed behind the 15 bytes keeps them free of split bytes and of a legal length, so a later echo costs the first packet as the first does |
| `HostPort.Port.ReceiveBuf2` | uart_wifi_driver/uart.c:317-333 | one call in either mode comes to exactly what `Heard` says and keeps the session invariant, and no byte is lost at the switch |
| `HostPort.FirstConnection` | uart_wifi_driver/uart.c:251-277 | announcement and frames in any pieces with any allocation failures: the calls leave exactly the state of `Served`, and in the end the first 15 bytes are stored and echoed in front of zeros, and the packets delivered exactly if all have 20 to 1500 bytes |
| `SessionDown.Down.InOrder` | uart_wifi_driver/uart.c:317-333 | with queue, sender and line discipline on one wire, in every reachable state: nothing is delivered before the announcement is stored, and what is delivered is a prefix of what the queue took, all of it once drained if and only if it can be carried |
| `SessionUp.EchoSoFar` | uart_wifi_passthrough/main/uart2wifi.c:193-268 | however much of the echo has arrived, the reader has its frame if and only if 15 bytes have, and leaves exactly the others |
| `SessionUp.Up.InOrder` | uart_wifi_passthrough/main/uart2wifi.c:277-375 | in every reachable state: no output before the echo is read, and then a prefix of what follows the first split byte of the first frame sent |
| `Session.Link.InOrder` | uart_wifi_passthrough/main/main.c:48-55 | in every reachable state of both ends: carrier and data path are on only if the driver stored the announcement, the driver delivers only what the queue took, in order, and the firmware only what is decoded from behind the first split byte of the first frame sent |
| `Session.Link.Step` | uart_wifi_passthrough/main/main.c:18-57 | every step of either end, with packets of any length, interrupted refusals and a stop that ends the session, comes to exactly what `After` says, keeps the invariant, and adds to the accepted packets exactly what the queue takes of the network once the firmware runs, and what the tty has room for while the queue is running |
| `Session.Link.Run` | uart_wifi_passthrough/main/main.c:48-55 | every run leaves exactly the state of `AfterAll` |
| `Session.Link.Flush` | uart_wifi_passthrough/main/main.c:199-202 | from every reachable state of an open session the handshake completes and both lines drain, or the firmware overruns its buffer, if and only if its queue ever took a packet above 1500 bytes |
| `SessionExample.Opens` | uart_wifi_passthrough/main/main.c:48-55 | announcement, one presentation, one stretch of the line, one reading and a link-up: the driver has stored the 15 bytes, the firmware runs with the rest of the echo buffered, the carrier is on and the queue running |
| `Session.FirstSessionOfBoth` | uart_wifi_passthrough/main/main.c:18-57 | any run of both ends: what was taken on either side is what the run of `AfterAll` took; if it was not stopped, the driver has stored the announcement sent, with address, mask and gateway in place, has delivered exactly the packets taken if and only if all can be carried, and without an overrun the firmware has delivered all the driver's packets if and only if there are none, else exactly those behind the first split byte of the first; if it was stopped, all is as the run left it |

## Left out

- EspSender.Sender.Wifi2Uart: what the memory behind an overrun send buffer then holds; after an overrun the firmware of the model sends
  and reads nothing more.
- Uplink.Link.Flush: what a payload of 65536 bytes or more, which no IPv4 packet has, means to the receiver; `HostTransmit.Netdev.Xmit` says
  what is written of it.
- Session.Link.Step: opening the interface again after a stop begins another session, which is not part of it.
- HostTransmit.Netdev.RefuseInterrupted: preemption elsewhere in `uart_wifi_xmit` and in `ttyio_write_wakeup` is not modelled.
- Null queue pointers and a failing mutex; queue operations are atomic steps.
- Sessions after the first: a receive buffer left over from an earlier one, resets, `flush_buffer` of the tty.
- The byte-by-byte waiting of `send_to_uart0_sync`: the announcement is sent in one step.
- tty and line-discipline set-up, GPIO, interrupts, timing, probing, device tree, sysfs reads and the `tty_name` attribute,
  dumps, `uart_wifi_receive`, receive statistics, lwIP and Wi-Fi internals.
