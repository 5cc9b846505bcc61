# plex-octotuner: a model in Dafny

This project models the parts of plex-octotuner that take in unordered or fragmented input and
keep state while doing so, and proves what they guarantee:

- **The UDP relay** (`internal/rtsp`). RTP packets arrive in any order, carry 16-bit sequence
  numbers, and are put in order by a buffer with a one-shot flush timer whose callbacks may run
  late. `IndexedReorder` is a reorder buffer over unbounded packet indices; `ReorderMachine` is
  the 16-bit buffer as a state machine with timers; `ReorderBuffer` is the mutable object.
  `ReorderSimulation` proves that the second is the first seen through 16 bits,
  `ReorderIndices` that 16 bits determine the true indices, `ReorderLedger` conservation,
  `ReorderTimers` proves capacity, wake-ups and quiescence, `ReorderSort` proves that bounded
  displacement is undone completely. `UdpPump` is the loop around it, `UdpFailures` shows how it fails.
- **Diagnostics** (`RtpLoss`, `TsContinuity`, `TransportStream`, `RelayDiagnostics`): loss and
  continuity counters, and what they count on streams given by their bytes.
- **The TCP relay** (`RtspHeader`, `Interleaved`, `RtspConnection`): frames and RTSP responses,
  whose headers say how long they are, taken from a buffer that reads of any size refill.
- **The relayed body** (`RtpPayload`, `MediaRelay`, `EndToEnd`): RTP depacketizing, the packet
  handler, and what the HTTP client receives over either transport.
- **HDHomeRun discovery and control** (`Tlv`, `Frames`, `GetSet`, `DiscoveryRequest`, `Control`).
- **The channel lineup** (`ChannelIdentity`, `Lineup`, `Playlist`).

Objects with mutable fields are classes; each of their methods is proved equal to a function on
states, and the theorems are about those functions. A theorem about runs quantifies over every
sequence of events. Formats are tied to their bytes: for each reader there is a statement that
writes the bytes out. The environment enters as follows.

- Reads are a sequence of byte chunks of any size; the read after them fails, and may deliver
  bytes as it fails.
- Stopping a timer is a race: a boolean says whether its callback had already been released.
- Cancellation and failing writes are functions of the turn or of the number of the write.
- The CRC-32, the library's lower-casing and the path key of a URL are arbitrary functions.
  Idempotence of `normalize` needs one fact about lower-casing: that it leaves lower-case slugs
  alone. White space is Unicode's, recognised in UTF-8 (`Whitespace`).
- The unstable sort is any ordering sorted by the comparison.

Findings where the code does less than one may expect:

- A UDP datagram of less than 4 bytes makes `push` index beyond its end. The relay panics exactly
  at the first such datagram it gets to (`UdpPump.UdpPump.PumpUdp`; an input in
  `UdpFailures.ShortDatagramPanics`). The packets of the reorder buffer have at least 4 bytes
  (`SequenceNumbers.Packet`).
- A Content-Length that is negative, or so large that the response would end beyond the largest
  integer, makes the relay panic: exactly then (`Interleaved.PanicExactly`), for exactly these
  field values (`Interleaved.LengthPanics`, `RtspHeader.AtoiNegative`), for example -1
  (`Interleaved.MinusOnePanics`).
- Tag lengths beyond 32767 are encoded wrongly (`Tlv.VarLengthRoundTrip` says exactly when they
  survive). A name of 32767 bytes fits into a request but not, with the NUL appended, into a reply:
  the first tag of the reply is an empty name, and the bytes of the name are read as further tags
  (`GetSet.LongestNameIsLost`). The name is never read back (`GetSet.ReplyPayloadRoundTrip` says
  exactly when it is), and some such replies are not understood at all
  (`GetSet.LongestNameRejected`).
- A frame's length field holds 16 bits, so longer payloads are not read back
  (`Frames.FrameRoundTrip` says exactly when they are). The service can be asked for such a reply
  (`Control.OversizedAnswer`).
- A set value that ends in NUL bytes loses them (`GetSet.CStringRoundTrip`).
- A packet that cannot be relayed while the buffer is flushed at the end of a UDP relay is not
  reported. When only time ends the pump, it reports an error exactly if one of the packets sent
  before the flush could not be relayed (`UdpPump.UdpPump.PumpUdp`); an input whose failure is in
  the flush is `UdpFailures.FlushFailureIsUnreported` with `UdpFailures.FlushFailureInput`.

## Model

| member | source | states |
|---|---|---|
| SequenceNumbers.UnwrapExact | internal/rtsp/diagnostics.go:150-152 | A 16-bit number seen from index e denotes the true index exactly when that lies in [e-32768, e+32767] |
| SequenceNumbers.StaleIffOverdue | internal/rtsp/diagnostics.go:314-316 | Within that window a number is stale exactly when its index lies before the expected one |
| SequenceNumbers.SequenceIsRead | internal/rtsp/diagnostics.go:154-156 | The sequence number is the number in the third and fourth byte, the more significant one first |
| IndexedReorder.PushSettles | internal/rtsp/diagnostics.go:177-206 | In the reference buffer a push keeps emission order, the 32768 bound on gaps and the capacity of 64 |
| IndexedReorder.FlushEmitsPending | internal/rtsp/diagnostics.go:208-222 | Flushing appends exactly the held arrivals, in ascending index order |
| IndexedReorder.PushConserves | internal/rtsp/diagnostics.go:177-206 | A pushed packet is added to exactly one of emitted, held, stale and duplicate |
| ReorderBuffer.UdpRtpReorderBuffer.Push | internal/rtsp/diagnostics.go:177-206 | push is the machine's transition, for every outcome of the timer race |
| ReorderBuffer.UdpRtpReorderBuffer.FlushAvailableLocked | internal/rtsp/diagnostics.go:238-258 | The emitting loop is the machine's, and stops the timer when nothing is held |
| ReorderBuffer.UdpRtpReorderBuffer.TimerCallback | internal/rtsp/diagnostics.go:264-280 | The flush callback, early or late, is the machine's transition |
| ReorderBuffer.UdpRtpReorderBuffer.FlushRemaining | internal/rtsp/diagnostics.go:208-222 | flushRemaining terminates with nothing held and no timer armed |
| ReorderBuffer.UdpRtpReorderBuffer.FindNearestPendingSequence | internal/rtsp/diagnostics.go:288-312 | Whatever the map order, the pending number nearest to the expected one is found |
| ReorderBuffer.UdpRtpReorderBuffer.Close | internal/rtsp/diagnostics.go:224-236 | close is stop, any late callbacks, and flushRemaining; nothing is held or armed afterwards |
| ReorderBuffer.NearestUnique | internal/rtsp/diagnostics.go:302-311 | Only one pending number is nearest, so the search has one answer |
| ReorderTimers.StepKeeps | internal/rtsp/diagnostics.go:177-281 | Every critical section keeps the invariant, and all but stop keep held packets armed |
| ReorderTimers.PushKeeps | internal/rtsp/diagnostics.go:188-205 | At most 65 packets are held inside push and 64 after it |
| ReorderTimers.NoLostWakeup | internal/rtsp/diagnostics.go:194-281 | In every run without stop, held packets have an armed timer whose callback is outstanding; in every run at most 64 are held |
| ReorderTimers.CallbacksDrain | internal/rtsp/diagnostics.go:264-280 | Each callback removes a held packet, so 64 callbacks empty the buffer |
| ReorderTimers.WakeupsRelease | internal/rtsp/diagnostics.go:260-281 | While packets are held an outstanding callback can run, and such callbacks alone release every packet |
| ReorderTimers.StoppedInTime | internal/rtsp/diagnostics.go:224-281 | As long as every timer is stopped in time, the only callback outstanding is that of the armed timer |
| ReorderTimers.CloseIsQuiescent | internal/rtsp/diagnostics.go:208-236 | After close nothing is held, armed or emitted, whatever late callbacks run between and after its two sections |
| ReorderSimulation.NearestIsLeast | internal/rtsp/diagnostics.go:288-312 | A skip lands on the held packet with the least true index, so it passes over none |
| ReorderSimulation.RunAlike | internal/rtsp/diagnostics.go:177-316 | Every run whose packets arrive within the window is a run of the reference buffer on true indices |
| ReorderSimulation.EmittedInOrder | internal/rtsp/diagnostics.go:177-316 | In every such run the emitted true indices strictly increase, by at most 32768 |
| ReorderLedger.Conservation | internal/rtsp/diagnostics.go:177-252 | In every run of the 16-bit buffer the packets that arrived are the emitted, the held, the stale and the duplicate ones together |
| ReorderLedger.DropsAlike | internal/rtsp/diagnostics.go:182-193 | The stale packets are those overdue by true index, the duplicates those held under the same true index |
| ReorderSimulation.Conservation | internal/rtsp/diagnostics.go:177-252 | In the reference buffer the arrivals are the emitted, held, stale and duplicate ones together, with their indices |
| ReorderSimulation.EmittedOnce | internal/rtsp/diagnostics.go:238-252 | No index is emitted twice |
| ReorderSimulation.FlushEmitsPending | internal/rtsp/diagnostics.go:208-222 | flushRemaining of the 16-bit buffer emits the held packets in ascending true order |
| ReorderSimulation.UnwrappedWithinWindow | internal/rtsp/diagnostics.go:177-187 | Every run is within the window for the indices obtained by unwrapping its sequence numbers |
| ReorderIndices.UnwrapRecovers | internal/rtsp/diagnostics.go:150-187 | The indices of a whole run lie within the window exactly if they are the unwrapped ones, all moved by the same multiple of 65536 |
| ReorderIndices.ReadingsAgree | internal/rtsp/diagnostics.go:150-187 | Any two readings of a run differ by one multiple of 65536 for all packets, and so do the indices expected next |
| ReorderIndices.StepBetween | internal/rtsp/diagnostics.go:177-316 | No critical section moves the expectation by more than 32768 |
| ReorderSort.PushSorting | internal/rtsp/diagnostics.go:177-206 | For nearly sorted arrivals nothing is dropped and the overflow skip is never taken |
| ReorderSort.NearlySortedArrivalsComeOutSorted | internal/rtsp/diagnostics.go:177-206 | Packets at most 64 places late all come out, packet first + j as number j, across any number of wraparounds |
| RtpLoss.LossIsExact | internal/rtsp/diagnostics.go:48-77 | In true order no packet is stale, packets plus missing is the span of indices, and one warning is issued exactly if some are missing |
| RtpLoss.LossBehindReorderBuffer | internal/rtsp/diagnostics.go:48-77 | The same for what the reorder buffer has emitted, at every moment of every run |
| RtpLoss.LossOfRawStream | internal/rtsp/diagnostics.go:48-77 | For any packets at all, the counters are exact for those not older than the newest so far |
| RelayDiagnostics.RelayDiagnostics.RecordRtpPacket | internal/rtsp/diagnostics.go:48-77 | recordRtpPacket updates the RTP counters as specified and leaves the transport stream's alone |
| RelayDiagnostics.RelayDiagnostics.RecordTsPayload | internal/rtsp/diagnostics.go:79-135 | The packet loop records the whole 188-byte packets of a payload in order |
| TsContinuity.ContinuityIsPerPid | internal/rtsp/diagnostics.go:82-134 | The mismatches of a multiplex are the sum over PIDs of those found on each PID's packets alone |
| TsContinuity.TableMeaning | internal/rtsp/diagnostics.go:111-133 | The table holds last payload counter plus one mod 16, absent after an adaptation-only discontinuity, never for the null PID |
| TsContinuity.MismatchMeaning | internal/rtsp/diagnostics.go:118-131 | A mismatch is a payload counter other than the successor of the last one on its PID, with no discontinuity announced |
| TransportStream.FieldsAreRead | internal/rtsp/diagnostics.go:86-110 | Sync, PID, counter, payload flag and discontinuity flag are read back from the bytes that hold them |
| TransportStream.SyncByte | internal/rtsp/diagnostics.go:86-86 | A packet is in sync exactly when its first byte is 47 in hexadecimal |
| TransportStream.JumpsAreCounted | internal/rtsp/diagnostics.go:82-134 | On payload packets of one PID the mismatches are the jumps of the counter that no discontinuity announces |
| TransportStream.MissingPacketIsCounted | internal/rtsp/diagnostics.go:79-134 | A payload of packets counting up modulo 16 has no mismatch, and exactly one if a packet inside is left out |
| TransportStream.NullPacketsAreIgnored | internal/rtsp/diagnostics.go:114-116 | Null packets are never checked |
| TsContinuity.CountersAreTotals | internal/rtsp/diagnostics.go:82-98 | The packet and sync-loss counters are totals over the packets |
| TsContinuity.RecordPayloadAppend | internal/rtsp/diagnostics.go:79-83 | Feeding p then q equals feeding p+q when p is made of whole packets |
| TsContinuity.WholePacketsAreOneStream | internal/rtsp/diagnostics.go:79-83 | Payloads of whole packets, fed one by one, are diagnosed as one unbroken stream |
| TsContinuity.RecordPayloadWarnsOnce | internal/rtsp/diagnostics.go:86-131 | Each kind of warning is issued with the first fault and never again |
| TsContinuity.RelayWarnsOnce | internal/rtsp/diagnostics.go:86-131 | In a whole relay each warning is issued once if there is a fault of its kind, and else never |
| RtpPayload.DepacketizeSerialize | internal/rtsp/relay.go:365-401 | Depacketizing a packet built with any CSRCs, extension and padding returns its payload |
| RtpPayload.DepacketizedIsSerialized | internal/rtsp/relay.go:365-401 | Every success splits the packet into a well-formed header, the payload and padding |
| RtpPayload.SequenceOfSerialized | internal/rtsp/diagnostics.go:154-156 | The sequence number of a packet built with any header fields is read back |
| Interleaved.NextStable | internal/rtsp/relay.go:518-616 | What the buffer begins with, once decided, does not change by further reads |
| Interleaved.ScanConserves | internal/rtsp/relay.go:561-564 | Consumed items and what is left are the bytes received |
| Interleaved.ScanEncoded | internal/rtsp/relay.go:518-616 | Frames up to 65535 bytes and well-formed responses are received as sent |
| Interleaved.FrameIsTaken | internal/rtsp/relay.go:538-564 | Dollar sign, channel, two length bytes and payload are taken as that frame |
| Interleaved.ResponseIsTaken | internal/rtsp/relay.go:531-536 | A header beginning RTSP/1.0, an empty line and as many bytes as the header says are taken as that response |
| Interleaved.OthersWait | internal/rtsp/relay.go:538-543 | Anything that begins otherwise makes the pump wait for more |
| Interleaved.EvenChannelsAreMedia | internal/rtsp/relay.go:561-570 | The payloads of even channels are handed over, others and responses are not |
| Interleaved.ResponseWellFormed | internal/rtsp/relay.go:574-616 | A response with any header fields is well-formed if its last Content-Length is that of its body |
| Interleaved.PanicExactly | internal/rtsp/relay.go:597-609 | The relay panics exactly at a response whose length is negative or ends beyond the largest integer |
| Interleaved.BadStatusExactly | internal/rtsp/relay.go:583-590 | It gives up exactly at a response without a numeric status code |
| Interleaved.LengthPanics | internal/rtsp/relay.go:597-609 | Which Content-Length values make it panic, in an otherwise sound response |
| Interleaved.MinusOnePanics | internal/rtsp/relay.go:597-609 | A Content-Length of -1 does |
| RtspHeader.ReadHeader | internal/rtsp/relay.go:578-601 | The map of header fields yields the last Content-Length and a verdict on the status line |
| RtspHeader.FieldIsRead | internal/rtsp/relay.go:592-596 | A field is what stands before and after the first colon, trimmed; a line without a name is none |
| RtspHeader.NameInAnyCase | internal/rtsp/relay.go:594-599 | The name Content-Length counts in any mixture of cases, and no other name |
| Whitespace.WhiteSpaceIsRecognised | internal/rtsp/relay.go:594-594 | What is trimmed are exactly the characters that Unicode calls white space |
| RtspHeader.SplitJoin | internal/rtsp/relay.go:579-579 | The lines that make up a header are recovered |
| RtspHeader.JoinSplit | internal/rtsp/relay.go:579-579 | The lines are the header, and none of them can be split |
| RtspHeader.ContentLengthRoundTrip | internal/rtsp/relay.go:591-601 | Among any other fields a length is read back exactly when it is an integer of the machine |
| RtspHeader.NegativeLengthIsRead | internal/rtsp/relay.go:598-601 | A negative length is taken as it stands |
| RtspHeader.AtoiNegative | internal/rtsp/relay.go:599-601 | Exactly which texts are read as negative: a minus sign and digits worth more than 0, or a run of digits too large to go on |
| RtspHeader.AtoiOfOthers | internal/rtsp/relay.go:599-601 | A text that is no numeral counts as 0 |
| RtspHeader.NoContentLength | internal/rtsp/relay.go:597-601 | Without a Content-Length, or with an empty one, the length is 0 |
| RtspHeader.StatusIsRead | internal/rtsp/relay.go:583-590 | A status line is accepted exactly when its second word is an integer of the machine |
| RtspConnection.Connection.ReadResponse | internal/rtsp/relay.go:574-616 | A response is taken whole, however it was cut, and the bytes after it stay |
| RtspConnection.Connection.PumpInterleaved | internal/rtsp/relay.go:518-572 | The handler gets the even-channel payloads of the stream as a whole, all of them unless it fails or the context is found done; consumed and remaining bytes are the bytes received; otherwise the pump ends, or panics, exactly as the stream does |
| RtspConnection.Connection.ReadMore | internal/rtsp/relay.go:633-638 | A read that completes moves its bytes to the buffer and loses none, even as it fails |
| MediaRelay.RelayedBody | internal/rtsp/relay.go:298-316 | While nothing fails the writes are the non-empty payloads in order, the media headers before them, and the diagnostics are those of the packets and of the body |
| MediaRelay.RelayedUpToFailure | internal/rtsp/relay.go:298-316 | At the first failure the relay stops, with the failing write attempted if it was one |
| MediaRelay.HeadersBeforeBody | internal/rtsp/relay.go:279-316 | Whatever the packets and the client do, headers are set once and before the first byte |
| MediaRelay.HandleEachNext | internal/rtsp/relay.go:643-650 | When packets are handed over regardless of errors, there is an error exactly if some packet breaks the relay |
| MediaRelay.ErrorOnlyBeforeMedia | internal/rtsp/relay.go:108-117 | Relay returns an error exactly when the pump failed before any write was attempted; `EndToEnd.TcpRelay` and `EndToEnd.RelayUdp` state it of the pumps |
| MediaRelay.LoggedErrors | internal/rtsp/relay.go:317-327 | Once media have started, an error is passed on for logging unless the context or the connection has ended |
| MediaRelay.MediaHandler.Handle | internal/rtsp/relay.go:298-316 | The packet handler is the function that the body theorems are about |
| EndToEnd.TcpRelay | internal/rtsp/relay.go:296-327 | A connection that reads the stream in chunks of any size writes exactly the payloads framed in it, up to and including the first write that the client refuses; the relay reports an error exactly if no write was attempted |
| EndToEnd.SerializedOutcome | internal/rtsp/relay.go:298-316 | Sound packets are relayed as long as the client accepts the writes, and no longer |
| EndToEnd.RelayUdp | internal/rtsp/relay.go:328-358 | A UDP relay writes the payloads its buffer has emitted, in true index order for every reading of the sequence numbers, with exact loss; it reports an error exactly if it failed before any write was attempted |
| EndToEnd.UdpRelay | internal/rtsp/relay.go:328-358 | Over UDP, in every run, the body is the emitted payloads in true index order and the reported loss is exact |
| EndToEnd.ClosedRelayAccountsForArrivals | internal/rtsp/relay.go:641-705 | After close nothing is held, the body is the emitted payloads in true index order, and the arrivals are those, the stale and the duplicate ones |
| EndToEnd.RelayUdpInOrder | internal/rtsp/relay.go:328-358 | Fed with datagrams displaced by at most 64, the relay ends well exactly if the client accepts every payload; then it has written them in the order sent and reports no loss, otherwise it has written a prefix of them |
| EndToEnd.UdpRelayRestoresOrder | internal/rtsp/relay.go:328-358 | Over a network that displaces packets by at most 64, the client gets the payloads in the order sent and no loss is reported |
| UdpPump.UdpPump.PumpUdp | internal/rtsp/relay.go:641-705 | The buffer goes through exactly the wake-ups dealt with, the handler gets what it emits, and each result says why the pump ended; a handler error ends it as soon as it looks, and is reported exactly if a packet sent before the close could not be relayed; on time-out every datagram has been through the buffer and none is held; a panic happens exactly at a datagram of less than 4 bytes |
| UdpFailures.ShortDatagramPanics | internal/rtsp/relay.go:697-698 | One datagram of less than 4 bytes makes the relay panic |
| UdpFailures.FlushFailureIsUnreported | internal/rtsp/relay.go:688-694 | With a gap before the last datagram, a failure to relay that datagram is met in the close and not reported |
| UdpFailures.FlushFailureInput | internal/rtsp/relay.go:688-694 | There are such datagrams, whatever the client |
| UdpPump.UdpPump.CloseBuffer | internal/rtsp/relay.go:688-694 | The close flushes what is held through the handler, with late callbacks in between |
| Tlv.VarLengthRoundTrip | internal/discovery/tlv.go:32-64 | At any offset a length is read back exactly when it is at most 32767 |
| Tlv.FirstTagEncoded | internal/discovery/tlv.go:66-71 | An encoded tag is read back exactly when its body is at most 32767 bytes |
| Tlv.TagBytes | internal/discovery/tlv.go:32-71 | A length up to 127 is one byte |
| Tlv.LongTagBytes | internal/discovery/tlv.go:32-71 | A longer one is two, the low seven bits first |
| Tlv.TagsRoundTrip | internal/discovery/tlv.go:66-71 | Tags are read as they were written |
| Tlv.ReadStep | internal/discovery/tlv.go:43-64 | Reading a length from the whole packet decides as reading it from the payload slice |
| Frames.FrameRoundTrip | internal/discovery/control.go:45-80 | A built frame is read back in front of anything exactly when its payload is at most 65535 bytes |
| Frames.FrameBytes | internal/discovery/control.go:58-80 | Type, length, payload and checksum are read from the bytes that hold them; a wrong checksum is noticed |
| Frames.BuiltBytes | internal/discovery/control.go:45-56 | A built frame has these bytes |
| Frames.TryReadFrameStable | internal/discovery/control.go:58-80 | The first frame is decided by its own bytes |
| GetSet.CStringRoundTrip | internal/discovery/control.go:82-128 | A string survives its encoding exactly when it does not end in NUL |
| GetSet.ParseGetSetRequest | internal/discovery/control.go:86-122 | The parser accepts the payloads that tags tile exactly and takes the last name and value |
| GetSet.PayloadRoundTrip | internal/discovery/control.go:86-135 | With unknown tags anywhere, name and value are read back exactly when neither ends in NUL |
| GetSet.RequestBytes | internal/discovery/control.go:86-122 | A request's name is under 3 and its value under 4, each with a NUL at its end |
| GetSet.ReplyBytes | internal/discovery/control.go:130-142 | A reply has type 5, the name under 3, and the value under 4 or the message under 5 |
| GetSet.ReplyRoundTrip | internal/discovery/control.go:124-135 | A reply is a sound frame which the request parser reads back exactly when its payload fits a frame, name and value have at most 32766 bytes, and neither ends in NUL |
| GetSet.ReplyPayloadRoundTrip | internal/discovery/control.go:86-135 | The same of the payload by itself, for names and values of any length |
| GetSet.OversizedReply | internal/discovery/control.go:130-135 | A name and a value of 32766 bytes make a payload of 65540, which is not read back |
| GetSet.EchoedName | internal/discovery/control.go:124-135 | A name survives in a request up to 32767 bytes and in a reply up to 32766 |
| GetSet.LongestNameIsLost | internal/discovery/control.go:124-135 | The first tag of a reply to a name of 32767 bytes is an empty name, and the name's bytes are read as further tags |
| GetSet.LongestNameRejected | internal/discovery/control.go:124-135 | For names that begin 41 ff ff the reply to an unknown key is not understood at all |
| DiscoveryRequest.ParseHdhomerunDiscoveryRequest | internal/discovery/packets.go:120-184 | The in-place parser agrees with a parser that sees only the payload |
| DiscoveryRequest.TrailingBytesIgnored | internal/discovery/packets.go:129-136 | Bytes after the checksum never change the result |
| DiscoveryRequest.DiscoveryRoundTrip | internal/discovery/packets.go:120-184 | A framed request is read back as sent, whatever types, devices and unknown tags it lists and in whatever order; without a type it is refused |
| DiscoveryRequest.DiscoveryBytes | internal/discovery/packets.go:120-184 | The bytes of the usual request, for one type and one device, are understood |
| DiscoveryRequest.MultiTypeBytes | internal/discovery/packets.go:158-163 | So are those of one for several types |
| DiscoveryRequest.RequestMatchesConfig | internal/discovery/packets.go:186-208 | A request matches by type and by its ID, the wildcard or none |
| DiscoveryRequest.ParseHexDeviceID | internal/discovery/packets.go:210-231 | Eight hexadecimal digits of either case are read as the number they denote, anything else is refused |
| DiscoveryRequest.HexRoundTrip | internal/discovery/packets.go:216-226 | An ID printed in eight hexadecimal digits of either case denotes its number |
| DiscoveryRequest.OnlyHexDigits | internal/discovery/packets.go:218-227 | Nothing else is a digit |
| Control.SetThenGet | internal/discovery/control.go:184-249 | A set stores the value or the default and touches no other setting; read-only fields change nothing |
| Control.InitialSettings | internal/discovery/control.go:144-153 | What tuners are set to at first, and again by an empty value |
| Control.StatusTexts | internal/discovery/control.go:172-182 | The status of idle and of busy tuners |
| Control.SystemTexts | internal/discovery/control.go:287-305 | What the service answers about itself |
| Control.KeyRoundTrip | internal/discovery/control.go:256-279 | The key made of a tuner number in decimal and a field name is understood as that tuner and field |
| Control.NumeralIsUnderstood | internal/discovery/control.go:256-279 | Any numeral of the tuner's number will do, with leading zeros too |
| Control.OversizedAnswer | internal/discovery/control.go:251-285 | A service can be asked for a reply that does not fit a frame |
| Control.RequestsAreLocal | internal/discovery/control.go:251-285 | A request changes at most the one setting it names, and none without a value |
| Control.SetIsRead | internal/discovery/control.go:251-285 | What has been set is what a later request for it is answered with |
| Control.UnknownKeys | internal/discovery/control.go:256-285 | A tuner key that is not understood changes nothing and is answered with a message |
| Control.TunerRegistry.HandleControlRequest | internal/discovery/control.go:251-305 | A request is answered and applied in place as specified |
| Control.RequestsAreReceived | internal/discovery/control.go:381-395 | Damaged frames and frames of other types are skipped whole, and the requests around them are all received |
| Control.RequestOnTheWire | internal/discovery/control.go:381-395 | A frame of type 4 given by its bytes is received as the request in it |
| Control.ControlConnection.HandleControlConnection | internal/discovery/control.go:367-402 | However the stream is cut into reads, replies and tuners are those of its requests, up to the first reply that cannot be written |
| ChannelIdentity.NormalizeIsJoin | internal/channels/identity.go:14-18 | Normalizing joins the maximal runs of letters and digits by single hyphens |
| ChannelIdentity.NormalizeIsSlug | internal/channels/identity.go:14-18 | A normalized string has no leading, trailing or doubled hyphen, and no colon |
| ChannelIdentity.NormalizeKeepsLetters | internal/channels/identity.go:12-18 | Lower-case letters and digits are kept, all of them and in order, with hyphens between; a text of these alone is left as it is |
| ChannelIdentity.GapsBecomeHyphens | internal/channels/identity.go:14-18 | Whatever stands between two words becomes one hyphen |
| ChannelIdentity.NormalizeIdempotent | internal/channels/identity.go:14-18 | Normalizing twice is normalizing once |
| ChannelIdentity.KeysAreUnambiguous | internal/channels/identity.go:54-74 | Keys of identities with normalized components are equal exactly when the identities are |
| ChannelIdentity.KeyTexts | internal/channels/identity.go:54-74 | The keys as they are written, in each of the five cases |
| ChannelIdentity.EqualKeysMeanEqualIdentity | internal/channels/identity.go:54-74 | Two channels get equal keys exactly when they agree on the normalized id or, both lacking one, on the normalized number and name, and on the path key unless number and name are both present |
| Lineup.CompareOrders | internal/channels/m3u.go:193-231 | The comparison is a total preorder in which only equal keys tie |
| Lineup.CompareMeaning | internal/channels/m3u.go:193-231 | Channels compare by number, unnumbered last, then by lower-cased name, then by key, texts at the first byte that differs |
| Lineup.SlotMeaning | internal/channels/m3u.go:194-215 | Numbers compare by value, saturated at the largest 64-bit integer; channels without come after all others |
| Lineup.LessMeaning | internal/channels/m3u.go:217-229 | A text is less exactly if it is a proper beginning of the other or has the smaller byte where they first differ |
| Lineup.DropDuplicates | internal/channels/m3u.go:117-128 | The loop over seen keys keeps the first channel of each key |
| Lineup.LineupIsCanonical | internal/channels/m3u.go:113-128 | The lineup is strictly increasing, has exactly the parsed keys, and keeps a minimum of each |
| Lineup.SortedVersionExists | internal/channels/m3u.go:113-115 | The channels can be sorted, whatever they are |
| Lineup.TiesDoNotMatter | internal/channels/m3u.go:113-128 | Whatever the unstable sort does with ties, the lineup has the same keys in the same order |
| Playlist.FindExtInfSeparator | internal/channels/m3u.go:169-182 | The first comma outside quotes is found |
| Playlist.SeparatorMeaning | internal/channels/m3u.go:169-182 | A separator is a comma with an even number of quotes since the tag |
| Playlist.MetadataMeaning | internal/channels/m3u.go:65-109 | A stream URL belongs to the last metadata line with no other URL in between |
| Playlist.ParseLines | internal/channels/m3u.go:31-111 | The line machine yields one channel for each stream URL with metadata, in order |
| Playlist.SourceIndicesCount | internal/channels/m3u.go:45-63 | Source indices number the parsed channels from zero |
| Playlist.ParseM3U | internal/channels/m3u.go:31-129 | The parser returns the canonical lineup of the channels in the lines |

## Left out

- ReorderSort.NearlySortedArrivalsComeOutSorted: a displacement of at most 64 suffices; which larger displacements also happen to be undone is not described.
- ChannelIdentity.NormalizeIdempotent: assumes of the library that lower-casing leaves strings of lower-case letters, digits and hyphens alone.
- Playlist.ParseM3U: takes the classified lines and the outcome of the library's sort as inputs.
- Session set-up (DESCRIBE, SETUP, SDP, URL resolution), TLS, sockets and teardown.
- Real time: deadlines and the 20 ms delay are events that may happen at any moment.
- Goroutines are modelled by the order of critical sections; the handler call inside the emitting section is made right after it.
- After a bare `stop` a late callback may still emit; quiescence is claimed for `close` only.
- Flushing of the HTTP response, log texts and log contexts; warnings are counted.
- `streamPathKey`, SHA-256 channel IDs, attribute regular expressions and the classification of playlist lines are arbitrary functions or inputs.
- The configuration, HTTP API, SSDP and lineup serialization, and the refresh of the channel store.
- RtspConnection.Connection.ReadMore: a read that the context overtakes is not modelled; the pump then ends as cancelled, and the source drops the bytes of that read (internal/rtsp/relay.go:630-632).
- RtspConnection.Connection.ReadResponse: returns the header as text, with the body; the status code and the fields other than Content-Length, which the relayed stream does not use, are not taken out of it. Names are compared in ASCII lower case, as no other character becomes a letter of that one.
- The machine's integers have 64 bits.
- Playlist.ParseLines: takes the lines as already trimmed and classified.
- Several control connections sharing the tuners: one connection at a time is modelled.
- ISO/IEC 13818-1, section 2.4.3.3, allows a packet to be repeated once; the code counts the repetition as a mismatch, and so does the model.
