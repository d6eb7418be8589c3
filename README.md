# Tiqiaa USB IR blaster drivers in Dafny

This project models the protocol core of the Tiqiaa USB infrared blaster
support in TV-Killer. The app holds two generations of the driver, and both
are modelled, separately:

- **`TiqiaaUsbDriver`** (`TiqiaaRemote.kt`) is a class with mutable fields.
  - **Device handling.** It finds a compatible device, opens it and scans
    interface 0 for the bulk IN and OUT endpoints.
  - **Bootstrap.** It sends the Idle and Send commands to boot the device.
  - **Pulse encoding.** It encodes a pulse pattern in place into a 1017-byte
    buffer with `writePulse`. Each byte is a run of up to 127 ticks of 16 µs,
    with bit 7 set for a mark.
  - **Packets.** It frames command packets (`ST id type EN`) and data packets
    (`ST id 'D' freqId pulses EN`).
  - **Transport.** `sendReport2` cuts a packet into fragments of at most 56
    bytes behind a 5-byte header with a cyclic packet index, and
    `recResponse` reads the acknowledgement.
- **`UsbIrService`** (`UsbIrService.kt`) is the older, write-only generation.
  - **Encoding.** It has a pure pulse encoder.
  - **Counters.** Companion-object counters number the commands and the
    packets.
  - **Device test.** `isCompatibleDevice` checks the device.
  - **Sending.** `transmit` frames the packet, cuts it into chunks sized to the
    OUT endpoint, and sends a ready frame, the data fragments and a sleep
    frame. A short transfer closes the service.

## How the model is organised

The project has one module per concern.

- **`Usb`** holds bytes (0..255), Kotlin's `toByte()` (`ToByte`, reduction
  mod 256) and truncating division (`TruncDiv`). It also holds the USB
  entities (devices, interfaces, endpoints) and a scripted bus, `UsbBus`.
  - **Transfer results.** The bus returns the bulk-OUT results and the
    bulk-IN reads from a script (`Wire`) and logs every OUT transfer in order.
    An exhausted script answers -1, as a timed-out transfer does.
  - **Other answers.** Permission, `openDevice` and the device list are
    fields of the bus.
- **`Fragments`** holds Kotlin's `chunked`, the 5-byte fragment header
  `[2, len+3, packId, count, index]`, and reassembly.
- **`IrCode`** holds the pulse byte format and a decoder from pulse bytes to
  runs. The decoder is the reference that both encoders are proved against.
  The module also holds the 30-entry carrier frequency table.
- **`TiqiaaProtocol`** holds the TiqiaaUsbDriver logic as pure functions of
  the driver's state.
  - **Exceptions are modelled explicitly.** A `!!` on a null connection and a
    bulk transfer on a null endpoint both throw. A send then ends `Raised`
    instead of `Returned`, and a driver call ends with `Step.threw`.
- **`TiqiaaDriver`** holds the class `TiqiaaUsbDriver`.
  - **Fields.** They are those of the Kotlin class, on a `UsbBus`.
  - **Arrays.** `writePulse` fills an `array<byte>` in place, and
    `sendIrCmd` copies into a 1024-byte `packBuf`.
  - **Contracts.** Each method is proved against the matching function of
    `TiqiaaProtocol`.
- **`IrService`** holds UsbIrService.
  - **Encoder.** It is a function. `usbTickToUsbByteCode` and
    `consumeIrToByteCode` are loops proved equal to it.
  - **Companion object.** It is a class with the two counters and
    `INSTANCE`.
  - **`UsbIrService`.** It is a class whose `transmit` is proved against
    `TransmitSpec`.
- **`Generations`** states where the two generations agree and where they
  differ.
  - **Encoders.** They agree on every pattern whose durations are all at
    least 16 µs.
  - **Zero-tick marks.** They differ on a mark of zero ticks.
  - **Frequencies.** They differ on frequencies 30..255.
  - **Command ids.** They differ from call 126 on.

The model keeps these quirks of the code as written:

- **`findDevice` checks ids only.** It matches on the vendor and product id
  alone and does not check the endpoint count of interface 0.
- **`deinit` keeps the endpoints.** It leaves `endpointIn` and `endpointOut`
  as they were.
- **A zero-tick mark still sends a byte.** In `TiqiaaUsbDriver`, `writePulse`
  writes one byte for a mark under 16 µs. Only `UsbIrService`'s encoder
  writes nothing for it.
- **`getCmdId` in `TiqiaaUsbDriver` does not cycle 1..127.** It never issues
  127, and it issues 1 twice in a row when the counter wraps.
- **A failed re-initialisation can leave the driver ready.** If `init`
  cannot open the device a second time, `isInitialized` stays true.
- **`transmit` numbers its frames out of sending order.** The data packet
  draws the first new cmdId and packet id. `toReady` then draws the next
  pair, and `toSleep` the pair after. So the ready frame goes out first but
  carries the ids drawn after those of the data fragments sent after it.

## Model

All `TiqiaaRemote.kt` and `UsbIrService.kt` paths are under `app/src/main/java/ru/wasiliysoft/tiqiaa_usb_demo/`.

| member | source | states |
|---|---|---|
| TiqiaaProtocol.FindDevice | app/src/main/java/ru/wasiliysoft/tiqiaa_usb_demo/TiqiaaRemote.kt:216-223 | none is found exactly when no listed device has a compatible vendor/product id; otherwise the result is the first compatible device in the list |
| TiqiaaProtocol.LastBulk | app/src/main/java/ru/wasiliysoft/tiqiaa_usb_demo/TiqiaaRemote.kt:128-136 | the endpoint scan keeps the previous value when no bulk endpoint has the direction, and otherwise ends on the last bulk endpoint of that direction |
| TiqiaaProtocol.CmdIdStep | app/src/main/java/ru/wasiliysoft/tiqiaa_usb_demo/TiqiaaRemote.kt:225-232 | from a field in 1..127, getCmdId returns an id in 1..126 and leaves the field in 1..127 |
| TiqiaaProtocol.CmdIdAfter | app/src/main/java/ru/wasiliysoft/tiqiaa_usb_demo/TiqiaaRemote.kt:19-19 | after any number of calls from the initial 1, the field stays in 1..127 |
| TiqiaaProtocol.CmdIdAfterClosed | app/src/main/java/ru/wasiliysoft/tiqiaa_usb_demo/TiqiaaRemote.kt:225-232 | after n calls the field is n mod 127 + 1 |
| TiqiaaProtocol.IssuedCmdIdClosed | app/src/main/java/ru/wasiliysoft/tiqiaa_usb_demo/TiqiaaRemote.kt:225-232 | call n issues 1 when n mod 127 = 126 and n mod 127 + 1 otherwise, so 1 is issued twice in a row at the wrap |
| TiqiaaProtocol.NextPacketIdx | app/src/main/java/ru/wasiliysoft/tiqiaa_usb_demo/TiqiaaRemote.kt:307-307 | the new packet index is in 1..15, and it is the old one plus 1 below 15 |
| TiqiaaProtocol.PacketIdxAfter | app/src/main/java/ru/wasiliysoft/tiqiaa_usb_demo/TiqiaaRemote.kt:18-18 | from the initial 0 the packet index stays in 0..15 |
| TiqiaaProtocol.PacketIdxAfterClosed | app/src/main/java/ru/wasiliysoft/tiqiaa_usb_demo/TiqiaaRemote.kt:307-307 | after n > 0 reports the packet index is (n-1) mod 15 + 1 |
| TiqiaaProtocol.FrequencyId | app/src/main/java/ru/wasiliysoft/tiqiaa_usb_demo/TiqiaaRemote.kt:277-284 | the frequency is rejected exactly when it lies in 30..255 |
| TiqiaaProtocol.FrequencyIdSpec | app/src/main/java/ru/wasiliysoft/tiqiaa_usb_demo/TiqiaaRemote.kt:277-284 | above 255 it is the first table position of the frequency, or 0 when absent; below 30 it is the frequency itself; accepted non-negative ids are below 30 |
| IrCode.IndexOf | app/src/main/java/ru/wasiliysoft/tiqiaa_usb_demo/TiqiaaRemote.kt:278-278 | indexOf is -1 exactly when the value is absent, and otherwise it is the value's first position |
| TiqiaaProtocol.CommandPacketParses | app/src/main/java/ru/wasiliysoft/tiqiaa_usb_demo/TiqiaaRemote.kt:234-245 | a command packet has 6 bytes and parses back to its id, its type and an empty body |
| TiqiaaProtocol.CommandPacket | app/src/main/java/ru/wasiliysoft/tiqiaa_usb_demo/TiqiaaRemote.kt:234-245 | sendCmd's packet is six bytes, with the command id at position 2 and the command type at position 3 |
| TiqiaaProtocol.DataPacket | app/src/main/java/ru/wasiliysoft/tiqiaa_usb_demo/TiqiaaRemote.kt:268-294 | sendIrCmd's packet is the pulse bytes, unchanged, between five header bytes and two end bytes |
| TiqiaaProtocol.CmdSent | app/src/main/java/ru/wasiliysoft/tiqiaa_usb_demo/TiqiaaRemote.kt:234-245 | a successful sendCmd advanced the command id and the packet index and wrote exactly one report: [2, 9, next packet index, 1, 1, 'S', 'T', next command id, command type, 'E', 'N'] |
| TiqiaaProtocol.BootstrapSent | app/src/main/java/ru/wasiliysoft/tiqiaa_usb_demo/TiqiaaRemote.kt:146 | a successful Idle-then-Send bootstrap wrote exactly the Idle report and then the Send report, with consecutive command ids and packet indices |
| TiqiaaProtocol.DataPacketParses | app/src/main/java/ru/wasiliysoft/tiqiaa_usb_demo/TiqiaaRemote.kt:286-294 | a data packet has bufSize + 7 bytes and parses back to its id, 'D', the frequency id and the pulse bytes |
| TiqiaaProtocol.DataPacketLayout | app/src/main/java/ru/wasiliysoft/tiqiaa_usb_demo/TiqiaaRemote.kt:286-294 | any byte sequence with the start sign, id, 'D', frequency id, pulses and end sign at those positions is the data packet |
| TiqiaaProtocol.FragmentAt | app/src/main/java/ru/wasiliysoft/tiqiaa_usb_demo/TiqiaaRemote.kt:306-321 | fragment i is the header [2, fragSize+3, packetIdx, fragCount, i+1] followed by data[rdPtr..rdPtr+fragSize], with rdPtr = 56i and fragSize = min(size - rdPtr, 56) |
| TiqiaaProtocol.CommandFragment | app/src/main/java/ru/wasiliysoft/tiqiaa_usb_demo/TiqiaaRemote.kt:300-321 | a command goes out as the single report [2, 9, packetIdx, 1, 1, 'S', 'T', id, type, 'E', 'N'] |
| Fragments.ChunkCount | app/src/main/java/ru/wasiliysoft/tiqiaa_usb_demo/TiqiaaRemote.kt:306-306 | the number of chunks is the ceiling of size / chunk size, as fragCount computes it |
| Fragments.CeilDiv | app/src/main/java/ru/wasiliysoft/tiqiaa_usb_demo/TiqiaaRemote.kt:306-306 | size / 56 plus one for a remainder is the ceiling of size / 56 |
| Fragments.Chunked | app/src/main/java/ru/wasiliysoft/tiqiaa_usb_demo/UsbIrService.kt:97-106 | every chunk is non-empty and at most the chunk size, and every chunk but the last is full |
| Fragments.FlattenChunked | app/src/main/java/ru/wasiliysoft/tiqiaa_usb_demo/UsbIrService.kt:97-106 | the chunks concatenate back to the packet |
| Fragments.FragmentRoundTrip | app/src/main/java/ru/wasiliysoft/tiqiaa_usb_demo/UsbIrService.kt:106-121 | stripping the headers of the framed chunks and joining the payloads gives back the packet |
| Fragments.ReassembleFrames | app/src/main/java/ru/wasiliysoft/tiqiaa_usb_demo/UsbIrService.kt:112-121 | reassembling framed chunks yields their concatenation |
| Fragments.FrameHeader | app/src/main/java/ru/wasiliysoft/tiqiaa_usb_demo/UsbIrService.kt:112-120 | frame i starts with [2, len+3, packId, count, i+1] and carries chunk i after it |
| Fragments.Frames | app/src/main/java/ru/wasiliysoft/tiqiaa_usb_demo/UsbIrService.kt:112-121 | there is one frame per chunk |
| TiqiaaProtocol.PulseBytes | app/src/main/java/ru/wasiliysoft/tiqiaa_usb_demo/TiqiaaRemote.kt:247-260 | writePulse always writes at least one byte |
| TiqiaaProtocol.DurationBytes | app/src/main/java/ru/wasiliysoft/tiqiaa_usb_demo/TiqiaaRemote.kt:247-260 | writePulse writes at least one byte for every duration, negative or zero included |
| TiqiaaProtocol.PatternBytes | app/src/main/java/ru/wasiliysoft/tiqiaa_usb_demo/TiqiaaRemote.kt:191-210 | the pulse buffer sendIrSignal builds is empty exactly when the pattern is |
| TiqiaaProtocol.PulseBytesShape | app/src/main/java/ru/wasiliysoft/tiqiaa_usb_demo/TiqiaaRemote.kt:247-260 | for t >= 0 ticks: max(1, ceil(t/127)) bytes, all but the last equal to the polarity bit + 127, all of the given polarity, and low seven bits summing to t |
| TiqiaaProtocol.TicksLoopSpec | app/src/main/java/ru/wasiliysoft/tiqiaa_usb_demo/TiqiaaRemote.kt:250-259 | the loop leaves the buffer overwritten with the pulse bytes from the offset, and returns the new end, or -1 when they do not fit |
| TiqiaaProtocol.Overwrite | app/src/main/java/ru/wasiliysoft/tiqiaa_usb_demo/TiqiaaRemote.kt:252-257 | writing into the buffer never changes its length |
| TiqiaaProtocol.OverwritePrefix | app/src/main/java/ru/wasiliysoft/tiqiaa_usb_demo/TiqiaaRemote.kt:252-257 | after a write that fits, the buffer up to the new end is the old prefix followed by the written bytes |
| TiqiaaDriver.TiqiaaUsbDriver.WritePulse | app/src/main/java/ru/wasiliysoft/tiqiaa_usb_demo/TiqiaaRemote.kt:247-260 | returns offset + byte count, or -1 when the bytes do not fit; the array becomes the old array with the pulse bytes written from the offset and clipped at its end, so the bytes before the offset are unchanged |
| TiqiaaProtocol.FillFromSpec | app/src/main/java/ru/wasiliysoft/tiqiaa_usb_demo/TiqiaaRemote.kt:191-210 | the encoding loop fails exactly when the pattern's bytes do not fit, and otherwise leaves the old prefix followed by the pattern's bytes |
| TiqiaaProtocol.FillPair | app/src/main/java/ru/wasiliysoft/tiqiaa_usb_demo/TiqiaaRemote.kt:194-209 | one pass writes the mark, then the space only when it is positive (a missing last space counts as 0), or ends the loop when they do not fit |
| TiqiaaProtocol.FillFromStep | app/src/main/java/ru/wasiliysoft/tiqiaa_usb_demo/TiqiaaRemote.kt:194-209 | a pass whose writes fit continues the loop at index i + 2 with the new buffer and end |
| TiqiaaDriver.TiqiaaUsbDriver.EncodePattern | app/src/main/java/ru/wasiliysoft/tiqiaa_usb_demo/TiqiaaRemote.kt:191-210 | a fresh 1017-byte buffer whose first bufSize bytes are the pattern's encoding, or -1 when the encoding exceeds 1017 bytes |
| TiqiaaProtocol.PatternRoundTrip | app/src/main/java/ru/wasiliysoft/tiqiaa_usb_demo/TiqiaaRemote.kt:191-210 | for durations of at least one tick, decoding the encoded pattern gives alternating mark/space runs of duration/16 ticks each |
| TiqiaaProtocol.PatternRoundTripFrom | app/src/main/java/ru/wasiliysoft/tiqiaa_usb_demo/TiqiaaRemote.kt:194-210 | the same round trip holds for the pattern from every even index on, and the encoding there starts with a mark |
| TiqiaaProtocol.PairRoundTrip | app/src/main/java/ru/wasiliysoft/tiqiaa_usb_demo/TiqiaaRemote.kt:195-209 | one pair decodes to a mark run and a space run (or only the mark at an odd end), and starts with a mark byte |
| TiqiaaProtocol.DurationRun | app/src/main/java/ru/wasiliysoft/tiqiaa_usb_demo/TiqiaaRemote.kt:247-260 | a duration of at least 16 µs decodes to one run of duration/16 ticks of its polarity |
| TiqiaaProtocol.PushFrames | app/src/main/java/ru/wasiliysoft/tiqiaa_usb_demo/TiqiaaRemote.kt:312-331 | sending fragments consumes no IN replies |
| TiqiaaProtocol.PushFramesSpec | app/src/main/java/ru/wasiliysoft/tiqiaa_usb_demo/TiqiaaRemote.kt:312-331 | the fragments go out in order up to and including the first whose transfer returns a negative count; the loop succeeds exactly when none does |
| TiqiaaProtocol.FirstFailure | app/src/main/java/ru/wasiliysoft/tiqiaa_usb_demo/TiqiaaRemote.kt:324-328 | the first negative transfer result: every earlier one is non-negative |
| TiqiaaProtocol.FragmentLoopPushes | app/src/main/java/ru/wasiliysoft/tiqiaa_usb_demo/TiqiaaRemote.kt:306-331 | the fragment loop with its running rdPtr sends exactly the framed 56-byte chunks of data[0..size) |
| TiqiaaProtocol.FragmentLoopFrom | app/src/main/java/ru/wasiliysoft/tiqiaa_usb_demo/TiqiaaRemote.kt:312-331 | from fragment i on, the loop sends the framed chunks from i on |
| TiqiaaProtocol.FragmentLoop | app/src/main/java/ru/wasiliysoft/tiqiaa_usb_demo/TiqiaaRemote.kt:312-331 | the fragment loop reads no IN replies |
| TiqiaaProtocol.AckRun | app/src/main/java/ru/wasiliysoft/tiqiaa_usb_demo/TiqiaaRemote.kt:337-361 | recResponse reads only: it issues no OUT transfer |
| TiqiaaProtocol.AckAccepts | app/src/main/java/ru/wasiliysoft/tiqiaa_usb_demo/TiqiaaRemote.kt:337-361 | recResponse returns true exactly when, before the first negative read, there is a read of at least 5 bytes and at least as many such reads as byte 3 of the first one says; shorter reads are skipped |
| TiqiaaProtocol.AckContinues | app/src/main/java/ru/wasiliysoft/tiqiaa_usb_demo/TiqiaaRemote.kt:343-358 | with fragIdx of fragCount fragments read, the loop succeeds exactly when fragCount - fragIdx more whole reads come before a failure |
| TiqiaaDriver.TiqiaaUsbDriver.RecResponse | app/src/main/java/ru/wasiliysoft/tiqiaa_usb_demo/TiqiaaRemote.kt:337-361 | throws exactly when there is no connection or IN endpoint; otherwise returns what the acknowledgement run returns and consumes its reads |
| TiqiaaProtocol.ReportExchange | app/src/main/java/ru/wasiliysoft/tiqiaa_usb_demo/TiqiaaRemote.kt:300-335 | a size outside 1..1024 returns false with nothing changed; otherwise the packet index advances, and the call throws exactly when the OUT side is missing, or when the fragments went out and the IN side is missing; cmdId is untouched |
| TiqiaaProtocol.ReportSent | app/src/main/java/ru/wasiliysoft/tiqiaa_usb_demo/TiqiaaRemote.kt:300-334 | a report that succeeds had a valid size and a full link, and added exactly its fragments to the wire |
| TiqiaaProtocol.ReportWithoutLinkRaises | app/src/main/java/ru/wasiliysoft/tiqiaa_usb_demo/TiqiaaRemote.kt:307-324 | without a connection or OUT endpoint a valid report throws after advancing the packet index and before any transfer |
| TiqiaaProtocol.ReportExchangePrefix | app/src/main/java/ru/wasiliysoft/tiqiaa_usb_demo/TiqiaaRemote.kt:300-335 | only data[0..size) matters to sendReport2 |
| TiqiaaDriver.TiqiaaUsbDriver.SendReport2 | app/src/main/java/ru/wasiliysoft/tiqiaa_usb_demo/TiqiaaRemote.kt:300-335 | its result, exception and new counters and wire are those of ReportExchange |
| TiqiaaDriver.TiqiaaUsbDriver.WriteFragments | app/src/main/java/ru/wasiliysoft/tiqiaa_usb_demo/TiqiaaRemote.kt:312-331 | throws exactly when the connection or OUT endpoint is missing, and otherwise sends what the fragment loop sends |
| TiqiaaProtocol.CmdExchange | app/src/main/java/ru/wasiliysoft/tiqiaa_usb_demo/TiqiaaRemote.kt:234-245 | sendCmd keeps both counters in range; CmdSent gives the report it writes on success |
| TiqiaaDriver.TiqiaaUsbDriver.SendCmd | app/src/main/java/ru/wasiliysoft/tiqiaa_usb_demo/TiqiaaRemote.kt:234-245 | sends the 6-byte command packet through sendReport2 |
| TiqiaaDriver.TiqiaaUsbDriver.GetCmdId | app/src/main/java/ru/wasiliysoft/tiqiaa_usb_demo/TiqiaaRemote.kt:225-232 | the issued id and the new field are those of CmdIdStep |
| TiqiaaDriver.TiqiaaUsbDriver.IsAvailable | app/src/main/java/ru/wasiliysoft/tiqiaa_usb_demo/TiqiaaRemote.kt:175 | isAvailable holds exactly when the driver's state holds a device |
| TiqiaaDriver.TiqiaaUsbDriver.IsReady | app/src/main/java/ru/wasiliysoft/tiqiaa_usb_demo/TiqiaaRemote.kt:177 | isReady holds exactly when the driver's state is initialized, which ReadyOnlyAfterBootstrap ties to an acknowledged bootstrap |
| TiqiaaProtocol.BootstrapExchange | app/src/main/java/ru/wasiliysoft/tiqiaa_usb_demo/TiqiaaRemote.kt:146-146 | the Idle/Send pair keeps both counters in range; BootstrapSent gives the two reports it writes on success, BootstrapShortCircuits the failed-Idle case |
| TiqiaaProtocol.BootstrapShortCircuits | app/src/main/java/ru/wasiliysoft/tiqiaa_usb_demo/TiqiaaRemote.kt:146-146 | when the Idle command fails, the Send command is never issued and only one cmdId is drawn |
| TiqiaaDriver.TiqiaaUsbDriver.IdleThenSendMode | app/src/main/java/ru/wasiliysoft/tiqiaa_usb_demo/TiqiaaRemote.kt:185-185 | the short-circuiting Idle-then-Send pair, as BootstrapExchange |
| TiqiaaProtocol.IrCmdExchange | app/src/main/java/ru/wasiliysoft/tiqiaa_usb_demo/TiqiaaRemote.kt:268-298 | sendIrCmd keeps both counters in range; IrCmdSendsData gives the packet it sends |
| TiqiaaProtocol.IrCmdSendsData | app/src/main/java/ru/wasiliysoft/tiqiaa_usb_demo/TiqiaaRemote.kt:268-298 | with a valid size and an accepted frequency, sendIrCmd sends the data packet of bufSize + 7 bytes through sendReport2 |
| TiqiaaDriver.TiqiaaUsbDriver.SendIrCmd | app/src/main/java/ru/wasiliysoft/tiqiaa_usb_demo/TiqiaaRemote.kt:268-298 | result, exception and new state are those of IrCmdExchange |
| TiqiaaDriver.TiqiaaUsbDriver.FillDataPacket | app/src/main/java/ru/wasiliysoft/tiqiaa_usb_demo/TiqiaaRemote.kt:269-294 | a fresh 1024-byte packBuf whose first bufSize + 7 bytes are the data packet |
| TiqiaaProtocol.IrExchange | app/src/main/java/ru/wasiliysoft/tiqiaa_usb_demo/TiqiaaRemote.kt:262-266 | sendIr keeps both counters in range; IrExchangeBuffer and EncodingFitsPacket give what it sends |
| TiqiaaProtocol.IrExchangeBuffer | app/src/main/java/ru/wasiliysoft/tiqiaa_usb_demo/TiqiaaRemote.kt:262-298 | only the first bufSize bytes of the buffer matter to sendIr |
| TiqiaaDriver.TiqiaaUsbDriver.SendIr | app/src/main/java/ru/wasiliysoft/tiqiaa_usb_demo/TiqiaaRemote.kt:262-266 | draws a cmdId, then behaves as IrExchange |
| TiqiaaProtocol.SignalExchange | app/src/main/java/ru/wasiliysoft/tiqiaa_usb_demo/TiqiaaRemote.kt:179-214 | sendIrSignal keeps both counters in range; SignalDelivers and SignalSpec give its effect |
| TiqiaaProtocol.PatternExchange | app/src/main/java/ru/wasiliysoft/tiqiaa_usb_demo/TiqiaaRemote.kt:191-213 | encoding and sending a pattern keeps both counters in range; EncodingFitsPacket and PatternDelivers give what it sends |
| TiqiaaProtocol.EncodingFitsPacket | app/src/main/java/ru/wasiliysoft/tiqiaa_usb_demo/TiqiaaRemote.kt:191-275 | an encoding that fit the 1017-byte buffer always passes sendIrCmd's bufSize + 7 <= 1024 check: with an accepted frequency it goes to sendReport2 as the 'D' packet with the next cmdId |
| TiqiaaProtocol.SignalDelivers | app/src/main/java/ru/wasiliysoft/tiqiaa_usb_demo/TiqiaaRemote.kt:179-214 | a successful sendIrSignal had an accepted frequency and an encoding of at most 1017 bytes; the wire then holds the Idle and Send reports of the bootstrap, followed by fragments that reassemble to the data packet with the next cmdId, the frequency id and the encoding |
| TiqiaaProtocol.PatternDelivers | app/src/main/java/ru/wasiliysoft/tiqiaa_usb_demo/TiqiaaRemote.kt:191-214 | after the bootstrap, a successful sendIrSignal kept what was written and appended fragments that reassemble to the data packet with the accepted frequency id and an encoding of at most 1017 bytes |
| TiqiaaProtocol.RejectedFrequencyConsumesCmdId | app/src/main/java/ru/wasiliysoft/tiqiaa_usb_demo/TiqiaaRemote.kt:262-284 | a frequency in 30..255 makes sendIrSignal return false after the bootstrap, with one more cmdId drawn and nothing more sent |
| TiqiaaProtocol.SignalSpec | app/src/main/java/ru/wasiliysoft/tiqiaa_usb_demo/TiqiaaRemote.kt:179-183 | sendIrSignal changes only the counters and the wire, and before initialisation it returns false with nothing changed |
| TiqiaaProtocol.ReadyWithoutConnectionThrows | app/src/main/java/ru/wasiliysoft/tiqiaa_usb_demo/TiqiaaRemote.kt:179-188 | a driver marked ready whose connection is gone throws in the Idle command, after drawing one cmdId and before any transfer |
| TiqiaaDriver.TiqiaaUsbDriver.SendIrSignal | app/src/main/java/ru/wasiliysoft/tiqiaa_usb_demo/TiqiaaRemote.kt:179-214 | result, exception and new state are those of SignalSpec |
| TiqiaaDriver.TiqiaaUsbDriver.SendPattern | app/src/main/java/ru/wasiliysoft/tiqiaa_usb_demo/TiqiaaRemote.kt:191-213 | the encoding and sending half of sendIrSignal, as PatternExchange |
| TiqiaaProtocol.InitialState | app/src/main/java/ru/wasiliysoft/tiqiaa_usb_demo/TiqiaaRemote.kt:14-21 | a new driver has cmdId 1, packetIdx 0 and no device, connection or endpoints |
| TiqiaaDriver.TiqiaaUsbDriver.constructor | app/src/main/java/ru/wasiliysoft/tiqiaa_usb_demo/TiqiaaRemote.kt:12-21 | the fields start as InitialState |
| TiqiaaProtocol.DeinitSpec | app/src/main/java/ru/wasiliysoft/tiqiaa_usb_demo/TiqiaaRemote.kt:159-173 | deinit keeps the invariant, never sets a device or readiness it did not have, and returns nothing |
| TiqiaaProtocol.DeinitResets | app/src/main/java/ru/wasiliysoft/tiqiaa_usb_demo/TiqiaaRemote.kt:159-173 | after a deinit that completes, device and connection are null, not ready, not available, no permission request pending, the device handle closed if one was open; endpoints are kept |
| TiqiaaDriver.TiqiaaUsbDriver.IdleAndRelease | app/src/main/java/ru/wasiliysoft/tiqiaa_usb_demo/TiqiaaRemote.kt:160-164 | sends the Idle command, then releases interface 0 and closes the connection; it throws when the command throws or the device has no interface 0, and the handle is closed exactly when it does not |
| TiqiaaDriver.TiqiaaUsbDriver.Deinit | app/src/main/java/ru/wasiliysoft/tiqiaa_usb_demo/TiqiaaRemote.kt:159-173 | exception and new state are those of DeinitSpec |
| TiqiaaProtocol.InitConnSpec | app/src/main/java/ru/wasiliysoft/tiqiaa_usb_demo/TiqiaaRemote.kt:117-157 | initializeConnection keeps the invariant and keeps or clears the device, never replacing it |
| TiqiaaProtocol.ReadyOnlyAfterBootstrap | app/src/main/java/ru/wasiliysoft/tiqiaa_usb_demo/TiqiaaRemote.kt:117-157 | the driver becomes ready only if the device opened, both bulk endpoints were found and the Idle and Send commands both succeeded; the counters are then those the bootstrap left, and the wire gained exactly the Idle and Send reports |
| TiqiaaProtocol.BootOrReleaseSpec | app/src/main/java/ru/wasiliysoft/tiqiaa_usb_demo/TiqiaaRemote.kt:138-157 | the endpoint check and bootstrap keep the invariant and never replace the device |
| TiqiaaProtocol.BootReadyOnly | app/src/main/java/ru/wasiliysoft/tiqiaa_usb_demo/TiqiaaRemote.kt:138-157 | readiness after the endpoint check requires both endpoints and a successful bootstrap |
| TiqiaaProtocol.MissingOutEndpointThrows | app/src/main/java/ru/wasiliysoft/tiqiaa_usb_demo/TiqiaaRemote.kt:138-161 | with only a bulk IN endpoint, the missing endpoint sends the driver to deinit, whose Idle command throws on the null OUT endpoint and leaves the connection open |
| TiqiaaDriver.TiqiaaUsbDriver.InitializeConnection | app/src/main/java/ru/wasiliysoft/tiqiaa_usb_demo/TiqiaaRemote.kt:117-157 | exception and new state are those of InitConnSpec |
| TiqiaaDriver.TiqiaaUsbDriver.BootOrRelease | app/src/main/java/ru/wasiliysoft/tiqiaa_usb_demo/TiqiaaRemote.kt:138-157 | exception and new state are those of BootOrReleaseSpec |
| TiqiaaProtocol.RequestPermissionSpec | app/src/main/java/ru/wasiliysoft/tiqiaa_usb_demo/TiqiaaRemote.kt:79-115 | a permission request is issued only when none is pending, and a request is pending afterwards; nothing else changes |
| TiqiaaDriver.TiqiaaUsbDriver.RequestPermissionAsync | app/src/main/java/ru/wasiliysoft/tiqiaa_usb_demo/TiqiaaRemote.kt:79-115 | new state is that of RequestPermissionSpec |
| TiqiaaProtocol.InitSpec | app/src/main/java/ru/wasiliysoft/tiqiaa_usb_demo/TiqiaaRemote.kt:62-77 | init keeps the invariant, leaves no device or the found one, and returns true only when ready with the found device, for which permission was granted |
| TiqiaaProtocol.InitWithoutDevice | app/src/main/java/ru/wasiliysoft/tiqiaa_usb_demo/TiqiaaRemote.kt:62-68 | with no compatible device, init returns false, clears the device and changes nothing else |
| TiqiaaProtocol.FailedReopenStaysReady | app/src/main/java/ru/wasiliysoft/tiqiaa_usb_demo/TiqiaaRemote.kt:70-72 | a ready driver whose reopen fails still reports ready and returns true, with no connection |
| TiqiaaDriver.TiqiaaUsbDriver.Init | app/src/main/java/ru/wasiliysoft/tiqiaa_usb_demo/TiqiaaRemote.kt:62-77 | result, exception and new state are those of InitSpec |
| IrService.TickBytesShape | app/src/main/java/ru/wasiliysoft/tiqiaa_usb_demo/UsbIrService.kt:183-194 | no bytes for tickCount <= 0; otherwise ceil(tickCount/127) bytes, each with 1..127 ticks, all but the last 127, all of the given polarity, the ticks summing to tickCount |
| IrService.UsbTickToUsbByteCode | app/src/main/java/ru/wasiliysoft/tiqiaa_usb_demo/UsbIrService.kt:183-194 | the loop returns exactly TickBytes |
| IrService.TickBytes | app/src/main/java/ru/wasiliysoft/tiqiaa_usb_demo/UsbIrService.kt:183-194 | usbTickToUsbByteCode as a function; TickBytesShape states its contents, including no bytes exactly when the tick count is at most 0 |
| IrService.ConsumeIrToByteCode | app/src/main/java/ru/wasiliysoft/tiqiaa_usb_demo/UsbIrService.kt:175-182 | the loop returns the in-order concatenation of each entry's blocks, marks at even indices |
| IrService.IrByteCode | app/src/main/java/ru/wasiliysoft/tiqiaa_usb_demo/UsbIrService.kt:175-182 | consumeIrToByteCode as a function; IrByteCodeEmpty and IrByteCodeRoundTrip state its contents |
| IrService.IrByteCodeEmpty | app/src/main/java/ru/wasiliysoft/tiqiaa_usb_demo/UsbIrService.kt:175-182 | consumeIrToByteCode's code is empty exactly when every entry is under 16 µs (truncating division leaves no tick) |
| IrService.IrByteCodeRoundTrip | app/src/main/java/ru/wasiliysoft/tiqiaa_usb_demo/UsbIrService.kt:175-194 | for durations of at least one tick, decoding gives alternating mark/space runs of duration/16 ticks, and the last byte has the last entry's polarity |
| IrService.ShortDurationVanishes | app/src/main/java/ru/wasiliysoft/tiqiaa_usb_demo/UsbIrService.kt:176-187 | a final entry under 16 µs adds no bytes |
| IrService.GetFrequencyId | app/src/main/java/ru/wasiliysoft/tiqiaa_usb_demo/UsbIrService.kt:35-49 | a non-negative frequency gets an id in 0..29; a negative one is passed through |
| IrService.GetFrequencyIdSpec | app/src/main/java/ru/wasiliysoft/tiqiaa_usb_demo/UsbIrService.kt:35-49 | above 255 the first table position, or 0 when absent; below 30 the frequency; 30..255 give 0 |
| IrService.IsCompatibleDevice | app/src/main/java/ru/wasiliysoft/tiqiaa_usb_demo/UsbIrService.kt:196-202 | a compatible device has product id 33896, vendor id 4292 or 1118, and a single interface with at least one endpoint; CompatibleDevicesAgree gives the converse |
| IrService.Advance | app/src/main/java/ru/wasiliysoft/tiqiaa_usb_demo/UsbIrService.kt:25-33 | a counter step goes up by one or back to 1, and stays in 1..top |
| IrService.CmdCntAfterClosed | app/src/main/java/ru/wasiliysoft/tiqiaa_usb_demo/UsbIrService.kt:24-28 | from 0, call n+1 of getCmdId returns n mod 127 + 1: 1, 2, ..., 127, 1, ... |
| IrService.PackCntAfterClosed | app/src/main/java/ru/wasiliysoft/tiqiaa_usb_demo/UsbIrService.kt:23-33 | from 1, after n calls getUsbPackId is at n mod 15 + 1, so the first call returns 2 and 15 is followed by 1 |
| IrService.Companion.constructor | app/src/main/java/ru/wasiliysoft/tiqiaa_usb_demo/UsbIrService.kt:21-24 | the counters start at 0 and 1 and INSTANCE is null |
| IrService.Companion.GetCmdId | app/src/main/java/ru/wasiliysoft/tiqiaa_usb_demo/UsbIrService.kt:25-28 | returns the advanced counter, which stays in 1..127 |
| IrService.Companion.GetUsbPackId | app/src/main/java/ru/wasiliysoft/tiqiaa_usb_demo/UsbIrService.kt:30-33 | returns the advanced counter, which stays in 1..15 |
| IrService.Transfer | app/src/main/java/ru/wasiliysoft/tiqiaa_usb_demo/UsbIrService.kt:138-146 | one transfer never touches the counters |
| IrService.Transfers | app/src/main/java/ru/wasiliysoft/tiqiaa_usb_demo/UsbIrService.kt:124-126 | a run of transfers never touches the counters |
| IrService.TransfersSpec | app/src/main/java/ru/wasiliysoft/tiqiaa_usb_demo/UsbIrService.kt:124-146 | every frame goes out in order, one result each; the connection and INSTANCE survive exactly when every transfer wrote its full size |
| IrService.TransfersSplit | app/src/main/java/ru/wasiliysoft/tiqiaa_usb_demo/UsbIrService.kt:124-126 | sending a + b is sending a, then b |
| IrService.StateChange | app/src/main/java/ru/wasiliysoft/tiqiaa_usb_demo/UsbIrService.kt:130-136 | toReady and toSleep keep both counters in range; SendPhaseTransfers gives the frames they send |
| IrService.StateFrameIsReport | app/src/main/java/ru/wasiliysoft/tiqiaa_usb_demo/UsbIrService.kt:130-136 | the ready and sleep frames are single-fragment reports of the packet 'S' 'T' cmdId state 'E' 'N' |
| IrService.SendPhase | app/src/main/java/ru/wasiliysoft/tiqiaa_usb_demo/UsbIrService.kt:123-127 | the sending half keeps both counters in range; SendPhaseTransfers gives the frames it sends |
| IrService.SendPhaseTransfers | app/src/main/java/ru/wasiliysoft/tiqiaa_usb_demo/UsbIrService.kt:123-136 | the sending half transfers the ready frame, the fragments and the sleep frame, with the ids drawn in that order |
| IrService.IrPacketLayout | app/src/main/java/ru/wasiliysoft/tiqiaa_usb_demo/UsbIrService.kt:97-105 | the packet is 83 84 cmdId 68 freqId, the pulse code, 69 78 |
| IrService.IrPacket | app/src/main/java/ru/wasiliysoft/tiqiaa_usb_demo/UsbIrService.kt:97-105 | transmit's packet is the pulse code, unchanged, between five header bytes and two end bytes |
| IrService.StateFrame | app/src/main/java/ru/wasiliysoft/tiqiaa_usb_demo/UsbIrService.kt:130-136 | toReady's and toSleep's report is eleven bytes, with the packet id at position 2, the cmdId at 7 and the state at 8 |
| IrService.DataFramesLayout | app/src/main/java/ru/wasiliysoft/tiqiaa_usb_demo/UsbIrService.kt:97-121 | ceil(|packet|/maxPayload) fragments reassemble to the packet, all carry the one packet id, and all but the last are full |
| IrService.DataFrames | app/src/main/java/ru/wasiliysoft/tiqiaa_usb_demo/UsbIrService.kt:97-121 | transmit always sends at least one data fragment; DataFramesLayout gives their contents |
| IrService.SendOrderLayout | app/src/main/java/ru/wasiliysoft/tiqiaa_usb_demo/UsbIrService.kt:97-136 | transmit sends the ready frame first, the data fragments in index order, then the sleep frame; the data packet carries the first new cmdId and packet id, the ready frame the second pair and the sleep frame the third |
| IrService.SendOrder | app/src/main/java/ru/wasiliysoft/tiqiaa_usb_demo/UsbIrService.kt:97-136 | transmit's first frame is the 11-byte ready frame carrying the second new packet id and cmdId, and its last the sleep frame carrying the third; SendOrderLayout gives the data fragments between them |
| IrService.TransmitEffect | app/src/main/java/ru/wasiliysoft/tiqiaa_usb_demo/UsbIrService.kt:90-128 | no room for payload leaves everything unchanged; otherwise the wire gains exactly the send order, each counter advances three times, and the service is closed exactly when some transfer was short |
| IrService.UsbIrService.constructor | app/src/main/java/ru/wasiliysoft/tiqiaa_usb_demo/UsbIrService.kt:16-19 | the service holds its connection and OUT endpoint |
| IrService.UsbIrService.Close | app/src/main/java/ru/wasiliysoft/tiqiaa_usb_demo/UsbIrService.kt:154-158 | the connection is closed and INSTANCE cleared, nothing else |
| IrService.UsbIrService.BulkTransfer | app/src/main/java/ru/wasiliysoft/tiqiaa_usb_demo/UsbIrService.kt:138-146 | new state is that of Transfer: logged, and closed on a short write |
| IrService.UsbIrService.ToReady | app/src/main/java/ru/wasiliysoft/tiqiaa_usb_demo/UsbIrService.kt:130-132 | new state is that of StateChange with 'S' |
| IrService.UsbIrService.ToSleep | app/src/main/java/ru/wasiliysoft/tiqiaa_usb_demo/UsbIrService.kt:134-136 | new state is that of StateChange with 'L' |
| IrService.UsbIrService.Transmit | app/src/main/java/ru/wasiliysoft/tiqiaa_usb_demo/UsbIrService.kt:90-128 | new state is that of TransmitSpec, whose effect TransmitEffect states |
| IrService.TransmitSpec | app/src/main/java/ru/wasiliysoft/tiqiaa_usb_demo/UsbIrService.kt:90-128 | transmit keeps the service invariant (both counters stay in their ranges); TransmitEffect states what it sends |
| IrService.UsbIrService.SendFramed | app/src/main/java/ru/wasiliysoft/tiqiaa_usb_demo/UsbIrService.kt:123-127 | new state is that of SendPhase |
| IrService.UsbIrService.FrameAll | app/src/main/java/ru/wasiliysoft/tiqiaa_usb_demo/UsbIrService.kt:108-121 | the forEachIndexed loop builds exactly the framed chunks |
| IrService.UsbIrService.SendAll | app/src/main/java/ru/wasiliysoft/tiqiaa_usb_demo/UsbIrService.kt:124-126 | new state is that of Transfers over the frames |
| Generations.EncodersAgree | app/src/main/java/ru/wasiliysoft/tiqiaa_usb_demo/TiqiaaRemote.kt:247-260 | writePulse and usbTickToUsbByteCode give the same bytes for every positive tick count; for 0 ticks writePulse writes one byte and the other none |
| Generations.PatternEncodersAgree | app/src/main/java/ru/wasiliysoft/tiqiaa_usb_demo/TiqiaaRemote.kt:191-210 | for durations of at least 16 µs, sendIrSignal's encoding equals consumeIrToByteCode's |
| Generations.PatternEncodersAgreeFrom | app/src/main/java/ru/wasiliysoft/tiqiaa_usb_demo/TiqiaaRemote.kt:194-210 | the same agreement from every even index on |
| Generations.ZeroMarkDiffers | app/src/main/java/ru/wasiliysoft/tiqiaa_usb_demo/TiqiaaRemote.kt:256-257 | a mark under 16 µs becomes one zero-tick mark byte in TiqiaaUsbDriver and nothing in UsbIrService |
| Generations.FrequencyIdsAgree | app/src/main/java/ru/wasiliysoft/tiqiaa_usb_demo/TiqiaaRemote.kt:277-284 | outside 30..255 both generations give the same frequency id; inside it sendIrCmd rejects where getFrequencyId gives 0 |
| Generations.CompatibleDevicesAgree | app/src/main/java/ru/wasiliysoft/tiqiaa_usb_demo/UsbIrService.kt:196-202 | isCompatibleDevice is TiqiaaUsbDriver's id test (the same two pairs) plus one interface with at least one endpoint |
| Generations.CmdIdsDiverge | app/src/main/java/ru/wasiliysoft/tiqiaa_usb_demo/UsbIrService.kt:24-28 | the cmdId sequences agree for the first 126 calls; at call 126 and every 127th call after it one gives 1 and the other 127, and TiqiaaUsbDriver never issues 127 |
| Generations.PacketIdsOffset | app/src/main/java/ru/wasiliysoft/tiqiaa_usb_demo/UsbIrService.kt:23-33 | the packet counters run the same 1..15 cycle, one step apart |
| Generations.FrameLayoutsMatch | app/src/main/java/ru/wasiliysoft/tiqiaa_usb_demo/UsbIrService.kt:97-136 | UsbIrService's ready and sleep frames are TiqiaaUsbDriver's Send and Idle command reports, and its data packet is TiqiaaUsbDriver's data packet layout |

## Left out

- **Android plumbing** is replaced by the scripted `UsbBus`. This covers `UsbManager`, `hasPermission`, `openDevice`, `claimInterface` and the device list. Bulk transfers, their timeouts (0, 5000 and 250 ms) and `requestPermission` are covered the same way.
- **Logging is not modelled.** This covers `Log.*` and `println`.
- **`claimInterface`'s result is ignored.** TiqiaaUsbDriver ignores it, and getInstance is not part of this model.
- **The permission `BroadcastReceiver` callback is not modelled.** It is asynchronous and runs later. Only its registration and de-duplication are modelled, as a pending-request flag. `unregisterReceiver` in deinit clears that flag.
- **`setInitializationListener` and the listener calls are not modelled.** They only notify the UI.
- **`UsbIrService.getInstance` is not part of this model.** This covers the singleton management, its OUT-endpoint scan and `openDevice` of the service. The service is constructed from a given connection and endpoint.
- **`requestUsbPermissionForCompatibleDev` is not part of this model.** It only requests permissions.
- **`bulkTransfer`'s exception branch in UsbIrService is not modelled.** That branch closes and rethrows. The scripted bus reports every failure as a result, so only the short-write branch is modelled.
- **Unreleased connections are not tracked.** When `initializeConnection` throws or returns early, the open handle is only tracked as the bus's open flag.
- **Hotplug handling, MainActivity, BuiltInIrBlaster and the IrBlaster/Pattern declarations are not part of this model.** These are the UI, JSON loading and the floating-point pattern conversion.
- **Bus scripts are finite.** Once the script of results runs out, every later transfer returns -1, as a timed-out transfer does.
- **The ByteArrays are modelled as `seq<byte>`.** This covers the fragment buffer `fragBuf` in sendReport2 and the 63-byte read buffer in recResponse. The OUT transfer logs the 5 + fragSize bytes it sends, and the IN read is modelled as a reply holding its count and byte 3.
- **Some methods are split into helpers.** `WriteFragments` holds `sendReport2`'s fragment loop; `RecResponse` is Kotlin's own `recResponse`. `EncodePattern` and `SendPattern` split `sendIrSignal`. `FillDataPacket` splits `sendIrCmd`. `BootOrRelease` splits `initializeConnection`. `IdleAndRelease` splits `deinit`. `FrameAll`, `SendAll` and `SendFramed` split `transmit`. Each helper does exactly what that part of the Kotlin method does.
- **The endpoint scan in `initializeConnection` is specified by a function (`LastBulk`).** The method runs the scan as a loop, proved equal to `LastBulk`, and `InitConnSpec` uses `LastBulk` directly.
- **Only two kinds of exception are modelled.** These are null dereferences (NPEs) and the index exception `getInterface(0)` throws on a device with no interfaces; `InitConnSpec` and `DeinitSpec` model the latter. A bulk transfer on an existing connection and endpoint returns its scripted result and never throws.
- **`IrService.Transfer` treats transfers after `close()` like any other scripted transfer.** The connection being closed is recorded, but what Android returns for a closed connection is up to the script.
- **Byte wrap-around is explicit.** `ToByte` is used wherever Kotlin's `toByte()` can wrap. These are the frequency id of a negative frequency in UsbIrService, and `freq.toByte()` for a negative frequency in `TiqiaaUsbDriver` (`FrequencyId`). They are also writePulse's last byte for a negative duration, and UsbIrService's header bytes `fragment.size + 3`, `fragmentCount` and `index + 1` (`Frame`) when the endpoint's maxPacketSize lets them exceed 127. The model covers these inputs as the code handles them.
- **`FindDevice`'s list stands for the iteration order of `usbManager.deviceList.values`.** That order comes from a HashMap and is unspecified. `FindDevice`'s contract holds for every order of the list.
