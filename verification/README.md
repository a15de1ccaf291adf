# Speaker firmware: verified model of the links, the updates and the mode machine

A Dafny model of the ESP32 speaker firmware in this repository: the framed Bluetooth Classic link with its
streaming CRC, the firmware update sessions on both Bluetooth transports, the serial protocol spoken with the
PIC, the table of recent A2DP devices, the speaker mode machine and the battery smoothing window.

`dafny verify dfyconfig.toml` checks everything.

## What is modelled

- **CRC** (`CrcTable`, `Crc`, `CrcDetection`, `Polynomials`). The CRC is defined one bit at a time on a
  16-bit register. All 256 table entries are proved equal to eight register steps, so the table code computes
  the bit-serial CRC even though its 32-bit accumulator is never truncated. The register is the unique
  remainder of the message modulo x^16 + x^12 + x^5 + 1 over GF(2) (section 2 of ITU-T V.41). Every burst error
  of up to 16 bits and every odd number of bit errors is detected, and a message followed by two bytes leaves
  zero exactly when they are its CRC.
- **Framing** (`Framing`, `FramingRuns`, `SppLink`). The escaping encoder, the byte-level decoder and its
  one-byte-late CRC. The decoder is parameterised by the CRC step and by the parser it calls, so the framing
  results hold for any parser. Main results: what a frame of any length delivers; streams of frames survive any
  cut into calls; a stream is delivered intact exactly when no payload is longer than 998 bytes; from any
  decoder state one frame restores synchronisation, except in one exactly described family of cases.
- **Update sessions** (`Ota`, `OtaAccounting`, `OtaReports`, `OtaAgreement`, `OtaParting`, `OtaDelivery`,
  `OtaBegin`, `Updater`). One set of functions for the twin class hierarchies, parameterised by where the running CRC and the
  burst length come from. Main results: byte, burst and verdict accounting over any run of chunks; exactly when
  the PIC is told completion although the app is told failure; exactly which runs keep the two transports in the
  same state, and one that parts them, after which no chunk brings their CRCs together again; the CRC of the
  framing decoder over any stream of packets; a whole update from cut-up framed bytes to image, acknowledgements
  and verdict, which is success exactly when the begin packet carries the CRC of the chunks, low byte first.
- **PIC link** (`Nmea`, `NmeaChecksum`, `NmeaParams`, `PicLink`, `PicGate`, `Group`, `GroupExchange`). Printing, parsing and
  iterating packets, rejection of corrupted ones, resynchronisation of the byte framer, the bootloader gate
  (which keeps other traffic away from the firmware; exactly when firmware is lost or reordered; and that what is
  queued reaches the wire), and the group-info exchange.
- **A2DP device table** (`Whitelist`, `WhitelistTable`). The in-place table is the most-recently-used list of
  the whole connection history, across restarts and reloads from flash.
- **Mode machine** (`Modes`, `ModeTasks`, `ModeTimes`, `ModeMachine`). An invariant over every sequence of mode messages,
  known or not, wake-ups and audio pauses; exactly which runs lose the I2S driver, and exactly which stop
  reading modes for good; exactly when which tasks are suspended and a light sleep is due; the standby time and
  when it announces power-off.
- **Battery window** (`Battery`). What the scan that starts from the unsorted first element returns, that it is
  at most one occurrence short of the mode, and exactly when it is not a mode.

Functions named like the source's operations specify them; the classes (`Updater.UpdateSession`,
`Updater.Updates`, `SppLink.Receiver`, `PicLink.NmeaPkt`, `PicLink.PicStream`, `WhitelistTable.Table`,
`ModeMachine.Speaker`, `Battery.BatteryMan`, `PicGate.Picman`, `GroupExchange.Exchanger` and their parts)
follow the source's fields, loops and buffers and are proved to compute those functions.

Calls into ESP-IDF and FreeRTOS are parameters: flash and PIC outcomes come from a `Calls` record per handled
packet, NVS outcomes from `NvsCalls`, and the mode machine's surroundings from an `Input` per iteration. A
queue is a bounded sequence, a semaphore a boolean, a suspended task a boolean.

Where code and documentation differ, the code is followed. In particular `ESPUpdate::finish` tells the PIC that
the update is complete, and requests a reset, after a failed write, and after switching the boot partition to an
image whose CRC is only then found to be wrong (`OtaReports.ContradictsIff`, `OtaReports.RejectedImageBoots`); an
update stays active after it has finished; a begin packet that is refused still makes its session the active one;
and a report of the PIC goes to the transport that last handled a begin, the BLE one if none has
(`OtaAgreement.EarlyReportParts`).

## Model

| member | source | states |
|---|---|---|
| Crc.TableIsEightShifts | main/system/crc.c:7-36 | every one of the 256 table entries is its index put through eight conditional shift-and-reduce steps of a 16-bit word |
| Crc.TableIsPolynomial | main/system/crc.c:7-36 | the same as registers: an entry is what eight zero bits leave of its index |
| Crc.HighByteFeedsBack | main/system/crc.c:44-45 | after k message bits the register is what the high byte plus the message feeds back, plus the bits that have only moved up: the identity behind the table form |
| Crc.ByteCrcCcitt | main/system/crc.c:51-55 | the low 16 bits of the untruncated 32-bit accumulator move by exactly eight bit-serial steps, whatever the high half holds |
| Crc.CrcCcitt | main/system/crc.c:38-49 | the table loop computes the bit-serial CRC of all bytes, most significant bit first |
| Crc.CrcConcat | main/system/crc.c:38-49 | the CRC of a concatenation is the CRC of the tail seeded with that of the head |
| Polynomials.RegisterIsRemainder | main/system/crc.c:38-49 | message times x^16 plus seed times x^n equals generator times a quotient plus the CRC register, in GF(2)[x] |
| Polynomials.RemainderIsUnique | main/system/crc.c:38-49 | no other register satisfies that equation, with a quotient of any degree |
| CrcDetection.RemainderInjective | main/system/crc.c:38-49 | on a fixed message no two seeds lead to the same register |
| CrcDetection.RemainderBijective | main/system/crc.c:38-49 | on a fixed message the register moves as a bijection: every register is reached from exactly one seed |
| CrcDetection.BurstDetected | main/system/crc.c:38-49 | two messages that differ only inside a window of at most 16 bits have equal CRCs if and only if the windows are equal |
| CrcDetection.TwoByteErrorDetected | main/system/crc.c:38-49 | the same for two adjacent bytes of byte strings |
| CrcDetection.OddErrorsDetected | main/system/crc.c:38-49 | two messages of one length, however long, that differ in an odd number of bits have different CRCs |
| CrcDetection.ResidueIsZero | main/system/crc.c:38-49 | a message followed by two bytes leaves the zero register if and only if they are its CRC, high byte first |
| SppLink.AddEscapeCharsAndEndChars | main/blue/spp/btc_spp.c:79-105 | refuses an empty source or too small a buffer and writes nothing; otherwise writes exactly the frame and leaves the rest of the buffer alone |
| SppLink.OverrunsIff | main/blue/spp/btc_spp.c:79-105 | exactly which payloads pass the size test although their frames do not fit the transmit buffer: 1001 bytes, every one 0x02 or 0x03 |
| SppLink.OverrunExample | main/blue/spp/btc_spp.c:79-105 | such a payload, 1001 bytes of 0x02: its frame is one byte longer than the buffer |
| SppLink.TxBufferSuffices | main/blue/spp/btc_spp.c:205-223 | every payload up to the declared maximum of 1000 bytes fits the transmit buffer, however many bytes are doubled |
| SppLink.SppSend | main/blue/spp/btc_spp.c:205-223 | for every other payload, what is written to the link is the frame, or nothing |
| SppLink.Receiver.HandleByte | main/blue/spp/btc_spp.c:52-74 | one byte moves the buffer, `pos`, `prev_byte`, the accumulator and the parser's state as the specification's decoder |
| SppLink.Receiver.HandleWrappedMsg | main/blue/spp/btc_spp.c:41-77 | a call moves the whole state by exactly its bytes, keeping decoder state for the next call |
| Framing.EscapedByte | main/blue/spp/btc_spp.c:52-74 | between frames' bytes, a doubled or plain byte stores exactly one byte and folds exactly the one before it |
| Framing.FrameText | main/blue/spp/btc_spp.c:79-105 | what goes over the link: the payload bytes in order, 0x02 and 0x03 doubled, each at its place, and 0x02 0x03 at the end |
| Framing.FrameDelivers | main/blue/spp/btc_spp.c:52-74 | a frame of any length delivers its payload's tail since the last multiple of 1000 bytes, or nothing if that tail is 999 bytes, and ends idle |
| Framing.FrameIntactIff | main/blue/spp/btc_spp.c:52-74 | a frame delivers its payload if and only if it is at most 998 bytes long |
| Framing.StreamOneBehind | main/blue/spp/btc_spp.c:70-71 | while a payload arrives the CRC lacks exactly its last byte |
| Framing.FrameDecodes | main/blue/spp/btc_spp.c:62-73 | the parser is called once, with the payload, and the CRC it sees already covers the whole chunk payload and nothing else: no command byte, no doubled byte, no trailer |
| FramingRuns.CutsAreInvisible | main/blue/spp/btc_spp.c:45-47 | where a byte stream is cut into calls makes no difference |
| FramingRuns.RoundTrip | main/blue/spp/btc_spp.c:41-105 | concatenated frames of at most 998 bytes, in calls cut anywhere, call the parser with exactly the payloads, in order, and end idle |
| FramingRuns.RoundTripIff | main/blue/spp/btc_spp.c:41-105 | a list of payloads arrives intact if and only if none is longer than 998 bytes |
| FramingRuns.ResynchronisesIff | main/blue/spp/btc_spp.c:52-74 | from any decoder state one frame ends idle unless, and only unless, the last byte stored was 0x02 and the payload is nothing but 0x02 |
| FramingRuns.RecoversAfterGarbage | main/blue/spp/btc_spp.c:52-74 | after any garbage and one frame that starts with a command code, every later frame is delivered |
| Updater.UpdateSession.Start | main/blue/ota/BTC_OTAUpdate.cpp:44-58 | an accepted begin resets counters and CRC, and on the Classic link the stream CRC; a refused one changes nothing |
| Updater.UpdateSession.ProcessPkt | main/blue/ota/OTAUpdate.cpp:44-58 | counts the payload modulo 2^32, stores the CRC (computed on BLE, read from the stream on Classic), and says when a burst is complete |
| Updater.Updates.EspFinish | main/blue/ota/ESPUpdate.cpp:68-87 | every outcome of ending the update and switching the boot partition, with what is sent in which order |
| Updater.Updates.EspWrite | main/blue/ota/ESPUpdate.cpp:58-65 | writes the image, and finishes on a failed write or at the announced length |
| Updater.Updates.PicStart | main/blue/ota/PICUpdate.cpp:34-63 | begin response and bootloader gate follow the PIC's readiness |
| Updater.Updates.PicProcess | main/blue/ota/PICUpdate.cpp:65-73 | forwards the payload before counting it |
| Updater.Updates.PicReport | main/comms/pic/PicParser.cpp:176-193 | the PIC's report finishes the session of the transport that last handled a begin |
| Updater.Updates.ParsePkt | main/blue/BTC_Parser.cpp:73-138 | dispatch of begin, chunk and abort through the active session; on BLE the same cases of BleParser |
| OtaBegin.BeginReadsBack | main/blue/ota/OTAUpdate.hpp:12-21 | a begin made of the bytes of length, CRC and burst, lowest byte first, reads back as exactly those, for every length below 2^32 |
| OtaBegin.BeginOpensIff | main/blue/ota/OTAUpdate.cpp:31-41 | it opens a session exactly when that session is not open and the length is not zero |
| OtaBegin.BeginExample | main/blue/ota/OTAUpdate.hpp:12-21 | fourteen bytes that read as length 258 and CRC 0x1234 |
| OtaBegin.EspBeginAnswers | main/blue/ota/ESPUpdate.cpp:16-53 | what an ESP begin is answered under each flash outcome |
| OtaBegin.PicBeginAnswers | main/blue/ota/PICUpdate.cpp:34-63 | what a PIC begin is answered, and that the gate is open exactly if the PIC is ready |
| OtaBegin.AbortCloses | main/blue/BTC_Parser.cpp:122-129 | an abort closes the active session and no other, leaves none active and sends no verdict; what it tells the PIC, and that it closes the gate |
| OtaBegin.BeginAfterAbort | main/blue/BTC_Parser.cpp:92-129 | a begin after an abort opens a session |
| OtaBegin.ChunkWithoutBegin | main/blue/BTC_Parser.cpp:112-120 | chunks with no active session change nothing |
| OtaBegin.OthersIgnored | main/blue/BTC_Parser.cpp:90-135 | begins of another length and unknown commands change nothing |
| OtaBegin.ReportAnswers | main/blue/ota/PICUpdate.cpp:80-83 | a report of the PIC gives verdict success exactly when it reports success and the CRCs agree, and closes session and gate |
| OtaAccounting.AnyChunkReports | main/blue/ota/ESPUpdate.cpp:55-87 | one chunk under any flash outcomes, towards the app: counting and acknowledgement do not depend on them, only a written payload joins the image, and exactly which chunks report which verdict |
| OtaReports.ChunkTells | main/blue/ota/ESPUpdate.cpp:55-87 | the same towards the PIC and the boot partition: exactly which chunks report completion, failure or a reset, and which switch the partition to which image |
| OtaReports.ContradictsIff | main/blue/ota/ESPUpdate.cpp:68-87 | a chunk tells the app failure and the PIC completion with a reset if and only if its write fails, or it makes up the announced length, the update can be ended and the partition switched, and the CRC is not the announced one |
| OtaReports.ContradictsAtIff | main/blue/ota/ESPUpdate.cpp:55-87 | over any run under any flash outcomes, exactly which chunks do so, in terms of the chunks and the flash calls |
| OtaReports.OneCompletion | main/blue/ota/ESPUpdate.cpp:55-87 | over any run with successful flash calls the PIC is told completion, once, on reaching the announced length and whatever the CRC, and the image received is the one that will be booted |
| OtaReports.RejectedImageBoots | main/blue/ota/ESPUpdate.cpp:68-87 | with a CRC that is not the announced one the app is then told failure, the PIC completion, and the image will be booted |
| OtaReports.RejectedImageExample | main/blue/ota/ESPUpdate.cpp:68-87 | two packets from power-on that do this |
| OtaAccounting.ChunkReports | main/blue/ota/ESPUpdate.cpp:55-66 | one chunk acknowledges exactly a completed burst, reports exactly on reaching the announced length, and appends its payload to the image |
| OtaAccounting.RunIsAccounted | main/blue/ota/OTAUpdate.cpp:44-58 | after any run of non-empty chunks: received length, image and acknowledgements are exactly those of the run |
| OtaAccounting.BurstAcksCount | main/blue/ota/OTAUpdate.cpp:49-57 | the number of acknowledgements is the number of full bursts, and none for a burst length of zero |
| OtaAccounting.BurstAckAt | main/blue/ota/OTAUpdate.cpp:49-57 | acknowledgement k carries the CRC after chunk (k + 1) * burst |
| OtaAccounting.OneVerdict | main/blue/ota/ESPUpdate.cpp:55-66 | a run reports at most one verdict, on the chunk that makes up the announced length and no other, saying whether the CRCs agree |
| OtaAccounting.PicRunIsAccounted | main/blue/ota/PICUpdate.cpp:65-73 | after any run of chunks of a PIC update: received length, forwarded bytes and acknowledgements are exactly those of the run, and no verdict has been sent |
| OtaAgreement.TransportsAgreeIff | main/blue/ota/BTC_OTAUpdate.cpp:28-89 | over any run of packets and PIC reports that fit both links, framed Classic and packet-wise BLE are in the same state all along (CRC, counters, image, every response) if and only if every begin and every report is one that keeps them together |
| OtaAgreement.TransportsAgree | main/blue/ota/BTC_OTAUpdate.cpp:28-89 | in such a run they end in the same state |
| OtaAgreement.ReportAgreesIff | main/comms/pic/PicParser.cpp:176-193 | a report of the PIC keeps the transports together exactly when Classic has handled a begin |
| OtaAgreement.RoutedIff | main/blue/ota/BTC_OTAUpdate.cpp:28-30 | over Classic, reports reach the Classic session exactly from the first begin on, refused or not |
| OtaAgreement.EarlyReportParts | main/comms/pic/PicParser.cpp:176-193 | a report before any begin is answered over BLE and not over Classic |
| OtaAgreement.FreshDevicesAgree | main/blue/ota/BTC_OTAUpdate.cpp:16-26 | two devices fresh from power-on are in the same state |
| OtaAgreement.BeginAgreesIff | main/blue/ota/BTC_OTAUpdate.cpp:44-58 | exactly which begin packets keep the transports together; the case that parts them is a refused begin that switches to the other update |
| OtaParting.RefusedBeginRun | main/blue/ota/BTC_OTAUpdate.cpp:44-58 | every run from power-on of the form ESP begin, chunk, PIC begin, chunk of another CRC, refused ESP begin reaches that case |
| OtaParting.PartingExample | main/blue/ota/BTC_OTAUpdate.cpp:44-58 | such a run |
| OtaParting.NextChunkDiffers | main/blue/ota/BTC_OTAUpdate.cpp:61-64 | after it the next chunk, whatever it holds, leaves the two sessions with different CRCs |
| OtaParting.PartedForGood | main/blue/ota/BTC_OTAUpdate.cpp:61-64 | and so does every run of chunks after it |
| OtaDelivery.StreamCrc | main/blue/spp/btc_spp.c:57-73 | whatever packets are delivered, and however calls turn out, the decoder's CRC is exactly the CRC of all chunk payload bytes since a packet last opened a session |
| OtaDelivery.StreamCrcOfBytes | main/blue/spp/btc_spp.c:41-77 | the same from framed bytes cut anywhere; and at a chunk's callback that chunk is included |
| OtaDelivery.BleChunks | main/blue/ota/OTAUpdate.cpp:44-47 | on BLE, chunk by chunk, the session holds the CRC of all payloads so far |
| OtaDelivery.UpdateEndToEnd | main/blue/spp/btc_spp.c:41-77 | from framed bytes cut anywhere to the image, one acknowledgement per burst with the CRC so far, and one verdict at the announced length |
| OtaBegin.VerdictIff | main/blue/ota/BTC_OTAUpdate.cpp:80-89 | an update over Classic whose begin announces the length of its chunks ends in one verdict, success if and only if the announced CRC is that of the chunks |
| OtaBegin.VerdictIffOverBle | main/blue/ota/OTAUpdate.cpp:60-71 | the same over BLE |
| OtaBegin.CrcOfTwoZeros | main/system/crc.c:38-49 | the CRC of two zero bytes from the seed is 0x84C0 |
| OtaBegin.GoodUpdate | main/blue/ota/OTAUpdate.cpp:60-71 | an update of these two bytes, its CRC sent as C0 84, succeeds |
| OtaDelivery.CrcOfChunk | main/blue/ota/BTC_OTAUpdate.cpp:61-64 | the CRC after chunk i is the CRC of the first i + 1 payloads |
| Nmea.PacketParses | main/comms/NMEAPkt.cpp:46-75 | an encoded packet is accepted, with the page and checksum it was made from |
| Nmea.DecRoundTrip | main/comms/NMEAPkt.cpp:64-64 | the decimal page, two or three digits, reads back through strtol |
| Nmea.CorruptionRejected | main/comms/NMEAPkt.cpp:36-75 | changing one byte between '$' and '*' to anything but '*' makes the packet rejected |
| NmeaChecksum.ChecksumIff | main/comms/NMEAPkt.cpp:36-44 | a byte is the checksum if and only if each of its eight bits is the parity of that bit over the bytes |
| NmeaChecksum.OwnChecksumCancels | main/comms/NMEAPkt.cpp:36-44 | a body followed by one more byte sums to zero if and only if that byte is its checksum |
| NmeaChecksum.AcceptedIff | main/comms/NMEAPkt.cpp:46-75 | accepted is, up to 50 bytes, exactly a body between '$' and '*' followed by bytes that read as its checksum |
| NmeaChecksum.WithoutParameters | test/TestNMEAPkt.cpp:87-105 | page 42 prints as "$42*06", which is accepted |
| NmeaChecksum.WithParameters | test/TestNMEAPkt.cpp:125-138 | page 91 with "12,6a7" prints as "$91,12,6a7*6B", which is accepted |
| NmeaChecksum.WrongSum | test/TestNMEAPkt.cpp:107-112 | "$91,12,6a7*00" is rejected |
| NmeaChecksum.PagesPrinted | main/comms/NMEAPkt.cpp:18-24 | pages print with two or three digits |
| NmeaParams.NextAdvances | main/comms/NMEAPkt.cpp:77-98 | each parameter lies inside the packet and the position strictly advances |
| NmeaParams.SplitJoins | main/comms/NMEAPkt.cpp:77-98 | the fields compared against hold no comma and, joined by commas, give back the parameter string |
| NmeaParams.ParamsRoundTrip | main/comms/NMEAPkt.cpp:77-98 | repeated calls on an encoded packet yield exactly the comma-separated fields, empty ones included, and then no more |
| NmeaParams.AlwaysDelimited | main/comms/NMEAPkt.cpp:86-97 | in an encoded packet every parameter has an end |
| NmeaParams.IteratorEnds | main/comms/NMEAPkt.cpp:77-98 | after the last parameter every further call says that nothing is left |
| PicLink.NmeaPkt.Encode | main/comms/NMEAPkt.cpp:15-30 | the buffer holds the text, its checksum and the terminating zero |
| PicLink.EncodedIsPacket | main/comms/NMEAPkt.cpp:15-30 | without '*' in the parameters, that is the packet the parsing results are about |
| PicLink.NmeaPkt.ObtainChecksum | main/comms/NMEAPkt.cpp:36-44 | the loop computes the exclusive or up to the first '*' |
| PicLink.NmeaPkt.ParseArray | main/comms/NMEAPkt.cpp:46-75 | accepts exactly the packets with '$', '*' in place, fitting length and right checksum, and then holds their bytes, page and checksum |
| PicLink.NmeaPkt.NextParam | main/comms/NMEAPkt.cpp:77-98 | the string searches find exactly the next field |
| PicLink.PicStream.ReceiveByte | main/comms/pic/PicStream.cpp:20-34 | one byte moves the receive buffer and calls the parser as the specified framer |
| PicLink.ResynchronisesIff | main/comms/pic/PicStream.cpp:20-34 | from any buffer contents an encoded packet is delivered exactly once, leaving the buffer empty, if and only if its parameters hold no '$' |
| PicLink.CutPacketsDoNoDamage | main/comms/pic/PicStream.cpp:20-34 | of a stream of packets, some cut short anywhere, exactly the whole ones are delivered, in order |
| PicLink.StreamIsReady | main/comms/pic/PicStream.cpp:20-34 | all along such a stream the receive buffer has room for the next byte, and no packet too short to parse is ended |
| PicGate.OrderKeptIff | main/comms/pic/Picman.cpp:95-150 | over any run, bootloader on or off, nothing accepted is ever lost or overtaken if and only if every direct write finds only copies of its own piece queued and every start of the bootloader finds nothing queued |
| PicGate.FirmwareIsConserved | main/comms/pic/Picman.cpp:95-150 | while the bootloader is on, started again any number of times, no NMEA packet is written or queued; bytes written followed by bytes queued are exactly the firmware handed to the link, in order, if and only if no piece found the queue full and no bytes were queued at any restart; and exactly the firmware accepted if and only if the latter |
| PicGate.FullQueueLosesFirmware | main/comms/pic/Picman.cpp:141-144 | twenty-one pieces in a row: the last is lost, although the update session counts it |
| PicGate.RestartLosesQueue | main/blue/ota/PICUpdate.cpp:34-48 | a begin packet while a piece of firmware is queued loses it |
| PicGate.FirmwareArrivesInOrder | main/blue/ota/PICUpdate.cpp:34-73 | without any assumption on order, as long as the firmware comes over one transport: it always arrives as sent by direct writes, and by queued packets if and only if no piece finds the queue full and no restart finds bytes queued |
| PicGate.WireGrows | main/comms/pic/PicStream.cpp:37-39 | over any run exactly the direct writes and the turns that find a packet queued put one packet each on the wire |
| PicGate.EnoughTurns | main/comms/pic/PicStream.cpp:37-39 | as many turns of the stream task as packets queued empty the queue onto the wire, in order |
| PicGate.FirmwareReachesWire | main/comms/pic/PicStream.cpp:37-39 | after an update and enough turns the bytes on the wire are exactly the firmware handed to the link, if and only if none was lost or spilled |
| PicGate.StopReopens | main/comms/pic/Picman.cpp:95-139 | once the bootloader is stopped, NMEA packets are accepted again and reach the wire |
| PicGate.DirectWriteInOrderIff | main/comms/pic/Picman.cpp:146-150 | a direct write keeps the accepted order exactly when every queued packet is the piece it writes |
| PicGate.Picman.SendNmeaPkt | main/comms/pic/Picman.cpp:131-139 | NMEA packets are dropped while the bootloader is on, and queued otherwise |
| Group.HexReadsBack | main/system/helper.cpp:57-75 | a byte written in hexadecimal, in either case, reads back |
| Group.AddressReadsBack | main/comms/GroupInfo.cpp:11-29 | an address spelled in hexadecimal, each byte in either case, is what the list holds |
| Group.HexDigitIff | main/system/helper.cpp:57-71 | exactly the hexadecimal digits have a value below sixteen |
| Group.ReplyAddsMember | main/comms/pic/PicParser.cpp:201-241 | a reply packet announcing k members adds its decoded member and completes the exchange exactly when it is the k-th |
| Group.ListFillsUp | main/comms/pic/Picman.cpp:68-78 | before the last reply nothing is reported and no further request clears the list |
| Group.ExchangeReportsOnce | main/comms/pic/PicParser.cpp:201-241 | a request and k replies, with other requests anywhere among them, cause exactly one report, on the k-th, with the k decoded members in order, and give the token back |
| Group.ExchangeReportsAddresses | main/comms/pic/PicParser.cpp:201-241 | and the report is exactly the addresses the replies spell |
| Group.ZeroReply | main/comms/pic/PicParser.cpp:201-215 | a reply whose count starts with '0', whatever follows, reports the list as it is and gives the token back |
| Group.ZeroExchange | main/comms/pic/PicParser.cpp:201-215 | a speaker without followers: a request, further requests, and such a reply cause exactly one report, the empty list, and the next request goes out again |
| Group.NoCount | main/comms/pic/PicParser.cpp:203-207 | a reply without a count changes nothing |
| Group.IncompleteReply | main/comms/pic/PicParser.cpp:217-233 | a reply without a member's addresses only sets what is expected |
| Group.FullListRefuses | main/comms/GroupInfo.cpp:11-15 | a full list refuses members |
| GroupExchange.GroupInfo.NewMember | main/comms/GroupInfo.cpp:11-29 | the array takes the decoded member, or refuses when full |
| GroupExchange.Exchanger.ParseReply | main/comms/pic/PicParser.cpp:201-241 | the parser case computes the specified exchange step on any packet the iterator is defined on |
| GroupExchange.AnswersAreIterable | main/comms/pic/PicParser.cpp:201-241 | the reply packets of the exchange are accepted packets of the right page on which the iterator is always defined |
| Whitelist.ConnectIsMostRecent | main/blue/a2dp/bt_whitelist.c:114-146 | moving to the front with a cap of six keeps the first six distinct addresses of the history read backwards |
| Whitelist.MostRecentIsATable | main/blue/a2dp/bt_whitelist.c:114-146 | the table never holds more than six entries, nor one twice, nor one that never connected |
| Whitelist.TableRoundTrip | main/blue/a2dp/bt_whitelist.c:178-245 | the saved string decodes to the table it was made from |
| Whitelist.TextAt | main/blue/a2dp/bt_whitelist.c:210-232 | where in the saved string each byte of each address stands, and as which two lower-case digits |
| Whitelist.TableIsMostRecent | main/blue/a2dp/bt_whitelist.c:114-245 | whichever flash calls fail, memory and flash are the most recent lists of the connections they go back to: all since the last restart and those saved before it, and those up to the last save |
| Whitelist.TableSurvivesRestarts | main/blue/a2dp/bt_whitelist.c:114-245 | with successful flash calls, over any interleaving of connections, restarts and reloads the table is the most recent list of the whole history, and flash holds it |
| WhitelistTable.RunIsStorable | main/blue/a2dp/bt_whitelist.c:114-245 | after any such run, whichever flash calls fail, what flash holds meets the precondition of the load |
| WhitelistTable.Table.Rearrange | main/blue/a2dp/bt_whitelist.c:88-97 | the shifting loop moves entries down by one, dropping the seventh |
| WhitelistTable.Table.NotifyConnection | main/blue/a2dp/bt_whitelist.c:114-146 | the in-place update computes the new table, says whether the device was known, and saves the table when flash allows |
| WhitelistTable.Table.NvsLoad | main/blue/a2dp/bt_whitelist.c:148-191 | the decoding loops fill the table from the stored string, and leave a table connections can go on with |
| Modes.AlwaysSafe | main/main_sat.cpp:644-717 | after any events: the driver is installed only in leader mode and never installed twice nor touched when missing; battery, dataset and Bluetooth tasks are suspended only in the modes that suspend them; the timer runs exactly while a standby mode is set up and is never started twice; elapsed time is zero outside standby |
| ModeTasks.AtRestIff | main/main_sat.cpp:187-249 | over any run: all tasks are suspended and the sleep flag set, Bluetooth is suspended in follower mode, Bluetooth and the dataset task are in standby, and a light sleep is due, if and only if the event that brings each about has happened and none has ended it since |
| ModeTasks.SleepExample | main/main_sat.cpp:212-249 | a run that ends asleep with everything suspended |
| ModeTasks.StandbyKind | main/main_sat.cpp:524-595 | which standby task is set up, from when to when, and when the charger is looked at |
| ModeTasks.AlarmOf | main/main_sat.cpp:362-406 | when the alarm is raised and taken back while a standby task is set up |
| ModeTasks.PausedAfter | components/hal/hal-esp/I2S.cpp:51-85 | pausing and resuming work only on an installed driver, and leaving leader mode pauses |
| Modes.LeaveIsNeutral | main/main_sat.cpp:165-271 | leaving a mode undoes everything that mode may have switched |
| Modes.DriverInstalledIffLeader | main/main_sat.cpp:135-181 | over a whole run the driver is installed exactly in leader mode if and only if no unknown mode arrives while in leader mode |
| Modes.DriverLostIff | main/main_sat.cpp:693-716 | exactly one kind of event breaks that: an unknown mode received in leader mode |
| Modes.DriverLostExample | main/main_sat.cpp:693-716 | a run that ends in leader mode without a driver |
| Modes.DeadIffNeverReads | main/main_sat.cpp:651-676 | the states in which no input makes the loop read a mode are exactly standby, not woken, with neither standby task set up |
| Modes.StandbyTrap | main/main_sat.cpp:651-716 | such a state never reads another mode; all that can happen is that leaving standby is repeated |
| Modes.NeverOutAgain | main/main_sat.cpp:651-716 | whatever events follow |
| Modes.TrapEnteredIff | main/main_sat.cpp:651-716 | exactly which iterations lead there: standby requested from a mode other than leader and follower; and, once woken out of standby, an unknown mode, or standby again after an unknown mode has shut the standby task down |
| Modes.TrappedIff | main/main_sat.cpp:651-716 | a run has stopped reading modes if and only if one of its iterations was of that kind |
| Modes.TrapExample | main/main_sat.cpp:651-716 | a run with a wake-up and an unknown mode after which every iteration leaves the state as it is |
| ModeTimes.ClockIsSleeps | main/main_sat.cpp:107-129 | after any run the bias is the number of light sleeps since the time was cleared times the period of the standby, and the total adds what the timer had counted at the latest of them |
| ModeTimes.PowerOffAnnouncedIff | main/main_sat.cpp:362-406 | power-off is announced exactly on a timer wake-up without a new mode, unplugged, with automatic power-off enabled, once that time has reached 15 minutes |
| ModeMachine.I2sOut.Close | components/hal/hal-esp/I2S.cpp:87-100 | closing clears the flag first, so the flush that follows touches nothing: an object whose flag is right loses its driver without a fault |
| ModeMachine.TimerDriver.StartUp | main/system/standby_timer.c:221-243 | starts unless already enabled, and says which |
| ModeMachine.Speaker.CheckBattery | main/main_sat.cpp:362-406 | the timer wake-up without a new mode: alarm and next sleep, and the power-off notice exactly when unplugged, enabled and due |
| ModeMachine.Speaker.Iteration | main/main_sat.cpp:644-717 | one loop iteration computes the specified step and keeps the invariant |
| Battery.ModeOfArray | main/system/BatteryMan.cpp:85-114 | the loop over the sorted copy returns a value of the window that is the smallest with the longest run, counted from the unsorted first element; how that compares with the mode is part of its contract |
| Battery.ScanReturnsOneValue | main/system/BatteryMan.cpp:85-114 | that description determines the returned value |
| Battery.AtMostOneBelow | main/system/BatteryMan.cpp:85-114 | no value occurs more than once more often than the returned one |
| Battery.ExactWhenNewestIsLeast | main/system/BatteryMan.cpp:85-114 | when the newest sample is the least, the returned value is the smallest most frequent one |
| Battery.MostFrequentIff | main/system/BatteryMan.cpp:85-114 | the returned value is a most frequent one if and only if the window is not of one of two exactly described shapes |
| Battery.MisledExample | main/system/BatteryMan.cpp:85-114 | a window of seven samples of such a shape |
| Battery.NextWindow | main/system/BatteryMan.cpp:266-276 | overwriting the front of the rotated buffer gives the last seven samples, newest first |
| Battery.BatteryMan.ModeOfRbuffer | main/system/BatteryMan.cpp:266-282 | at every computation the buffer holds the last seven samples newest first, and the sample is replaced by the mode once none of them is zero |

## Left out

- ESP-IDF, FreeRTOS, NVS, Bluetooth and driver calls themselves; they appear as parameters, as described above.
- Logging, delays, and the serial layout of acknowledgements: responses are values, not bytes.
- Floating point: cell voltage, charge percentage, volume ramp. The power-off timeout is compared in whole seconds.
- The command cases of BleParser and PicParser that forward one request, and the request builders of Picman.
- `PICUpdate::isBootloaderReady`: polling the PIC's pin is the `picReady` outcome of a begin.
- The mutex around SysInfo: a failed lock reads as one more unknown mode.
- Flags of the mode machine that are only written, the reload setting of the standby timer, and the creation of its event task.
- `bt_whitelist_clear` and the reconnect flag; a clear with no bonded device leaves flash as it was, so no agreement between memory and flash is claimed after it.
- Inputs for which the C code has no defined meaning are preconditions: a '$' packet shorter than four bytes, text longer than the packet buffer, 100 stream bytes without '$' or zero, a trailing comma without '*', a stored string that is no table of at most six different addresses (never written, see `WhitelistTable.RunIsStorable`), the payloads of `SppLink.OverrunsIff`.
- SppLink.SppSend: lengths of 65536 and more, which the source truncates to 16 bits, are covered by the refusal of payloads that do not fit and not by truncation.
- Updater.Updates.ParsePkt: commands other than begin, chunk and abort are ignored on both links; a firmware chunk for the PIC over BLE must fit a serial packet, as the source asserts.
- One device that handles begins on both links: each device of the agreement results uses one, and a report that goes to the other link's session only closes the bootloader gate.
- PicGate.FirmwareIsConserved: assumes no reply that the packet parser queues directly, which bypasses the gate, and no direct write that overtakes queued packets (`PicGate.FirmwareArrivesInOrder` shows when there is none).
- Audio pauses and resumes fall between iterations of the mode loop, not inside one.
- Whitelist.TableRoundTrip: the unterminated two-character string of the load routine is read as its two digits, and the length it passes to flash uninitialised as the size of its buffer.
- Mode machine liveness: `Modes.TrappedIff` says exactly when it fails; that the PIC sends a message while one is awaited is not part of this model.
- Battery samples are integers; the narrowing to eight bits is the identity on the 0 to 100 range the source produces.
