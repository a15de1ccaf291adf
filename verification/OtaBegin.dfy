/** Begin packets as an app writes them: which session they open, what announcing the right CRC leads to, and what
begins, aborts and reports of the PIC answer. */
module OtaBegin {
  import opened Crc
  import opened Framing
  import opened FramingRuns
  import opened Options
  import opened Ota
  import opened OtaAccounting
  import opened OtaAgreement
  import opened OtaDelivery

  // ---------------------------------------------------------------- the packed structure

  /** The byte of a number below 256. */
  function Byte(n: nat): bv8 {
    if n == 0 then 0 else Byte(n - 1) + 1
  }

  lemma NextByte(b: bv8)
    requires Unsigned(b) < 255
    ensures Unsigned(b + 1) == Unsigned(b) + 1
  {
    NotTheLast(b);
  }

  lemma NotTheLast(b: bv8)
    requires Unsigned(b) < 255
    ensures b != 255
  {
  }

  lemma {:induction false} ByteReadsBack(n: nat)
    requires n < 256
    ensures Unsigned(Byte(n)) == n
    decreases n
  {
    if n > 0 {
      ByteReadsBack(n - 1);
      NextByte(Byte(n - 1));
    }
  }

  /** A number below 2^32 as four bytes, the lowest first. */
  function LittleEndian(n: nat): (bytes: seq<bv8>)
    ensures |bytes| == 4
  {
    [Byte(n % 256), Byte(n / 256 % 256), Byte(n / 256 / 256 % 256), Byte(n / 256 / 256 / 256 % 256)]
  }

  /** The byte with the given bits, the highest first. */
  function ByteOf(b7: bool, b6: bool, b5: bool, b4: bool, b3: bool, b2: bool, b1: bool, b0: bool): bv8 {
    (if b7 then 0x80 else 0) | (if b6 then 0x40 else 0) | (if b5 then 0x20 else 0) | (if b4 then 0x10 else 0)
    | (if b3 then 0x08 else 0) | (if b2 then 0x04 else 0) | (if b1 then 0x02 else 0) | (if b0 then 0x01 else 0)
  }

  function HighByte(r: Register): bv8 {
    ByteOf(r[0], r[1], r[2], r[3], r[4], r[5], r[6], r[7])
  }

  function LowByte(r: Register): bv8 {
    ByteOf(r[8], r[9], r[10], r[11], r[12], r[13], r[14], r[15])
  }

  function CommandOf(t: Target): bv8 {
    if t.Esp? then CMD_ESP_BEGIN else CMD_PIC_BEGIN
  }

  /** What the app fills in, besides length, CRC and burst: device type, hardware and firmware revision, chunk
      size, and the reserved byte. */
  datatype Extra = Extra(deviceType: bv8, hwRev: bv8, fwVer: bv8, chunkLow: bv8, chunkHigh: bv8, reserved: bv8)

  /** A begin packet: command, device, revisions, then length, CRC, chunk size and burst, each number with its
      lowest byte first. */
  function EncodeBegin(t: Target, x: Extra, fwLen: nat, crc: Register, burst: bv8): (pkt: seq<bv8>)
    ensures |pkt| == BEGIN_LENGTH
  {
    [CommandOf(t), x.deviceType, x.hwRev, x.fwVer] + LittleEndian(fwLen)
    + [LowByte(crc), HighByte(crc), x.chunkLow, x.chunkHigh, burst, x.reserved]
  }

  lemma Quotients(n: nat)
    requires n < WORD
    ensures n % 256 + 0x100 * (n / 256 % 256) + 0x1_0000 * (n / 256 / 256 % 256)
            + 0x100_0000 * (n / 256 / 256 / 256 % 256) == n
  {
    var a := n / 256;
    var b := a / 256;
    var c := b / 256;
    assert n == 256 * a + n % 256 && a == 256 * b + a % 256 && b == 256 * c + b % 256;
    assert c < 256;
  }

  lemma BitsOfByte(b7: bool, b6: bool, b5: bool, b4: bool, b3: bool, b2: bool, b1: bool, b0: bool)
    ensures ByteBits(ByteOf(b7, b6, b5, b4, b3, b2, b1, b0)) == [b7, b6, b5, b4, b3, b2, b1, b0]
  {
  }

  lemma Halves(r: Register, high: seq<bool>, low: seq<bool>)
    requires high == [r[0], r[1], r[2], r[3], r[4], r[5], r[6], r[7]]
    requires low == [r[8], r[9], r[10], r[11], r[12], r[13], r[14], r[15]]
    ensures high + low == r
  {
  }

  lemma HighBits(r: Register)
    ensures ByteBits(HighByte(r)) == [r[0], r[1], r[2], r[3], r[4], r[5], r[6], r[7]]
  {
    BitsOfByte(r[0], r[1], r[2], r[3], r[4], r[5], r[6], r[7]);
  }

  lemma LowBits(r: Register)
    ensures ByteBits(LowByte(r)) == [r[8], r[9], r[10], r[11], r[12], r[13], r[14], r[15]]
  {
    BitsOfByte(r[8], r[9], r[10], r[11], r[12], r[13], r[14], r[15]);
  }

  /** High byte, then low byte: the register. */
  lemma CrcReadsBack(r: Register)
    ensures ByteBits(HighByte(r)) + ByteBits(LowByte(r)) == r
  {
    HighBits(r);
    LowBits(r);
    Halves(r, ByteBits(HighByte(r)), ByteBits(LowByte(r)));
  }

  lemma LengthReadsBack(n: nat, bytes: seq<bv8>)
    requires n < WORD && bytes == LittleEndian(n)
    ensures Unsigned(bytes[0]) + 0x100 * Unsigned(bytes[1]) + 0x1_0000 * Unsigned(bytes[2])
            + 0x100_0000 * Unsigned(bytes[3]) == n
  {
    ByteReadsBack(n % 256);
    ByteReadsBack(n / 256 % 256);
    ByteReadsBack(n / 256 / 256 % 256);
    ByteReadsBack(n / 256 / 256 / 256 % 256);
    Quotients(n);
  }

  /** For every length below 2^32, CRC and burst, a begin reads back as exactly those. */
  lemma BeginReadsBack(t: Target, x: Extra, fwLen: nat, crc: Register, burst: bv8)
    requires fwLen < WORD
    ensures var pkt := EncodeBegin(t, x, fwLen, crc, burst);
            && IsBegin(pkt) && BeginTarget(pkt) == t
            && ParseBegin(pkt) == BeginInfo(fwLen, crc, Unsigned(burst))
  {
    var pkt, bytes := EncodeBegin(t, x, fwLen, crc, burst), LittleEndian(fwLen);
    LengthReadsBack(fwLen, bytes);
    assert pkt[4] == bytes[0] && pkt[5] == bytes[1] && pkt[6] == bytes[2] && pkt[7] == bytes[3];
    assert pkt[8] == LowByte(crc) && pkt[9] == HighByte(crc) && pkt[12] == burst;
    CrcReadsBack(crc);
  }

  /** It opens a session exactly when the session is not open and the length is not zero. */
  lemma BeginOpensIff(app: App, t: Target, x: Extra, fwLen: nat, crc: Register, burst: bv8)
    requires fwLen < WORD
    ensures OpensSession(app, EncodeBegin(t, x, fwLen, crc, burst)) <==> !Get(app, t).inProgress && fwLen != 0
  {
    BeginReadsBack(t, x, fwLen, crc, burst);
  }

  /** A begin for 258 bytes with CRC 0x1234. */
  lemma BeginExample(pkt: seq<bv8>)
    requires pkt == [0x10, 1, 2, 3, 0x02, 0x01, 0, 0, 0x34, 0x12, 0, 0, 100, 0]
    ensures IsBegin(pkt) && BeginTarget(pkt) == Esp
    ensures ParseBegin(pkt) == BeginInfo(258, WordBits(0x1234), 100)
  {
  }

  // ---------------------------------------------------------------- the right CRC

  /** The bytes of an update, framed and cut into calls anywhere. */
  predicate Sent(begin: seq<bv8>, payloads: seq<seq<bv8>>, calls: seq<seq<bv8>>) {
    Join(calls) == Frames([begin] + ChunkPackets(payloads))
  }

  /** An update whose begin announces the length of its chunks ends in one verdict, which says whether the announced
      CRC is that of the chunks. */
  lemma VerdictIff(env: Environment, d: Link<Host, Register>, x: Extra, crc: Register, burst: bv8,
                   payloads: seq<seq<bv8>>, calls: seq<seq<bv8>>)
    requires Idle(d) && AllWell(env) && !d.app.app.esp.inProgress && payloads != []
    requires (forall p | p in payloads :: 0 < |p| <= MAX_ALLOWED - 3) && |Concat(payloads)| < WORD
    ensures var begin := EncodeBegin(Esp, x, |Concat(payloads)|, crc, burst);
            var e := FeedCalls(BtcHooks(env), d, calls);
            Sent(begin, payloads, calls) ==>
              && e.app.app.image == Concat(payloads)
              && Verdicts(e.app.app.out) == Verdicts(d.app.app.out) + [crc == Crc16(Concat(payloads), SEED)]
              && !e.app.app.esp.inProgress
  {
    var begin := EncodeBegin(Esp, x, |Concat(payloads)|, crc, burst);
    if Sent(begin, payloads, calls) {
      NotEmpty(payloads);
      BeginReadsBack(Esp, x, |Concat(payloads)|, crc, burst);
      BeginOpensIff(d.app.app, Esp, x, |Concat(payloads)|, crc, burst);
      var verdicts := UpdateEndToEnd(env, d, begin, payloads, calls);
      LastVerdict(payloads, crc, verdicts, FeedCalls(BtcHooks(env), d, calls).app.app.esp.inProgress);
    }
  }

  lemma NotEmpty(payloads: seq<seq<bv8>>)
    requires payloads != [] && forall p | p in payloads :: 0 < |p|
    ensures |Concat(payloads)| > 0
  {
    assert payloads[|payloads| - 1] in payloads;
  }

  /** The verdict of a run that ends with the announced length. */
  lemma LastVerdict(payloads: seq<seq<bv8>>, crc: Register, verdicts: seq<bool>, open: bool)
    requires payloads != [] && Closed(WithCrcs(payloads), |Concat(payloads)|, crc, verdicts, open)
    ensures verdicts == [crc == Crc16(Concat(payloads), SEED)] && !open
  {
    var chunks, n := WithCrcs(payloads), |payloads|;
    ImageIsConcat(payloads);
    assert chunks[..n] == chunks;
    assert TotalTo(chunks, n) == |Concat(payloads)|;
    LastWithCrc(payloads);
  }

  /** The chunks of an update, received by the session that its begin has opened. */
  lemma RunVerdict(app: App, crc: Register, payloads: seq<seq<bv8>>)
    requires payloads != [] && (forall p | p in payloads :: 0 < |p| <= MAX_ALLOWED - 3) && |Concat(payloads)| < WORD
    requires JustStarted(app.esp) && app.image == []
    requires app.esp.totalLen == |Concat(payloads)| && app.esp.crcTotal == crc
    ensures var e := RunEsp(app, WithCrcs(payloads));
            && e.image == Concat(payloads)
            && Verdicts(e.out) == Verdicts(app.out) + [crc == Crc16(Concat(payloads), SEED)]
            && !e.esp.inProgress
  {
    ImageIsConcat(payloads);
    ChunksNonEmpty(payloads);
    RunIsAccounted(app, WithCrcs(payloads));
    var verdicts := OneVerdict(app, WithCrcs(payloads));
    LastVerdict(payloads, crc, verdicts, RunEsp(app, WithCrcs(payloads)).esp.inProgress);
  }

  /** The same over Bluetooth Low Energy. */
  lemma VerdictIffOverBle(env: Environment, h: Host, x: Extra, crc: Register, burst: bv8, payloads: seq<seq<bv8>>)
    requires AllWell(env) && !h.app.esp.inProgress && payloads != []
    requires (forall p | p in payloads :: 0 < |p| <= MAX_ALLOWED - 3) && |Concat(payloads)| < WORD
    ensures var begin := EncodeBegin(Esp, x, |Concat(payloads)|, crc, burst);
            var e := BleRun(env, BleEvent(env, h, Arrives(begin)), ChunkEvents(payloads)).app;
            && e.image == Concat(payloads)
            && Verdicts(e.out) == Verdicts(h.app.out) + [crc == Crc16(Concat(payloads), SEED)]
            && !e.esp.inProgress
  {
    var begin := EncodeBegin(Esp, x, |Concat(payloads)|, crc, burst);
    NotEmpty(payloads);
    BeginReadsBack(Esp, x, |Concat(payloads)|, crc, burst);
    BeginOpensIff(h.app, Esp, x, |Concat(payloads)|, crc, burst);
    var started := BleEvent(env, h, Arrives(begin));
    BleBeginOpens(env, h, begin);
    BleChunks(env, started, payloads);
    RunVerdict(started.app, crc, payloads);
  }

  lemma BleBeginOpens(env: Environment, h: Host, begin: seq<bv8>)
    requires AllWell(env) && IsBegin(begin) && BeginTarget(begin) == Esp && OpensSession(h.app, begin)
    ensures var e, info := BleEvent(env, h, Arrives(begin)).app, ParseBegin(begin);
            && e.active == Some(Esp) && e.image == []
            && e.esp == Session(true, 0, info.fwLen, 0, SEED, info.crc, OTA_BURST_NUM_PKTS)
            && Verdicts(e.out) == Verdicts(h.app.out)
  {
    var a := h.app.(toClassic := false, esp := SessionStart(h.app.esp, BleInfo(begin)), image := []);
    SendReports(a, BeginResult(Esp, 0));
    SendReports(Send(a, BeginResult(Esp, 0)), EspStatus(Start));
  }

  // ---------------------------------------------------------------- an update in two packets

  lemma EightZeros(w: bv16, next: bv16)
    requires next == Shift8(w)
    ensures Remainder(Zeros(8), WordBits(w)) == WordBits(next)
  {
    Shift8IsEightBits(w);
  }

  lemma ZeroByteBits(bits: seq<bool>)
    requires bits == ByteBits(0)
    ensures bits == Zeros(8)
  {
  }

  lemma SeedBits()
    ensures WordBits(0x1D0F) == SEED
  {
  }

  lemma ShiftedTwice()
    ensures Shift8(0x1D0F) == 0xCC9C && Shift8(0xCC9C) == 0x84C0
  {
  }

  /** The CRC of two zero bytes is 0x84C0. */
  lemma CrcOfTwoZeros()
    ensures Crc16([0, 0], SEED) == WordBits(0x84C0)
  {
    assert [0 as bv8] + [0] == [0, 0];
    CrcConcat([0], [0], SEED);
    CrcOne(0, SEED);
    CrcOne(0, Crc16([0], SEED));
    ZeroByteBits(ByteBits(0));
    SeedBits();
    ShiftedTwice();
    EightZeros(0x1D0F, 0xCC9C);
    EightZeros(0xCC9C, 0x84C0);
  }

  /** An update of two zero bytes: the begin carries the CRC as C0 84, and the verdict is success. */
  lemma GoodUpdate(env: Environment, begin: seq<bv8>)
    requires AllWell(env) && begin == [0x10, 0, 0, 0, 2, 0, 0, 0, 0xC0, 0x84, 0, 0, 100, 0]
    ensures var h := BleEvent(env, BLE_FRESH, Arrives(begin));
            Verdicts(BleEvent(env, h, Arrives([CMD_CHUNK, 0, 0])).app.out) == [true]
  {
    assert IsBegin(begin) && BeginTarget(begin) == Esp && ParseBegin(begin).fwLen == 2;
    AnnouncedCrc(begin);
    BleBeginOpens(env, BLE_FRESH, begin);
    var h := BleEvent(env, BLE_FRESH, Arrives(begin));
    BleChunk(env, h, [0, 0]);
    assert [CMD_CHUNK] + [0, 0] == [CMD_CHUNK, 0, 0];
    CrcOfTwoZeros();
    ChunkReports(h.app, Chunk([0, 0], Crc16([0, 0], SEED)));
  }

  lemma AnnouncedCrc(begin: seq<bv8>)
    requires |begin| == BEGIN_LENGTH && begin[8] == 0xC0 && begin[9] == 0x84
    ensures ParseBegin(begin).crc == WordBits(0x84C0)
  {
  }

  // ---------------------------------------------------------------- what begins answer

  /** An ESP begin is answered by what flash allows, whether or not it opens a session. */
  lemma EspBeginAnswers(app: App, info: BeginInfo, calls: Calls)
    ensures var e := EspStart(app, info, calls);
            && e.out == app.out + (if !calls.partition then [BeginResult(Esp, 1)]
                                   else if !calls.begin then [BeginResult(Esp, 2)]
                                   else [BeginResult(Esp, 0), EspStatus(Start)])
            && e.image == if calls.partition && calls.begin then [] else app.image
  {
  }

  /** A PIC begin asks the PIC for its bootloader and is answered by whether that is ready, which also decides
      whether the gate is open. */
  lemma PicBeginAnswers(app: App, info: BeginInfo, calls: Calls)
    ensures var e := PicStart(app, info, calls);
            && e.out == app.out + [BootRequest, BeginResult(Pic, if calls.picReady then 0 else 1)]
            && (e.bootloader <==> calls.picReady)
  {
  }

  // ---------------------------------------------------------------- aborts and reports

  lemma AbortPacket(app: App, info: BeginInfo, crc: Register, calls: Calls)
    requires app.active.Some?
    ensures OnPacket(app, [CMD_ABORT], info, crc, calls) == OnAbort(app, app.active.value, calls)
  {
  }

  /** An abort closes the active session and no other, leaves none active, and sends no verdict; for an ESP update
      that cannot be ended it tells the PIC failure and requests a reset; for a PIC update it closes the gate. */
  lemma AbortCloses(app: App, calls: Calls, info: BeginInfo, crc: Register)
    requires app.active.Some?
    ensures var t, e := app.active.value, OnPacket(app, [CMD_ABORT], info, crc, calls);
            && e.active == None
            && Get(e, t) == Get(app, t).(inProgress := false)
            && (t == Esp ==> e.pic == app.pic && e.bootloader == app.bootloader
                             && e.out == app.out + if calls.end then [] else [EspStatus(Fail), RestartPic])
            && (t == Pic ==> e.esp == app.esp && !e.bootloader && e.out == app.out)
  {
    AbortPacket(app, info, crc, calls);
  }

  /** So a begin for it after an abort is accepted, with any length but zero. */
  lemma BeginAfterAbort(app: App, calls: Calls, x: Extra, fwLen: nat, crc: Register, burst: bv8, info: BeginInfo,
                        chunkCrc: Register)
    requires app.active.Some? && 0 < fwLen < WORD
    ensures var t, e := app.active.value, OnPacket(app, [CMD_ABORT], info, chunkCrc, calls);
            OpensSession(e, EncodeBegin(t, x, fwLen, crc, burst))
  {
    AbortCloses(app, calls, info, chunkCrc);
    BeginOpensIff(OnPacket(app, [CMD_ABORT], info, chunkCrc, calls), app.active.value, x, fwLen, crc, burst);
  }

  /** And chunks after an abort are ignored, until the next begin. */
  lemma ChunkWithoutBegin(app: App, payload: seq<bv8>, info: BeginInfo, crc: Register, calls: Calls)
    requires app.active == None
    ensures OnPacket(app, [CMD_CHUNK] + payload, info, crc, calls) == app
  {
  }

  /** Begins of any other length, and commands that are none of these, change nothing. */
  lemma OthersIgnored(app: App, pkt: seq<bv8>, info: BeginInfo, crc: Register, calls: Calls)
    requires Command(pkt) != CMD_CHUNK && Command(pkt) != CMD_ABORT
    requires Command(pkt) == CMD_ESP_BEGIN || Command(pkt) == CMD_PIC_BEGIN ==> |pkt| != BEGIN_LENGTH
    ensures OnPacket(app, pkt, info, crc, calls) == app
  {
  }

  /** A report of the PIC, where it arrives: the verdict is success exactly when the PIC reports success and the
      CRCs agree; the session is closed, and so is the gate. */
  lemma ReportAnswers(app: App, classic: bool, success: bool)
    requires app.toClassic == classic
    ensures var e := OnReport(app, classic, success);
            && e.out == app.out + [Verdict(success && app.pic.crcAux == app.pic.crcTotal)]
            && e.pic == app.pic.(inProgress := false) && e.esp == app.esp && !e.bootloader
  {
  }
}
