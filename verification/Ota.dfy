/** Firmware update sessions: OTAUpdate / BTC_OTAUpdate, ESPUpdate / BTC_ESPUpdate, PICUpdate / BTC_PICUpdate
and the update cases of BleParser and BTC_Parser.

The Bluetooth Low Energy classes and their Bluetooth Classic twins differ in two places only: where the
running CRC comes from and where the burst length comes from. Both are parameters here, so one set of
functions specifies both.
*/
module Ota {
  import opened Crc
  import opened Options

  const WORD: nat := 0x1_0000_0000

  /** `OTA_BURST_NUM_PKTS` of the target build. */
  const OTA_BURST_NUM_PKTS: nat := 100

  const CMD_ESP_BEGIN: bv8 := 0x10
  const CMD_PIC_BEGIN: bv8 := 0x12
  const CMD_CHUNK: bv8 := 0x14
  const CMD_ABORT: bv8 := 0x17

  /** Command byte plus `sizeof(ota_init_pkt_t)`, which equals `sizeof(btc_ota_init_pkt_t)`. */
  const BEGIN_LENGTH: nat := 14

  type Packet = seq<bv8>

  datatype Target = Esp | Pic

  /** The fields of the begin packet that the sessions use. */
  datatype BeginInfo = BeginInfo(fwLen: nat, crc: Register, burst: nat)

  /** How the calls made while handling one packet turn out: flash partition found, update begun, image
      bytes written, update ended, boot partition set; PIC bootloader ready. */
  datatype Calls = Calls(partition: bool, begin: bool, write: bool, end: bool, boot: bool, picReady: bool)

  datatype FwStatus = Start | Complete | Fail

  /** What the sessions send, in order: to the app (acknowledgement, verdict, begin response) and to the
      PIC (status of the ESP update, reset, request to enter the bootloader, firmware bytes). */
  datatype Output =
    | ChunkAck(crc: Register)
    | Verdict(ok: bool)
    | BeginResult(target: Target, code: nat)
    | EspStatus(status: FwStatus)
    | RestartPic
    | BootRequest
    | ToPic(payload: seq<bv8>)

  datatype Session = Session(inProgress: bool, recvLen: nat, totalLen: nat, recvPkts: nat,
                             crcAux: Register, crcTotal: Register, burst: nat)

  /** One transport's update state: the two sessions, the one the parser has made active, the image written to
      flash so far, the image the boot partition has been switched to, the PIC bootloader gate, where reports of
      the PIC go (`isOtaBtClassic`), and everything sent. */
  datatype App = App(active: Option<Target>, esp: Session, pic: Session, image: seq<bv8>,
                     booting: Option<seq<bv8>>, bootloader: bool, toClassic: bool, out: seq<Output>)

  function Get(app: App, t: Target): Session {
    if t.Esp? then app.esp else app.pic
  }

  function Put(app: App, t: Target, s: Session): App {
    if t.Esp? then app.(esp := s) else app.(pic := s)
  }

  function Send(app: App, o: Output): App {
    app.(out := app.out + [o])
  }

  function FreshSession(burst: nat): Session {
    Session(false, 0, 0, 0, SEED, ZERO, burst)
  }

  function FreshApp(burst: nat): App {
    App(None, FreshSession(burst), FreshSession(burst), [], None, false, false, [])
  }

  // ---------------------------------------------------------------- base session

  predicate Accepts(s: Session, info: BeginInfo) {
    !s.inProgress && info.fwLen != 0
  }

  function SessionStart(s: Session, info: BeginInfo): Session {
    if Accepts(s, info) then Session(true, 0, info.fwLen, 0, SEED, info.crc, info.burst) else s
  }

  /** A counter of 32 bits. */
  function Wrap(n: nat): (w: nat)
    ensures n < WORD ==> w == n
  {
    n % WORD
  }

  /** Count a chunk of `n` payload bytes, after which the running CRC is `crc`. */
  function SessionCount(s: Session, n: nat, crc: Register): Session {
    var pkts := Wrap(s.recvPkts + 1);
    s.(recvLen := Wrap(s.recvLen + n), crcAux := crc, recvPkts := if pkts == s.burst then 0 else pkts)
  }

  predicate BurstComplete(s: Session) {
    Wrap(s.recvPkts + 1) == s.burst
  }

  function BaseProcess(app: App, t: Target, n: nat, crc: Register): App {
    var s := Get(app, t);
    var counted := Put(app, t, SessionCount(s, n, crc));
    if BurstComplete(s) then Send(counted, ChunkAck(crc)) else counted
  }

  function BaseFinish(app: App, t: Target, success: bool): App {
    var s := Get(app, t);
    Put(Send(app, Verdict(success && s.crcAux == s.crcTotal)), t, s.(inProgress := false))
  }

  function BaseAbort(app: App, t: Target): App {
    Put(app, t, Get(app, t).(inProgress := false))
  }

  // ---------------------------------------------------------------- ESP update

  function EspStart(app: App, info: BeginInfo, calls: Calls): App {
    var a := app.(esp := SessionStart(app.esp, info));
    if !calls.partition then Send(a, BeginResult(Esp, 1))
    else if !calls.begin then Send(a, BeginResult(Esp, 2))
    else Send(Send(a.(image := []), BeginResult(Esp, 0)), EspStatus(Start))
  }

  function SwitchBoot(app: App, success: bool): App {
    if success then app.(booting := Some(app.image)) else app
  }

  /** On success the boot partition is switched before the CRC is compared. */
  function EspFinish(app: App, success: bool, calls: Calls): App {
    if success && !calls.end then Send(BaseFinish(app, Esp, false), EspStatus(Fail))
    else if success && !calls.boot then BaseFinish(app, Esp, false)
    else Send(BaseFinish(Send(SwitchBoot(app, success), EspStatus(Complete)), Esp, success), RestartPic)
  }

  /** Write the payload, and finish on a failed write or once the announced length is reached. */
  function EspWrite(app: App, payload: seq<bv8>, calls: Calls): App {
    if !calls.write then EspFinish(app, false, calls)
    else
      var written := app.(image := app.image + payload);
      if written.esp.recvLen == written.esp.totalLen then EspFinish(written, true, calls) else written
  }

  function EspProcess(app: App, payload: seq<bv8>, crc: Register, calls: Calls): App {
    EspWrite(BaseProcess(app, Esp, |payload|, crc), payload, calls)
  }

  function EspAbort(app: App, calls: Calls): App {
    BaseAbort(if calls.end then app else Send(Send(app, EspStatus(Fail)), RestartPic), Esp)
  }

  // ---------------------------------------------------------------- PIC update

  function PicStart(app: App, info: BeginInfo, calls: Calls): App {
    var a := Send(app.(pic := SessionStart(app.pic, info)), BootRequest);
    Send(a, BeginResult(Pic, if calls.picReady then 0 else 1)).(bootloader := calls.picReady)
  }

  function PicProcess(app: App, payload: seq<bv8>, crc: Register): App {
    BaseProcess(Send(app, ToPic(payload)), Pic, |payload|, crc)
  }

  function PicFinish(app: App, success: bool): App {
    BaseFinish(app.(bootloader := false), Pic, success)
  }

  function PicAbort(app: App): App {
    BaseAbort(app.(bootloader := false), Pic)
  }

  /** The PIC reports the end of its update to a device that uses one link: the report goes to the session of
      the transport that last handled a begin, and either way the bootloader gate is closed. */
  function OnReport(app: App, classic: bool, success: bool): App {
    if app.toClassic == classic then PicFinish(app, success) else app.(bootloader := false)
  }

  // ---------------------------------------------------------------- parser

  function Command(pkt: Packet): bv8 {
    if pkt == [] then 0 else pkt[0]
  }

  function Unsigned(b: bv8): nat {
    b as nat
  }

  /** The packed begin structure, little-endian; `burst` as the Classic structure lays it out. */
  function ParseBegin(pkt: Packet): BeginInfo
    requires |pkt| == BEGIN_LENGTH
  {
    BeginInfo(Unsigned(pkt[4]) + 0x100 * Unsigned(pkt[5]) + 0x1_0000 * Unsigned(pkt[6]) + 0x100_0000 * Unsigned(pkt[7]),
              ByteBits(pkt[9]) + ByteBits(pkt[8]),
              Unsigned(pkt[12]))
  }

  predicate IsBegin(pkt: Packet) {
    |pkt| == BEGIN_LENGTH && (pkt[0] == CMD_ESP_BEGIN || pkt[0] == CMD_PIC_BEGIN)
  }

  function BeginTarget(pkt: Packet): Target
    requires IsBegin(pkt)
  {
    if pkt[0] == CMD_ESP_BEGIN then Esp else Pic
  }

  /** Whether the packet opens a new session, that is, resets its counters and its CRC. */
  predicate OpensSession(app: App, pkt: Packet) {
    IsBegin(pkt) && Accepts(Get(app, BeginTarget(pkt)), ParseBegin(pkt))
  }

  function OnBegin(app: App, pkt: Packet, info: BeginInfo, calls: Calls): App
    requires IsBegin(pkt)
  {
    if BeginTarget(pkt).Esp? then EspStart(app, info, calls).(active := Some(Esp))
    else PicStart(app, info, calls).(active := Some(Pic))
  }

  function OnChunk(app: App, t: Target, payload: seq<bv8>, crc: Register, calls: Calls): App {
    if t.Esp? then EspProcess(app, payload, crc, calls) else PicProcess(app, payload, crc)
  }

  function OnAbort(app: App, t: Target, calls: Calls): App {
    (if t.Esp? then EspAbort(app, calls) else PicAbort(app)).(active := None)
  }

  /** Every begin, whether accepted or refused, claims the reports of the PIC for its transport. */
  function RouteBegin(app: App, pkt: Packet, classic: bool): App {
    if IsBegin(pkt) then app.(toClassic := classic) else app
  }

  /** Handle one packet. `chunkCrc` is the CRC the active session stores if the packet is a chunk. */
  function OnPacket(app: App, pkt: Packet, info: BeginInfo, chunkCrc: Register, calls: Calls): App {
    if IsBegin(pkt) then OnBegin(app, pkt, info, calls)
    else if Command(pkt) == CMD_CHUNK && app.active.Some? then OnChunk(app, app.active.value, pkt[1..], chunkCrc, calls)
    else if Command(pkt) == CMD_ABORT && app.active.Some? then OnAbort(app, app.active.value, calls)
    else app
  }

  function BleInfo(pkt: Packet): BeginInfo {
    if IsBegin(pkt) then ParseBegin(pkt).(burst := OTA_BURST_NUM_PKTS) else BeginInfo(0, ZERO, OTA_BURST_NUM_PKTS)
  }

  function BtcInfo(pkt: Packet): BeginInfo {
    if IsBegin(pkt) then ParseBegin(pkt) else BeginInfo(0, ZERO, 0)
  }

  /** Bluetooth Low Energy: each chunk's CRC continues from the one the active session holds. */
  function BleStep(app: App, pkt: Packet, calls: Calls): App {
    var crc := if app.active.Some? && pkt != [] then Crc16(pkt[1..], Get(app, app.active.value).crcAux) else SEED;
    OnPacket(RouteBegin(app, pkt, false), pkt, BleInfo(pkt), crc, calls)
  }

  /** Bluetooth Classic: each chunk's CRC is read from the framing decoder. */
  function BtcStep(app: App, stream: Register, pkt: Packet, calls: Calls): App {
    OnPacket(RouteBegin(app, pkt, true), pkt, BtcInfo(pkt), stream, calls)
  }

  /** An accepted begin resets the decoder's CRC. */
  function StreamAfter(app: App, stream: Register, pkt: Packet): Register {
    if OpensSession(app, pkt) then SEED else stream
  }
}
