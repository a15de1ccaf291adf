/** The update classes as objects: sessions whose fields the source updates in place, the parser that
dispatches to them, and the CRC accumulator of main/blue/spp/btc_spp.c that the Classic sessions read.

Every method is proved against the functions of Ota.dfy.
*/
module Updater {
  import opened Crc
  import opened Options
  import opened Ota
  import opened Serial

  const SEED_WORD: bv32 := 0x1D0F

  lemma SeedWord()
    ensures Low16(SEED_WORD) == SEED
  {
  }

  /** `ota_init_pkt_t` / `btc_ota_init_pkt_t`, as the parser overlays it on the packet. */
  datatype BeginPacket = BeginPacket(fwLen: nat, crc: Register, burst: nat)
  {
    function Info(classic: bool): BeginInfo {
      BeginInfo(fwLen, crc, if classic then burst else OTA_BURST_NUM_PKTS)
    }
  }

  method ReadBegin(pkt: seq<bv8>) returns (init: BeginPacket)
    requires IsBegin(pkt)
    ensures init.Info(true) == BtcInfo(pkt) && init.Info(false) == BleInfo(pkt)
  {
    init := BeginPacket(Unsigned(pkt[4]) + 0x100 * Unsigned(pkt[5])
                        + 0x1_0000 * Unsigned(pkt[6]) + 0x100_0000 * Unsigned(pkt[7]),
                        ByteBits(pkt[9]) + ByteBits(pkt[8]), Unsigned(pkt[12]));
  }

  // ---------------------------------------------------------------- packets on either link

  /** What one packet does, on either link. */
  function ParseStep(app: App, classic: bool, stream: Register, pkt: Packet, calls: Calls): App {
    if classic then BtcStep(app, stream, pkt, calls) else BleStep(app, pkt, calls)
  }

  function StreamStep(app: App, classic: bool, stream: Register, pkt: Packet): Register {
    if classic then StreamAfter(app, stream, pkt) else stream
  }

  lemma BeginStep(app: App, classic: bool, stream: Register, pkt: Packet, calls: Calls)
    requires IsBegin(pkt)
    ensures ParseStep(app, classic, stream, pkt, calls) ==
            OnBegin(app.(toClassic := classic), pkt, if classic then BtcInfo(pkt) else BleInfo(pkt), calls)
    ensures StreamStep(app, classic, stream, pkt) ==
            if classic && Accepts(Get(app, BeginTarget(pkt)), BtcInfo(pkt)) then SEED else stream
  {
  }

  lemma ChunkStep(app: App, classic: bool, stream: Register, pkt: Packet, calls: Calls)
    requires !IsBegin(pkt) && Command(pkt) == CMD_CHUNK && app.active.Some?
    ensures var crc := if classic then stream else Crc16(pkt[1..], Get(app, app.active.value).crcAux);
            ParseStep(app, classic, stream, pkt, calls) == OnChunk(app, app.active.value, pkt[1..], crc, calls)
    ensures StreamStep(app, classic, stream, pkt) == stream
  {
  }

  lemma AbortStep(app: App, classic: bool, stream: Register, pkt: Packet, calls: Calls)
    requires !IsBegin(pkt) && Command(pkt) == CMD_ABORT && app.active.Some?
    ensures ParseStep(app, classic, stream, pkt, calls) == OnAbort(app, app.active.value, calls)
    ensures StreamStep(app, classic, stream, pkt) == stream
  {
  }

  lemma IgnoredStep(app: App, classic: bool, stream: Register, pkt: Packet, calls: Calls)
    requires !IsBegin(pkt) && (app.active.Some? ==> Command(pkt) != CMD_CHUNK && Command(pkt) != CMD_ABORT)
    ensures ParseStep(app, classic, stream, pkt, calls) == app
    ensures StreamStep(app, classic, stream, pkt) == stream
  {
  }

  /** The static `crc` of main/blue/spp/btc_spp.c. */
  class CrcStream {
    var crc: bv32

    constructor ()
      ensures Low16(crc) == SEED
    {
      crc := SEED_WORD;
      SeedWord();
    }

    method InitCrc()
      modifies this
      ensures Low16(crc) == SEED
    {
      crc := SEED_WORD;
      SeedWord();
    }

    method Crc() returns (r: Register)
      ensures r == Low16(crc)
    {
      r := Low16(crc);
    }
  }

  /** `OTAUpdate` (`classic` false) and `BTC_OTAUpdate` (`classic` true). */
  class UpdateSession {
    const classic: bool
    const stream: CrcStream
    var otaInProgress: bool
    var recvLen: nat
    var totalLen: nat
    var recvPkts: nat
    var crcAux: Register
    var crcTotal: Register
    var burstNumPkts: nat

    function Value(): Session
      reads this
    {
      Session(otaInProgress, recvLen, totalLen, recvPkts, crcAux, crcTotal, burstNumPkts)
    }

    constructor (classic: bool, stream: CrcStream)
      ensures this.classic == classic && this.stream == stream
      ensures Value() == FreshSession(if classic then 0 else OTA_BURST_NUM_PKTS)
    {
      this.classic, this.stream := classic, stream;
      otaInProgress, recvLen, totalLen, recvPkts := false, 0, 0, 0;
      crcAux, crcTotal := SEED, ZERO;
      burstNumPkts := if classic then 0 else OTA_BURST_NUM_PKTS;
    }

    method Start(init: BeginPacket)
      modifies this, stream
      ensures Value() == SessionStart(old(Value()), init.Info(classic))
      ensures Low16(stream.crc) ==
              if classic && Accepts(old(Value()), init.Info(classic)) then SEED else old(Low16(stream.crc))
    {
      if otaInProgress {
      } else if init.fwLen == 0 {
      } else {
        otaInProgress := true;
        recvLen := 0;
        totalLen := init.fwLen;
        recvPkts := 0;
        burstNumPkts := if classic then init.burst else OTA_BURST_NUM_PKTS;
        crcTotal := init.crc;
        crcAux := SEED;
        if classic {
          stream.InitCrc();
        }
      }
    }

    /** The Classic session reads the CRC the framing decoder holds, the BLE session computes it. */
    method NextCrc(payload: seq<bv8>) returns (crc: Register)
      ensures crc == if classic then Low16(stream.crc) else Crc16(payload, crcAux)
    {
      if classic {
        crc := stream.Crc();
      } else {
        crc := CrcCcitt(payload, crcAux);
      }
    }

    /** `processPkt`; the result says whether the burst is complete and an acknowledgement is due. */
    method ProcessPkt(payload: seq<bv8>) returns (ack: bool)
      modifies this
      ensures var crc := if classic then Low16(stream.crc) else Crc16(payload, old(crcAux));
              Value() == SessionCount(old(Value()), |payload|, crc)
      ensures ack == BurstComplete(old(Value()))
    {
      var crc := NextCrc(payload);
      ack := Count(|payload|, crc);
    }

    /** Count a chunk of `n` payload bytes. */
    method Count(n: nat, crc: Register) returns (ack: bool)
      modifies this
      ensures Value() == SessionCount(old(Value()), n, crc)
      ensures ack == BurstComplete(old(Value()))
    {
      recvLen := Wrap(recvLen + n);
      crcAux := crc;
      recvPkts := Wrap(recvPkts + 1);
      ack := recvPkts == burstNumPkts;
      if ack {
        recvPkts := 0;
      }
    }

    /** `finish`; the result is the verdict sent to the app. */
    method Finish(success: bool) returns (ok: bool)
      modifies this
      ensures Value() == old(Value()).(inProgress := false)
      ensures ok == (success && old(Value()).crcAux == old(Value()).crcTotal)
    {
      ok := success && crcAux == crcTotal;
      otaInProgress := false;
    }

    method Abort()
      modifies this
      ensures Value() == old(Value()).(inProgress := false)
    {
      otaInProgress := false;
    }
  }

  /** `BleParser` (`classic` false) or `BTC_Parser` (`classic` true), with the sessions it dispatches to and
      the effects they have: the image in flash, the PIC bootloader gate, and everything sent. */
  class Updates {
    const classic: bool
    const stream: CrcStream
    const espOta: UpdateSession
    const picOta: UpdateSession
    var activeOta: Option<Target>
    var image: seq<bv8>
    /** The image in the partition that will be booted, once it has been switched. */
    var booting: Option<seq<bv8>>
    var bootloader: bool
    /** A global of the source: which transport the reports of the PIC go to. */
    var isOtaBtClassic: bool
    var out: seq<Output>

    ghost predicate Valid() {
      && espOta != picOta
      && espOta.classic == picOta.classic == classic
      && espOta.stream == picOta.stream == stream
    }

    function Value(): App
      reads this, espOta, picOta
    {
      App(activeOta, espOta.Value(), picOta.Value(), image, booting, bootloader, isOtaBtClassic, out)
    }

    constructor (classic: bool, stream: CrcStream)
      ensures Valid() && fresh(espOta) && fresh(picOta)
      ensures this.classic == classic && this.stream == stream
      ensures Value() == FreshApp(if classic then 0 else OTA_BURST_NUM_PKTS)
    {
      this.classic, this.stream := classic, stream;
      espOta := new UpdateSession(classic, stream);
      picOta := new UpdateSession(classic, stream);
      activeOta, image, booting, bootloader, isOtaBtClassic, out := None, [], None, false, false, [];
    }

    /** The base class's `processPkt` on the session of the ESP update: count, then acknowledge a full burst. */
    method EspCount(payload: seq<bv8>)
      requires Valid()
      modifies this`out, espOta
      ensures var crc := if classic then Low16(stream.crc) else Crc16(payload, old(espOta.crcAux));
              Value() == BaseProcess(old(Value()), Esp, |payload|, crc)
    {
      var ack := espOta.ProcessPkt(payload);
      if ack {
        out := out + [ChunkAck(espOta.crcAux)];
      }
    }

    method PicCount(payload: seq<bv8>)
      requires Valid()
      modifies this`out, picOta
      ensures var crc := if classic then Low16(stream.crc) else Crc16(payload, old(picOta.crcAux));
              Value() == BaseProcess(old(Value()), Pic, |payload|, crc)
    {
      var ack := picOta.ProcessPkt(payload);
      if ack {
        out := out + [ChunkAck(picOta.crcAux)];
      }
    }

    method BaseFinish(t: Target, success: bool)
      requires Valid()
      modifies this, if t.Esp? then espOta else picOta
      ensures Value() == Ota.BaseFinish(old(Value()), t, success)
    {
      var s := if t.Esp? then espOta else picOta;
      var ok := s.Finish(success);
      out := out + [Verdict(ok)];
    }

    method EspStart(init: BeginPacket, calls: Calls)
      requires Valid()
      modifies this, espOta, stream
      ensures Value() == Ota.EspStart(old(Value()), init.Info(classic), calls)
      ensures Low16(stream.crc) ==
              if classic && Accepts(old(espOta.Value()), init.Info(classic)) then SEED else old(Low16(stream.crc))
    {
      espOta.Start(init);
      if !calls.partition {
        out := out + [BeginResult(Esp, 1)];
        return;
      }
      if !calls.begin {
        out := out + [BeginResult(Esp, 2)];
        return;
      }
      image := [];
      out := out + [BeginResult(Esp, 0)];
      out := out + [EspStatus(FwStatus.Start)];
    }

    method EspFinish(success: bool, calls: Calls)
      requires Valid()
      modifies this, espOta
      ensures Value() == Ota.EspFinish(old(Value()), success, calls)
    {
      if success {
        if !calls.end {
          BaseFinish(Esp, false);
          out := out + [EspStatus(Fail)];
          return;
        }
        if !calls.boot {
          BaseFinish(Esp, false);
          return;
        }
        booting := Some(image);
      }
      out := out + [EspStatus(Complete)];
      BaseFinish(Esp, success);
      out := out + [RestartPic];
    }

    /** The part of `ESPUpdate::processPkt` that follows the call of the base class. */
    method EspWrite(payload: seq<bv8>, calls: Calls)
      requires Valid()
      modifies this, espOta
      ensures Value() == Ota.EspWrite(old(Value()), payload, calls)
    {
      if !calls.write {
        EspFinish(false, calls);
        return;
      }
      image := image + payload;
      if espOta.recvLen == espOta.totalLen {
        EspFinish(true, calls);
      }
    }

    method EspProcess(payload: seq<bv8>, calls: Calls)
      requires Valid()
      modifies this, espOta
      ensures var crc := if classic then Low16(stream.crc) else Crc16(payload, old(espOta.crcAux));
              Value() == Ota.EspProcess(old(Value()), payload, crc, calls)
    {
      EspCount(payload);
      EspWrite(payload, calls);
    }

    method EspAbort(calls: Calls)
      requires Valid()
      modifies this, espOta
      ensures Value() == Ota.EspAbort(old(Value()), calls)
    {
      if !calls.end {
        out := out + [EspStatus(Fail)];
        out := out + [RestartPic];
      }
      espOta.Abort();
    }

    method PicStart(init: BeginPacket, calls: Calls)
      requires Valid()
      modifies this, picOta, stream
      ensures Value() == Ota.PicStart(old(Value()), init.Info(classic), calls)
      ensures Low16(stream.crc) ==
              if classic && Accepts(old(picOta.Value()), init.Info(classic)) then SEED else old(Low16(stream.crc))
    {
      picOta.Start(init);
      out := out + [BootRequest];
      if calls.picReady {
        out := out + [BeginResult(Pic, 0)];
        bootloader := true;
      } else {
        out := out + [BeginResult(Pic, 1)];
        bootloader := false;
      }
    }

    method PicProcess(payload: seq<bv8>)
      requires Valid()
      modifies this, picOta
      ensures var crc := if classic then Low16(stream.crc) else Crc16(payload, old(picOta.crcAux));
              Value() == Ota.PicProcess(old(Value()), payload, crc)
    {
      out := out + [ToPic(payload)];
      PicCount(payload);
    }

    method PicFinish(success: bool)
      requires Valid()
      modifies this, picOta
      ensures Value() == Ota.PicFinish(old(Value()), success)
    {
      bootloader := false;
      BaseFinish(Pic, success);
    }

    /** The PICCOMMS_OTA_PIC_STATUS case of PicParser: a report that goes to the other transport finishes a
        session that is not among these, but closes the bootloader gate all the same. */
    method PicReport(success: bool)
      requires Valid()
      modifies this, picOta
      ensures Value() == OnReport(old(Value()), classic, success)
    {
      if isOtaBtClassic == classic {
        PicFinish(success);
      } else {
        bootloader := false;
      }
    }

    method PicAbort()
      requires Valid()
      modifies this, picOta
      ensures Value() == Ota.PicAbort(old(Value()))
    {
      bootloader := false;
      picOta.Abort();
    }

    /** A begin packet. */
    method ParseBegin(pkt: seq<bv8>, calls: Calls)
      requires Valid() && IsBegin(pkt)
      modifies this, espOta, picOta, stream
      ensures Value() == ParseStep(old(Value()), classic, old(Low16(stream.crc)), pkt, calls)
      ensures Low16(stream.crc) == StreamStep(old(Value()), classic, old(Low16(stream.crc)), pkt)
    {
      BeginStep(Value(), classic, Low16(stream.crc), pkt, calls);
      isOtaBtClassic := classic;
      var init := ReadBegin(pkt);
      if pkt[0] == CMD_ESP_BEGIN {
        ParseEspBegin(init, calls);
      } else {
        ParsePicBegin(init, calls);
      }
    }

    method ParseEspBegin(init: BeginPacket, calls: Calls)
      requires Valid()
      modifies this, espOta, stream
      ensures Value() == Ota.EspStart(old(Value()), init.Info(classic), calls).(active := Some(Esp))
      ensures Low16(stream.crc) ==
              if classic && Accepts(old(espOta.Value()), init.Info(classic)) then SEED else old(Low16(stream.crc))
    {
      EspStart(init, calls);
      activeOta := Some(Esp);
    }

    method ParsePicBegin(init: BeginPacket, calls: Calls)
      requires Valid()
      modifies this, picOta, stream
      ensures Value() == Ota.PicStart(old(Value()), init.Info(classic), calls).(active := Some(Pic))
      ensures Low16(stream.crc) ==
              if classic && Accepts(old(picOta.Value()), init.Info(classic)) then SEED else old(Low16(stream.crc))
    {
      PicStart(init, calls);
      activeOta := Some(Pic);
    }

    /** A chunk for the active session. */
    method ParseChunk(pkt: seq<bv8>, calls: Calls)
      requires Valid() && activeOta.Some? && !IsBegin(pkt) && Command(pkt) == CMD_CHUNK
      modifies this, espOta, picOta
      ensures Value() == ParseStep(old(Value()), classic, old(Low16(stream.crc)), pkt, calls)
      ensures Low16(stream.crc) == StreamStep(old(Value()), classic, old(Low16(stream.crc)), pkt)
    {
      ChunkStep(Value(), classic, Low16(stream.crc), pkt, calls);
      if activeOta.value.Esp? {
        EspProcess(pkt[1..], calls);
      } else {
        PicProcess(pkt[1..]);
      }
    }

    method ParseAbort(pkt: seq<bv8>, calls: Calls)
      requires Valid() && activeOta.Some? && !IsBegin(pkt) && Command(pkt) == CMD_ABORT
      modifies this, espOta, picOta
      ensures Value() == ParseStep(old(Value()), classic, old(Low16(stream.crc)), pkt, calls)
      ensures Low16(stream.crc) == StreamStep(old(Value()), classic, old(Low16(stream.crc)), pkt)
    {
      AbortStep(Value(), classic, Low16(stream.crc), pkt, calls);
      if activeOta.value.Esp? {
        EspAbort(calls);
      } else {
        PicAbort();
      }
      activeOta := None;
    }

    /** `parsePkt`. The BLE link asserts that a chunk for the PIC fits its serial packet. */
    method ParsePkt(pkt: seq<bv8>, calls: Calls)
      requires Valid()
      requires !classic && activeOta == Some(Pic) && Command(pkt) == CMD_CHUNK ==> |pkt| - 1 < SERIAL_RAW_MAX_LEN
      modifies this, espOta, picOta, stream
      ensures Value() == ParseStep(old(Value()), classic, old(Low16(stream.crc)), pkt, calls)
      ensures Low16(stream.crc) == StreamStep(old(Value()), classic, old(Low16(stream.crc)), pkt)
    {
      if IsBegin(pkt) {
        ParseBegin(pkt, calls);
      } else if Command(pkt) == CMD_CHUNK && activeOta.Some? {
        ParseChunk(pkt, calls);
      } else if Command(pkt) == CMD_ABORT && activeOta.Some? {
        ParseAbort(pkt, calls);
      } else {
        IgnoredStep(Value(), classic, Low16(stream.crc), pkt, calls);
      }
    }
  }
}
