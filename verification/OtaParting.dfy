/** How the two transports part: a refused begin that switches to the other update, with chunks received in
between, leaves the Classic stream CRC belonging to neither; from the next chunk on the running CRCs differ,
whatever is sent. */
module OtaParting {
  import opened Crc
  import opened CrcDetection
  import opened Framing
  import opened Options
  import opened Ota
  import opened OtaAccounting
  import opened OtaAgreement
  import opened OtaDelivery

  /** Both transports have the same update active, but the stream CRC is not the one the BLE session continues
      from. */
  predicate Parted(d: Link<Host, Register>, h: Host, t: Target) {
    && Idle(d)
    && d.app.app.active == h.app.active == Some(t)
    && d.crc != Get(h.app, t).crcAux
  }

  lemma CountKeeps(app: App, t: Target, n: nat, crc: Register)
    ensures var e := BaseProcess(app, t, n, crc);
            e.active == app.active && Get(e, t).crcAux == crc
  {
  }

  lemma WriteKeeps(app: App, payload: seq<bv8>, calls: Calls)
    ensures var e := EspWrite(app, payload, calls);
            e.active == app.active && e.esp.crcAux == app.esp.crcAux
  {
  }

  lemma ChunkKeeps(app: App, t: Target, payload: seq<bv8>, crc: Register, calls: Calls)
    ensures var e := OnChunk(app, t, payload, crc, calls);
            e.active == app.active && Get(e, t).crcAux == crc
  {
    if t.Esp? {
      CountKeeps(app, Esp, |payload|, crc);
      WriteKeeps(BaseProcess(app, Esp, |payload|, crc), payload, calls);
    } else {
      CountKeeps(Send(app, ToPic(payload)), Pic, |payload|, crc);
    }
  }

  lemma OnChunkPacket(app: App, t: Target, payload: seq<bv8>, info: BeginInfo, crc: Register, calls: Calls)
    requires app.active == Some(t)
    ensures OnPacket(app, [CMD_CHUNK] + payload, info, crc, calls) == OnChunk(app, t, payload, crc, calls)
    ensures !IsBegin([CMD_CHUNK] + payload)
  {
    assert ([CMD_CHUNK] + payload)[1..] == payload;
  }

  /** One chunk over Classic: the session takes over the stream CRC, which has moved by the payload. */
  lemma BtcChunkCrc(env: Environment, d: Link<Host, Register>, t: Target, payload: seq<bv8>)
    requires Idle(d) && d.app.app.active == Some(t) && |payload| <= MAX_ALLOWED - 3
    ensures var e := BtcEvent(env, d, Arrives([CMD_CHUNK] + payload));
            && Idle(e) && e.app.app.active == Some(t)
            && e.crc == Get(e.app.app, t).crcAux == Crc16(payload, d.crc)
  {
    var pkt, crc := [CMD_CHUNK] + payload, Crc16(payload, d.crc);
    FrameDecodes(BtcHooks(env), d, pkt);
    assert pkt[1..] == payload;
    FoldIsCrc(d.crc, payload);
    OnChunkPacket(d.app.app, t, payload, BtcInfo(pkt), crc, env(d.app.handled));
    ChunkKeeps(d.app.app, t, payload, crc, env(d.app.handled));
  }

  lemma BleChunkCrc(env: Environment, h: Host, t: Target, payload: seq<bv8>)
    requires h.app.active == Some(t)
    ensures var e := BleEvent(env, h, Arrives([CMD_CHUNK] + payload));
            && e.app == OnChunk(h.app, t, payload, Crc16(payload, Get(h.app, t).crcAux), env(h.handled))
            && e.app.active == Some(t)
            && Get(e.app, t).crcAux == Crc16(payload, Get(h.app, t).crcAux)
  {
    var pkt, crc := [CMD_CHUNK] + payload, Crc16(payload, Get(h.app, t).crcAux);
    assert pkt[1..] == payload;
    OnChunkPacket(h.app, t, payload, BleInfo(pkt), crc, env(h.handled));
    ChunkKeeps(h.app, t, payload, crc, env(h.handled));
  }

  /** The next chunk, whatever it holds, leaves the two sessions with different CRCs. */
  lemma NextChunkDiffers(env: Environment, d: Link<Host, Register>, h: Host, t: Target, payload: seq<bv8>)
    requires Parted(d, h, t) && |payload| <= MAX_ALLOWED - 3
    ensures var chunk := Arrives([CMD_CHUNK] + payload);
            var e, k := BtcEvent(env, d, chunk), BleEvent(env, h, chunk);
            Parted(e, k, t) && CrcsDiffer(e, k, t)
  {
    BtcChunkCrc(env, d, t, payload);
    BleChunkCrc(env, h, t, payload);
    if Crc16(payload, d.crc) == Crc16(payload, Get(h.app, t).crcAux) {
      RemainderInjective(Bits(payload), d.crc, Get(h.app, t).crcAux);
    }
  }

  lemma ChunkRunsSnoc(env: Environment, d: Link<Host, Register>, h: Host, payloads: seq<seq<bv8>>)
    requires payloads != []
    ensures var front, last := payloads[..|payloads| - 1], Arrives([CMD_CHUNK] + payloads[|payloads| - 1]);
            && BtcRun(env, d, ChunkEvents(payloads)) == BtcEvent(env, BtcRun(env, d, ChunkEvents(front)), last)
            && BleRun(env, h, ChunkEvents(payloads)) == BleEvent(env, BleRun(env, h, ChunkEvents(front)), last)
  {
    var n := |payloads| - 1;
    assert ChunkEvents(payloads)[..n] == ChunkEvents(payloads[..n]);
  }

  predicate AllCarriable(payloads: seq<seq<bv8>>) {
    forall p | p in payloads :: |p| <= MAX_ALLOWED - 3
  }

  /** The two sessions hold different CRCs. */
  predicate CrcsDiffer(d: Link<Host, Register>, h: Host, t: Target) {
    Get(d.app.app, t).crcAux != Get(h.app, t).crcAux
  }

  /** And so does every chunk after it. */
  lemma {:induction false} PartedForGood(env: Environment, d: Link<Host, Register>, h: Host, t: Target,
                                         payloads: seq<seq<bv8>>)
    requires Parted(d, h, t) && AllCarriable(payloads)
    ensures var e, k := BtcRun(env, d, ChunkEvents(payloads)), BleRun(env, h, ChunkEvents(payloads));
            Parted(e, k, t) && (payloads != [] ==> CrcsDiffer(e, k, t))
    decreases |payloads|
  {
    if payloads == [] {
      assert ChunkEvents(payloads) == [];
    } else {
      var front, last := payloads[..|payloads| - 1], payloads[|payloads| - 1];
      assert last in payloads && forall p | p in front :: p in payloads;
      PartedForGood(env, d, h, t, front);
      ChunkRunsSnoc(env, d, h, payloads);
      NextChunkDiffers(env, BtcRun(env, d, ChunkEvents(front)), BleRun(env, h, ChunkEvents(front)), t, last);
    }
  }

  // ---------------------------------------------------------------- a run that parts them

  /** A refused begin for the update that is not active: the stream CRC stays with the one that was. */
  lemma RefusedBeginParts(env: Environment, d: Link<Host, Register>, h: Host, begin: seq<bv8>)
    requires Agree(d, h) && IsBegin(begin) && !OpensSession(d.app.app, begin)
    requires Get(d.app.app, BeginTarget(begin)).crcAux != d.crc
    ensures var e, k := BtcEvent(env, d, Arrives(begin)), BleEvent(env, h, Arrives(begin));
            Parted(e, k, BeginTarget(begin)) && !Agree(e, k)
  {
    FrameDecodes(BtcHooks(env), d, begin);
    BeginStates(d.app.app, h.app, begin, d.crc, RunningCrc(h.app, begin), env(h.handled));
  }

  lemma BeginOpensBle(env: Environment, h: Host, begin: seq<bv8>)
    requires IsBegin(begin) && OpensSession(h.app, begin)
    ensures var e, t, info := BleEvent(env, h, Arrives(begin)), BeginTarget(begin), ParseBegin(begin);
            && e.app.active == Some(t)
            && Get(e.app, t) == Session(true, 0, info.fwLen, 0, SEED, info.crc, OTA_BURST_NUM_PKTS)
            && (t == Esp ==> e.app.pic == h.app.pic) && (t == Pic ==> e.app.esp == h.app.esp)
  {
  }

  lemma EspChunkStaysOpen(app: App, payload: seq<bv8>, crc: Register)
    requires Wrap(app.esp.recvLen + |payload|) != app.esp.totalLen
    ensures var e := EspProcess(app, payload, crc, ALL_WELL);
            e.esp.inProgress == app.esp.inProgress && e.pic == app.pic
  {
  }

  lemma PicChunkKeepsEsp(app: App, payload: seq<bv8>, crc: Register)
    ensures PicProcess(app, payload, crc).esp == app.esp
  {
  }

  /** An ESP begin that opens a session, then a chunk that does not complete it. */
  lemma EspBeginThenChunk(env: Environment, h: Host, begin: seq<bv8>, payload: seq<bv8>)
    requires AllWell(env)
    requires IsBegin(begin) && BeginTarget(begin) == Esp && OpensSession(h.app, begin)
    requires Wrap(|payload|) != ParseBegin(begin).fwLen
    ensures var e := BleEvent(env, h, Arrives(begin));
            var k := BleEvent(env, e, Arrives([CMD_CHUNK] + payload)).app;
            && e.app.active == k.active == Some(Esp)
            && k.esp.inProgress && k.esp.crcAux == Crc16(payload, SEED) && k.pic == h.app.pic
  {
    BeginOpensBle(env, h, begin);
    var e := BleEvent(env, h, Arrives(begin));
    BleChunkCrc(env, e, Esp, payload);
    EspChunkStaysOpen(e.app, payload, Crc16(payload, SEED));
  }

  lemma PicBeginThenChunk(env: Environment, h: Host, begin: seq<bv8>, payload: seq<bv8>)
    requires IsBegin(begin) && BeginTarget(begin) == Pic && OpensSession(h.app, begin)
    ensures var e := BleEvent(env, h, Arrives(begin));
            var k := BleEvent(env, e, Arrives([CMD_CHUNK] + payload)).app;
            && e.app.active == k.active == Some(Pic)
            && k.pic.crcAux == Crc16(payload, SEED) && k.esp == h.app.esp
  {
    BeginOpensBle(env, h, begin);
    var e := BleEvent(env, h, Arrives(begin));
    BleChunkCrc(env, e, Pic, payload);
    PicChunkKeepsEsp(e.app, payload, Crc16(payload, SEED));
  }

  /** A begin that both transports accept while its session is closed. */
  predicate Startable(begin: seq<bv8>) {
    IsBegin(begin) && ParseBegin(begin).fwLen > 0 && Unsigned(begin[12]) == OTA_BURST_NUM_PKTS
  }

  /** Such a begin and then a chunk keep the transports together. */
  lemma BeginThenChunkAgree(env: Environment, d: Link<Host, Register>, h: Host, begin: seq<bv8>, payload: seq<bv8>)
    requires Agree(d, h) && |payload| <= MAX_ALLOWED - 3
    requires Startable(begin) && !Get(h.app, BeginTarget(begin)).inProgress
    ensures var chunk := Arrives([CMD_CHUNK] + payload);
            Agree(BtcEvent(env, BtcEvent(env, d, Arrives(begin)), chunk),
                  BleEvent(env, BleEvent(env, h, Arrives(begin)), chunk))
  {
    assert OpensSession(d.app.app, begin);
    BeginAgreesIff(env, d, h, begin);
    OtherPacketsAgree(env, BtcEvent(env, d, Arrives(begin)), BleEvent(env, h, Arrives(begin)), [CMD_CHUNK] + payload);
  }

  /** In agreement, a begin for the other update, which is still open and holds another CRC, parts them. */
  lemma OpenUpdateParts(env: Environment, d: Link<Host, Register>, h: Host, begin: seq<bv8>)
    requires Agree(d, h) && IsBegin(begin) && BeginTarget(begin) == Esp
    requires h.app.active == Some(Pic) && h.app.esp.inProgress && h.app.esp.crcAux != h.app.pic.crcAux
    ensures Parted(BtcEvent(env, d, Arrives(begin)), BleEvent(env, h, Arrives(begin)), Esp)
  {
    assert d.app.app.esp.inProgress && d.app.app.esp.crcAux == h.app.esp.crcAux;
    assert d.crc == h.app.pic.crcAux;
    RefusedBeginParts(env, d, h, begin);
  }

  lemma TwoEvents(env: Environment, d: Link<Host, Register>, h: Host, events: seq<Event>, a: Event, b: Event)
    ensures BleRun(env, h, events + [a, b]) == BleEvent(env, BleEvent(env, BleRun(env, h, events), a), b)
    ensures BtcRun(env, d, events + [a, b]) == BtcEvent(env, BtcEvent(env, BtcRun(env, d, events), a), b)
  {
    assert (events + [a, b])[..|events| + 1] == events + [a];
    assert (events + [a])[..|events|] == events;
  }

  /** A begin and a chunk. */
  function Opening(begin: seq<bv8>, payload: seq<bv8>): seq<Event> {
    [Arrives(begin), Arrives([CMD_CHUNK] + payload)]
  }

  lemma FirstOpening(env: Environment, esp: seq<bv8>, first: seq<bv8>)
    requires AllWell(env) && Startable(esp) && BeginTarget(esp) == Esp
    requires |first| <= MAX_ALLOWED - 3 && |first| != ParseBegin(esp).fwLen
    ensures var d, h := BtcRun(env, BTC_FRESH, Opening(esp, first)), BleRun(env, BLE_FRESH, Opening(esp, first));
            && Agree(d, h)
            && h.app.esp.inProgress && h.app.esp.crcAux == Crc16(first, SEED) && !h.app.pic.inProgress
  {
    FreshDevicesAgree();
    TwoEvents(env, BTC_FRESH, BLE_FRESH, [], Arrives(esp), Arrives([CMD_CHUNK] + first));
    assert [] + Opening(esp, first) == Opening(esp, first);
    BeginThenChunkAgree(env, BTC_FRESH, BLE_FRESH, esp, first);
    EspBeginThenChunk(env, BLE_FRESH, esp, first);
  }

  /** From two devices fresh from power-on: an ESP begin and a chunk that does not complete it, and a PIC begin
      and a chunk of another CRC, leave the transports in agreement; a second ESP begin, refused because that
      update is still open, parts them. */
  lemma RefusedBeginRun(env: Environment, esp: seq<bv8>, first: seq<bv8>, pic: seq<bv8>, second: seq<bv8>)
    requires AllWell(env) && Crc16(first, SEED) != Crc16(second, SEED)
    requires Startable(esp) && BeginTarget(esp) == Esp && Startable(pic) && BeginTarget(pic) == Pic
    requires |first| <= MAX_ALLOWED - 3 && |first| != ParseBegin(esp).fwLen && |second| <= MAX_ALLOWED - 3
    ensures var events := Opening(esp, first) + Opening(pic, second);
            var d, h := BtcRun(env, BTC_FRESH, events), BleRun(env, BLE_FRESH, events);
            && Agree(d, h)
            && Parted(BtcEvent(env, d, Arrives(esp)), BleEvent(env, h, Arrives(esp)), Esp)
  {
    FirstOpening(env, esp, first);
    var d, h := BtcRun(env, BTC_FRESH, Opening(esp, first)), BleRun(env, BLE_FRESH, Opening(esp, first));
    TwoEvents(env, BTC_FRESH, BLE_FRESH, Opening(esp, first), Arrives(pic), Arrives([CMD_CHUNK] + second));
    BeginThenChunkAgree(env, d, h, pic, second);
    PicBeginThenChunk(env, h, pic, second);
    var events := Opening(esp, first) + Opening(pic, second);
    OpenUpdateParts(env, BtcRun(env, BTC_FRESH, events), BleRun(env, BLE_FRESH, events), esp);
  }

  /** Begins for ten bytes, with bursts as on BLE. */
  function ExampleBegin(command: bv8): (begin: seq<bv8>)
    ensures |begin| == BEGIN_LENGTH
  {
    [command, 0, 0, 0, 10, 0, 0, 0, 0, 0, 0, 0, 100, 0]
  }

  /** Such a run: chunks 0, 0 and 0, 1. */
  lemma PartingExample(env: Environment)
    requires AllWell(env)
    ensures var esp, pic := ExampleBegin(CMD_ESP_BEGIN), ExampleBegin(CMD_PIC_BEGIN);
            var events := Opening(esp, [0, 0]) + Opening(pic, [0, 1]);
            var d, h := BtcRun(env, BTC_FRESH, events), BleRun(env, BLE_FRESH, events);
            && Agree(d, h)
            && Parted(BtcEvent(env, d, Arrives(esp)), BleEvent(env, h, Arrives(esp)), Esp)
  {
    ExampleCrcsDiffer();
    ExampleBegins();
    RefusedBeginRun(env, ExampleBegin(CMD_ESP_BEGIN), [0, 0], ExampleBegin(CMD_PIC_BEGIN), [0, 1]);
  }

  lemma ExampleCrcsDiffer()
    ensures Crc16([0, 0], SEED) != Crc16([0, 1], SEED)
  {
    TwoByteErrorDetected([], 0, 0, 0, 1, [], SEED);
    assert [] + [0, 0] + [] == [0 as bv8, 0] && [] + [0, 1] + [] == [0 as bv8, 1];
  }

  lemma ExampleBegins()
    ensures var esp, pic := ExampleBegin(CMD_ESP_BEGIN), ExampleBegin(CMD_PIC_BEGIN);
            && Startable(esp) && BeginTarget(esp) == Esp && ParseBegin(esp).fwLen == 10
            && Startable(pic) && BeginTarget(pic) == Pic
  {
  }
}
