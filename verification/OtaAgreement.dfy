/** The two transports agree: a firmware update sent as framed bytes over Bluetooth Classic, with the CRC
accumulated inside the framing decoder, and the same update sent as packets over Bluetooth Low Energy, with
the CRC computed packet by packet, go through the same states and send the same responses. */
module OtaAgreement {
  import opened Crc
  import opened Framing
  import opened Options
  import opened Ota
  import opened Serial

  /** What the parser works on, with the number of packets it has handled. */
  datatype Host = Host(app: App, handled: nat)

  /** How the calls made while handling the n-th packet turn out. */
  type Environment = nat -> Calls

  function CrcStep(crc: Register, b: bv8): Register {
    Remainder(ByteBits(b), crc)
  }

  /** The framing decoder linked with the CRC and with BTC_Parser. */
  function BtcHooks(env: Environment): Hooks<Host, Register> {
    Hooks(CrcStep, (h: Host, crc: Register, pkt: seq<bv8>) => BtcHandle(env, h, crc, pkt))
  }

  function BtcHandle(env: Environment, h: Host, crc: Register, pkt: seq<bv8>): (Host, Register) {
    (Host(BtcStep(h.app, crc, pkt, env(h.handled)), h.handled + 1), StreamAfter(h.app, crc, pkt))
  }

  lemma {:induction false} FoldIsCrc(crc: Register, bytes: seq<bv8>)
    ensures Fold(CrcStep, crc, bytes) == Crc16(bytes, crc)
    decreases |bytes|
  {
    if bytes != [] {
      var head := bytes[..|bytes| - 1];
      FoldIsCrc(crc, head);
      CrcSnoc(head, bytes[|bytes| - 1], crc);
      assert bytes == head + [bytes[|bytes| - 1]];
    }
  }

  // ---------------------------------------------------------------- runs

  /** A packet sent by the app, or the PIC reporting the end of its own update. */
  datatype Event = Arrives(pkt: seq<bv8>) | PicReport(success: bool)

  function BleEvent(env: Environment, h: Host, ev: Event): Host {
    match ev
    case Arrives(pkt) => Host(BleStep(h.app, pkt, env(h.handled)), h.handled + 1)
    case PicReport(success) => h.(app := OnReport(h.app, false, success))
  }

  function BtcEvent(env: Environment, d: Link<Host, Register>, ev: Event): Link<Host, Register> {
    match ev
    case Arrives(pkt) => Feed(BtcHooks(env), d, Frame(pkt))
    case PicReport(success) => d.(app := d.app.(app := OnReport(d.app.app, true, success)))
  }

  function BleRun(env: Environment, h: Host, events: seq<Event>): Host {
    if events == [] then h else BleEvent(env, BleRun(env, h, events[..|events| - 1]), events[|events| - 1])
  }

  function BtcRun(env: Environment, d: Link<Host, Register>, events: seq<Event>): Link<Host, Register> {
    if events == [] then d else BtcEvent(env, BtcRun(env, d, events[..|events| - 1]), events[|events| - 1])
  }

  /** `NUS_MTU_MAX` */
  const NUS_MTU_MAX: nat := 200

  /** Both links can carry the event: the packet fits the smaller link, and a chunk for the PIC also the serial
      packet it is forwarded in on BLE. */
  predicate FitsBoth(app: App, ev: Event) {
    ev.Arrives? ==>
      && 0 < |ev.pkt| <= NUS_MTU_MAX
      && (app.active == Some(Pic) && Command(ev.pkt) == CMD_CHUNK ==> |ev.pkt| - 1 < SERIAL_RAW_MAX_LEN)
  }

  ghost predicate AllFitBoth(env: Environment, h: Host, events: seq<Event>) {
    forall i | 0 <= i < |events| :: FitsBoth(BleRun(env, h, events[..i]).app, events[i])
  }

  // ---------------------------------------------------------------- the relation

  /** BLE has no burst field, the constant is used instead; and it keeps the reports of the PIC to itself. */
  function OnBle(app: App): App {
    app.(esp := app.esp.(burst := OTA_BURST_NUM_PKTS), pic := app.pic.(burst := OTA_BURST_NUM_PKTS), toClassic := false)
  }

  predicate SameApp(btc: App, ble: App) {
    && OnBle(btc) == ble
    && (btc.active.Some? ==> Get(btc, btc.active.value).burst == OTA_BURST_NUM_PKTS)
  }

  /** The two transports are in the same state, and the decoder's CRC is the active session's. */
  predicate Agree(d: Link<Host, Register>, h: Host) {
    && Idle(d)
    && d.app.handled == h.handled
    && SameApp(d.app.app, h.app)
    && (d.app.app.active.Some? ==> Get(d.app.app, d.app.app.active.value).crcAux == d.crc)
  }

  // ---------------------------------------------------------------- one packet

  lemma StartsAgree(app: App, info: BeginInfo, calls: Calls)
    ensures var ble := info.(burst := OTA_BURST_NUM_PKTS);
            && OnBle(EspStart(app, info, calls)) == EspStart(OnBle(app), ble, calls)
            && OnBle(PicStart(app, info, calls)) == PicStart(OnBle(app), ble, calls)
            && EspStart(app, info, calls).esp == SessionStart(app.esp, info)
            && PicStart(app, info, calls).pic == SessionStart(app.pic, info)
  {
  }

  lemma CountsAgree(app: App, t: Target, n: nat, crc: Register)
    requires Get(app, t).burst == OTA_BURST_NUM_PKTS
    ensures OnBle(BaseProcess(app, t, n, crc)) == BaseProcess(OnBle(app), t, n, crc)
    ensures Get(BaseProcess(app, t, n, crc), t).burst == OTA_BURST_NUM_PKTS
    ensures Get(BaseProcess(app, t, n, crc), t).crcAux == crc
    ensures BaseProcess(app, t, n, crc).active == app.active
  {
  }

  lemma EspFinishesAgree(app: App, success: bool, calls: Calls)
    ensures var e := EspFinish(app, success, calls);
            && OnBle(e) == EspFinish(OnBle(app), success, calls)
            && e.esp == app.esp.(inProgress := false) && e.active == app.active
  {
  }

  lemma EspChunksAgree(app: App, payload: seq<bv8>, crc: Register, calls: Calls)
    requires app.esp.burst == OTA_BURST_NUM_PKTS
    ensures OnBle(EspProcess(app, payload, crc, calls)) == EspProcess(OnBle(app), payload, crc, calls)
    ensures EspProcess(app, payload, crc, calls).esp.burst == OTA_BURST_NUM_PKTS
    ensures EspProcess(app, payload, crc, calls).esp.crcAux == crc
    ensures EspProcess(app, payload, crc, calls).active == app.active
  {
    CountsAgree(app, Esp, |payload|, crc);
    var a := BaseProcess(app, Esp, |payload|, crc);
    var b := BaseProcess(OnBle(app), Esp, |payload|, crc);
    EspFinishesAgree(a, false, calls);
    assert OnBle(a.(image := a.image + payload)) == b.(image := b.image + payload);
    EspFinishesAgree(a.(image := a.image + payload), true, calls);
  }

  lemma PicChunksAgree(app: App, payload: seq<bv8>, crc: Register)
    requires app.pic.burst == OTA_BURST_NUM_PKTS
    ensures OnBle(PicProcess(app, payload, crc)) == PicProcess(OnBle(app), payload, crc)
    ensures PicProcess(app, payload, crc).pic.burst == OTA_BURST_NUM_PKTS
    ensures PicProcess(app, payload, crc).pic.crcAux == crc
    ensures PicProcess(app, payload, crc).active == app.active
  {
  }

  lemma AbortsAgree(app: App, calls: Calls)
    ensures OnBle(EspAbort(app, calls)) == EspAbort(OnBle(app), calls)
    ensures OnBle(PicAbort(app)) == PicAbort(OnBle(app))
  {
  }

  /** `chunkCrc` is what either transport stores for a chunk. */
  function RunningCrc(app: App, pkt: seq<bv8>): Register {
    if app.active.Some? && pkt != [] then Crc16(pkt[1..], Get(app, app.active.value).crcAux) else SEED
  }

  /** A begin keeps the transports together exactly when it opens a session with the burst length BLE uses, or
      else is refused by a session whose burst length and CRC are already what the decoder's are. A refused begin
      that switches to the other update, with chunks received in between, is the case in which the two firmware
      twins part. A report of the PIC does exactly when Classic has handled a begin: before that it goes to the
      BLE session even on a device that is used over Classic. */
  predicate KeepsTogether(btc: App, crc: Register, ev: Event) {
    match ev
    case PicReport(_) => btc.toClassic
    case Arrives(pkt) => IsBegin(pkt) ==> BeginKeeps(btc, crc, pkt)
  }

  predicate BeginKeeps(btc: App, crc: Register, pkt: seq<bv8>)
    requires IsBegin(pkt)
  {
    var s := Get(btc, BeginTarget(pkt));
    if OpensSession(btc, pkt) then Unsigned(pkt[12]) == OTA_BURST_NUM_PKTS
    else s.burst == OTA_BURST_NUM_PKTS && s.crcAux == crc
  }

  /** A packet that is no begin. */
  lemma PacketsAgree(btc: App, ble: App, pkt: seq<bv8>, crc: Register, bleCrc: Register, calls: Calls)
    requires SameApp(btc, ble) && !IsBegin(pkt)
    requires btc.active.Some? && Command(pkt) == CMD_CHUNK ==> crc == bleCrc
    requires btc.active.Some? && Command(pkt) != CMD_CHUNK ==> Get(btc, btc.active.value).crcAux == crc
    ensures var a := OnPacket(btc, pkt, BtcInfo(pkt), crc, calls);
            && SameApp(a, OnPacket(ble, pkt, BleInfo(pkt), bleCrc, calls))
            && (a.active.Some? ==> Get(a, a.active.value).crcAux == crc)
  {
    if Command(pkt) == CMD_CHUNK && btc.active.Some? {
      if btc.active.value.Esp? {
        EspChunksAgree(btc, pkt[1..], crc, calls);
      } else {
        PicChunksAgree(btc, pkt[1..], crc);
      }
    } else if Command(pkt) == CMD_ABORT && btc.active.Some? {
      AbortsAgree(btc, calls);
    }
  }

  /** Any other packet keeps the transports together. */
  lemma OtherPacketsAgree(env: Environment, d: Link<Host, Register>, h: Host, pkt: seq<bv8>)
    requires Agree(d, h) && !IsBegin(pkt) && 0 < |pkt| <= MAX_ALLOWED - 2
    ensures Agree(BtcEvent(env, d, Arrives(pkt)), BleEvent(env, h, Arrives(pkt)))
  {
    FrameDecodes(BtcHooks(env), d, pkt);
    var crc := ChunkCrc(CrcStep, d.crc, pkt);
    FoldIsCrc(d.crc, pkt[1..]);
    PacketsAgree(d.app.app, h.app, pkt, crc, RunningCrc(h.app, pkt), env(h.handled));
  }

  lemma BeginStates(btc: App, ble: App, pkt: seq<bv8>, crc: Register, bleCrc: Register, calls: Calls)
    requires SameApp(btc, ble) && IsBegin(pkt)
    ensures var t := BeginTarget(pkt);
            var a := OnPacket(btc.(toClassic := true), pkt, BtcInfo(pkt), crc, calls);
            var b := OnPacket(ble.(toClassic := false), pkt, BleInfo(pkt), bleCrc, calls);
            && a.active == Some(t)
            && OnBle(a) == b
            && Get(a, t) == SessionStart(Get(btc, t), ParseBegin(pkt))
  {
    StartsAgree(btc.(toClassic := true), ParseBegin(pkt), calls);
    assert BleInfo(pkt) == ParseBegin(pkt).(burst := OTA_BURST_NUM_PKTS);
  }

  /** Exactly which begin packets keep the transports together. */
  lemma BeginAgreesIff(env: Environment, d: Link<Host, Register>, h: Host, pkt: seq<bv8>)
    requires Agree(d, h) && IsBegin(pkt)
    ensures Agree(BtcEvent(env, d, Arrives(pkt)), BleEvent(env, h, Arrives(pkt))) <==> BeginKeeps(d.app.app, d.crc, pkt)
  {
    FrameDecodes(BtcHooks(env), d, pkt);
    BeginStates(d.app.app, h.app, pkt, ChunkCrc(CrcStep, d.crc, pkt), RunningCrc(h.app, pkt), env(h.handled));
  }

  /** Exactly which reports do: over BLE the verdict is sent in any case. */
  lemma ReportAgreesIff(env: Environment, d: Link<Host, Register>, h: Host, success: bool)
    requires Agree(d, h)
    ensures Agree(BtcEvent(env, d, PicReport(success)), BleEvent(env, h, PicReport(success))) <==> d.app.app.toClassic
  {
    var btc, ble := d.app.app, h.app;
    assert OnBle(PicFinish(btc, success)) == PicFinish(ble, success);
    assert |OnReport(ble, false, success).out| == |btc.out| + 1;
  }

  lemma EventAgreesIff(env: Environment, d: Link<Host, Register>, h: Host, ev: Event)
    requires Agree(d, h) && FitsBoth(h.app, ev)
    ensures Agree(BtcEvent(env, d, ev), BleEvent(env, h, ev)) <==> KeepsTogether(d.app.app, d.crc, ev)
  {
    match ev
    case PicReport(success) => ReportAgreesIff(env, d, h, success);
    case Arrives(pkt) =>
      if IsBegin(pkt) {
        BeginAgreesIff(env, d, h, pkt);
      } else {
        OtherPacketsAgree(env, d, h, pkt);
      }
  }

  // ---------------------------------------------------------------- whole runs

  /** Where the `n`-th event finds the transports. */
  predicate AgreeAfter(env: Environment, d: Link<Host, Register>, h: Host, events: seq<Event>, n: nat)
    requires n <= |events|
  {
    Agree(BtcRun(env, d, events[..n]), BleRun(env, h, events[..n]))
  }

  predicate KeepsAt(env: Environment, d: Link<Host, Register>, events: seq<Event>, i: nat)
    requires i < |events|
  {
    var e := BtcRun(env, d, events[..i]);
    KeepsTogether(e.app.app, e.crc, events[i])
  }

  lemma NextAgreesIff(env: Environment, d: Link<Host, Register>, h: Host, events: seq<Event>, i: nat)
    requires i < |events| && AllFitBoth(env, h, events) && AgreeAfter(env, d, h, events, i)
    ensures AgreeAfter(env, d, h, events, i + 1) <==> KeepsAt(env, d, events, i)
  {
    assert events[..i + 1][..i] == events[..i];
    EventAgreesIff(env, BtcRun(env, d, events[..i]), BleRun(env, h, events[..i]), events[i]);
  }

  lemma {:induction false} AgreeSoFar(env: Environment, d: Link<Host, Register>, h: Host, events: seq<Event>, n: nat)
    requires Agree(d, h) && AllFitBoth(env, h, events) && n <= |events|
    requires forall i | 0 <= i < n :: KeepsAt(env, d, events, i)
    ensures AgreeAfter(env, d, h, events, n)
    decreases n
  {
    if n > 0 {
      AgreeSoFar(env, d, h, events, n - 1);
      NextAgreesIff(env, d, h, events, n - 1);
    }
  }

  /** Over any run of events that fit both links, the two transports are in the same state all along if and only
      if every begin and every report of the PIC is one that keeps them together. */
  lemma TransportsAgreeIff(env: Environment, d: Link<Host, Register>, h: Host, events: seq<Event>)
    requires Agree(d, h) && AllFitBoth(env, h, events)
    ensures (forall n | 0 <= n <= |events| :: AgreeAfter(env, d, h, events, n))
            <==> (forall i | 0 <= i < |events| :: KeepsAt(env, d, events, i))
  {
    if forall i | 0 <= i < |events| :: KeepsAt(env, d, events, i) {
      forall n | 0 <= n <= |events|
        ensures AgreeAfter(env, d, h, events, n)
      {
        AgreeSoFar(env, d, h, events, n);
      }
    } else {
      var i :| 0 <= i < |events| && !KeepsAt(env, d, events, i);
      if AgreeAfter(env, d, h, events, i) {
        NextAgreesIff(env, d, h, events, i);
      }
    }
  }

  /** In such a run the two transports end in the same state: same running CRC, same byte count, same
      acknowledgements, same verdict, same image, in the same order. */
  lemma TransportsAgree(env: Environment, d: Link<Host, Register>, h: Host, events: seq<Event>)
    requires Agree(d, h) && AllFitBoth(env, h, events)
    requires forall i | 0 <= i < |events| :: KeepsAt(env, d, events, i)
    ensures Agree(BtcRun(env, d, events), BleRun(env, h, events))
  {
    AgreeSoFar(env, d, h, events, |events|);
    assert events[..|events|] == events;
  }

  const BTC_FRESH: Link<Host, Register> := Link([], 0, SEED, Host(FreshApp(0), 0), [])
  const BLE_FRESH: Host := Host(FreshApp(OTA_BURST_NUM_PKTS), 0)

  /** Two devices fresh from power-on are in the same state. */
  lemma FreshDevicesAgree()
    ensures Agree(BTC_FRESH, BLE_FRESH)
  {
  }

  /** A report of the PIC before any begin: the BLE device answers it, the Classic device does not. */
  lemma EarlyReportParts(env: Environment, success: bool)
    ensures BleEvent(env, BLE_FRESH, PicReport(success)).app.out == [Verdict(false)]
    ensures BtcEvent(env, BTC_FRESH, PicReport(success)).app.app == BTC_FRESH.app.app
    ensures !Agree(BtcEvent(env, BTC_FRESH, PicReport(success)), BleEvent(env, BLE_FRESH, PicReport(success)))
  {
    FreshDevicesAgree();
    ReportAgreesIff(env, BTC_FRESH, BLE_FRESH, success);
    assert SEED[3] != ZERO[3];
  }

  // ---------------------------------------------------------------- where reports go

  lemma PacketRoutes(app: App, pkt: seq<bv8>, info: BeginInfo, crc: Register, calls: Calls)
    ensures OnPacket(app, pkt, info, crc, calls).toClassic == app.toClassic
  {
  }

  /** Over Classic, reports reach the Classic session exactly from the first begin on, refused or not. */
  lemma {:induction false} RoutedIff(env: Environment, d: Link<Host, Register>, events: seq<Event>)
    requires Idle(d) && forall ev | ev in events :: ev.Arrives? ==> |ev.pkt| <= MAX_ALLOWED - 2
    ensures Idle(BtcRun(env, d, events))
    ensures BtcRun(env, d, events).app.app.toClassic <==>
            d.app.app.toClassic || exists ev :: ev in events && ev.Arrives? && IsBegin(ev.pkt)
    decreases |events|
  {
    if events != [] {
      var front, last := events[..|events| - 1], events[|events| - 1];
      assert events == front + [last];
      assert last in events && forall ev | ev in front :: ev in events;
      RoutedIff(env, d, front);
      var e := BtcRun(env, d, front);
      if last.Arrives? {
        FrameDecodes(BtcHooks(env), e, last.pkt);
        var crc := ChunkCrc(CrcStep, e.crc, last.pkt);
        PacketRoutes(RouteBegin(e.app.app, last.pkt, true), last.pkt, BtcInfo(last.pkt), crc, env(e.app.handled));
      }
    }
  }
}
