/** What the PIC and the boot partition are told about an ESP update, against what the app is told.

`ESPUpdate::finish` reports completion to the PIC and requests a reset before, and whether or not, the verdict
for the app is a success: after a failed write, and when the boot partition has been switched to an image whose
CRC is then found to be wrong.
*/
module OtaReports {
  import opened Crc
  import opened CrcDetection
  import opened Framing
  import opened FramingRuns
  import opened Options
  import opened Ota
  import opened OtaAccounting
  import opened OtaAgreement
  import opened OtaDelivery

  predicate IsStatus(o: Output) {
    o.EspStatus? || o.RestartPic?
  }

  /** What the PIC is told about the ESP update, in order. */
  function Told(out: seq<Output>): seq<Output> {
    if out == [] then []
    else
      var last := out[|out| - 1];
      Told(out[..|out| - 1]) + if IsStatus(last) then [last] else []
  }

  const COMPLETION: seq<Output> := [EspStatus(Complete), RestartPic]

  lemma SendTells(app: App, o: Output)
    ensures Told(Send(app, o).out) == Told(app.out) + if IsStatus(o) then [o] else []
  {
    assert (app.out + [o])[..|app.out + [o]| - 1] == app.out;
  }

  // ---------------------------------------------------------------- one chunk

  function FinishTold(success: bool, calls: Calls): seq<Output> {
    if success && !calls.end then [EspStatus(Fail)]
    else if success && !calls.boot then []
    else COMPLETION
  }

  /** What the PIC is told on a chunk, once the session is `s`. */
  function ChunkTold(s: Session, calls: Calls): seq<Output> {
    if !calls.write then COMPLETION
    else if s.recvLen == s.totalLen then FinishTold(true, calls)
    else []
  }

  /** The chunk switches the boot partition. */
  predicate ChunkBoots(s: Session, calls: Calls) {
    calls.write && s.recvLen == s.totalLen && calls.end && calls.boot
  }

  lemma BaseFinishTells(app: App, success: bool)
    ensures var e := Ota.BaseFinish(app, Esp, success);
            Told(e.out) == Told(app.out) && e.booting == app.booting
  {
    SendTells(app, Verdict(success && app.esp.crcAux == app.esp.crcTotal));
  }

  /** Neither the end of the update nor the switch has failed. */
  lemma CompleteTells(app: App, success: bool)
    ensures var done := Ota.BaseFinish(Send(SwitchBoot(app, success), EspStatus(Complete)), Esp, success);
            var e := Send(done, RestartPic);
            Told(e.out) == Told(app.out) + COMPLETION && e.booting == SwitchBoot(app, success).booting
  {
    var a := SwitchBoot(app, success);
    var b := Send(a, EspStatus(Complete));
    SendTells(a, EspStatus(Complete));
    BaseFinishTells(b, success);
    SendTells(Ota.BaseFinish(b, Esp, success), RestartPic);
    AppendAssociates(Told(app.out), [EspStatus(Complete)], [RestartPic]);
  }

  lemma FailTells(app: App)
    ensures var e := Send(Ota.BaseFinish(app, Esp, false), EspStatus(Fail));
            Told(e.out) == Told(app.out) + [EspStatus(Fail)] && e.booting == app.booting
  {
    BaseFinishTells(app, false);
    SendTells(Ota.BaseFinish(app, Esp, false), EspStatus(Fail));
  }

  lemma FinishTells(app: App, success: bool, calls: Calls)
    ensures var e := EspFinish(app, success, calls);
            && Told(e.out) == Told(app.out) + FinishTold(success, calls)
            && e.booting == if success && calls.end && calls.boot then Some(app.image) else app.booting
  {
    if success && !calls.end {
      FailTells(app);
    } else if success && !calls.boot {
      BaseFinishTells(app, false);
    } else {
      CompleteTells(app, success);
    }
  }

  lemma WriteTells(app: App, payload: seq<bv8>, calls: Calls)
    ensures var e := EspWrite(app, payload, calls);
            && Told(e.out) == Told(app.out) + ChunkTold(app.esp, calls)
            && e.booting == if ChunkBoots(app.esp, calls) then Some(app.image + payload) else app.booting
  {
    if !calls.write {
      FinishTells(app, false, calls);
    } else if app.esp.recvLen == app.esp.totalLen {
      FinishTells(app.(image := app.image + payload), true, calls);
    }
  }

  lemma CountTells(app: App, n: nat, crc: Register)
    ensures var e := BaseProcess(app, Esp, n, crc);
            && Told(e.out) == Told(app.out)
            && e.esp == SessionCount(app.esp, n, crc) && e.booting == app.booting && e.image == app.image
  {
    SendTells(Put(app, Esp, SessionCount(app.esp, n, crc)), ChunkAck(crc));
  }

  /** One chunk under any flash outcomes: what the PIC is told, and whether the boot partition is switched. */
  lemma ChunkTells(app: App, c: Chunk, calls: Calls)
    ensures var e, s := EspProcess(app, c.payload, c.crc, calls), SessionCount(app.esp, |c.payload|, c.crc);
            && Told(e.out) == Told(app.out) + ChunkTold(s, calls)
            && e.booting == if ChunkBoots(s, calls) then Some(app.image + c.payload) else app.booting
  {
    CountTells(app, |c.payload|, c.crc);
    WriteTells(BaseProcess(app, Esp, |c.payload|, c.crc), c.payload, calls);
  }

  /** The app is told that the update has failed, and the PIC that it is complete, with a reset. */
  predicate Contradicts(app: App, c: Chunk, calls: Calls) {
    var e := EspProcess(app, c.payload, c.crc, calls);
    && Verdicts(e.out) == Verdicts(app.out) + [false]
    && Told(e.out) == Told(app.out) + COMPLETION
  }

  /** Exactly which chunks do that: one whose write fails, and one that makes up the announced length of an image
      that is made bootable although its CRC is not the announced one. */
  lemma ContradictsIff(app: App, c: Chunk, calls: Calls)
    ensures var s := SessionCount(app.esp, |c.payload|, c.crc);
            Contradicts(app, c, calls) <==> !calls.write || (ChunkBoots(s, calls) && s.crcAux != s.crcTotal)
  {
    var s := SessionCount(app.esp, |c.payload|, c.crc);
    AnyChunkReports(app, c, calls);
    ChunkTells(app, c, calls);
    SuffixIff(Verdicts(app.out), ChunkVerdict(s, calls), [false]);
    SuffixIff(Told(app.out), ChunkTold(s, calls), COMPLETION);
    assert |COMPLETION| == 2 && |[EspStatus(Fail)]| == 1;
  }

  lemma SuffixIff<T>(s: seq<T>, a: seq<T>, b: seq<T>)
    ensures s + a == s + b <==> a == b
  {
    assert (s + a)[|s|..] == a && (s + b)[|s|..] == b;
  }

  // ---------------------------------------------------------------- runs under any outcomes

  /** `ESPUpdate::processPkt` on each chunk in turn, with the outcomes of the calls it makes. */
  function RunWith(app: App, chunks: seq<Chunk>, outcomes: seq<Calls>): App
    requires |chunks| == |outcomes|
  {
    if chunks == [] then app
    else
      var n := |chunks| - 1;
      EspProcess(RunWith(app, chunks[..n], outcomes[..n]), chunks[n].payload, chunks[n].crc, outcomes[n])
  }

  /** The session counts every chunk, whatever the flash calls do. */
  lemma {:induction false} RunCounts(app: App, chunks: seq<Chunk>, outcomes: seq<Calls>)
    requires |chunks| == |outcomes| && app.esp.recvLen == 0 && Total(chunks) < WORD
    ensures var e := RunWith(app, chunks, outcomes).esp;
            e.recvLen == Total(chunks) && e.totalLen == app.esp.totalLen && e.crcTotal == app.esp.crcTotal
    decreases |chunks|
  {
    if chunks != [] {
      var n := |chunks| - 1;
      RunCounts(app, chunks[..n], outcomes[..n]);
      AnyChunkReports(RunWith(app, chunks[..n], outcomes[..n]), chunks[n], outcomes[n]);
    }
  }

  lemma {:induction false} PrefixTotal(chunks: seq<Chunk>, n: nat)
    requires n <= |chunks|
    ensures TotalTo(chunks, n) <= Total(chunks)
    decreases |chunks|
  {
    if n == |chunks| {
      assert chunks[..n] == chunks;
    } else {
      var last := |chunks| - 1;
      PrefixTotal(chunks[..last], n);
      assert chunks[..last][..n] == chunks[..n];
    }
  }

  lemma NextTotal(chunks: seq<Chunk>, i: nat)
    requires i < |chunks|
    ensures TotalTo(chunks, i + 1) == TotalTo(chunks, i) + |chunks[i].payload|
  {
    assert chunks[..i + 1][..i] == chunks[..i];
  }

  /** Chunk `i` of a run tells the app and the PIC opposite things. */
  predicate ContradictsAt(app: App, chunks: seq<Chunk>, outcomes: seq<Calls>, i: nat)
    requires |chunks| == |outcomes| && i < |chunks|
  {
    Contradicts(RunWith(app, chunks[..i], outcomes[..i]), chunks[i], outcomes[i])
  }

  /** The session once chunk `i` has been counted. */
  lemma SessionAt(app: App, chunks: seq<Chunk>, outcomes: seq<Calls>, i: nat)
    requires app.esp.recvLen == 0 && |chunks| == |outcomes| && i < |chunks| && Total(chunks) < WORD
    ensures var s := SessionCount(RunWith(app, chunks[..i], outcomes[..i]).esp, |chunks[i].payload|, chunks[i].crc);
            && s.recvLen == TotalTo(chunks, i + 1) && s.totalLen == app.esp.totalLen
            && s.crcAux == chunks[i].crc && s.crcTotal == app.esp.crcTotal
  {
    PrefixTotal(chunks, i);
    PrefixTotal(chunks, i + 1);
    NextTotal(chunks, i);
    RunCounts(app, chunks[..i], outcomes[..i]);
    assert Wrap(TotalTo(chunks, i + 1)) == TotalTo(chunks, i + 1);
  }

  /** Over any run after an accepted begin, exactly which chunks do: in terms of what is sent and of the flash
      calls alone. */
  lemma ContradictsAtIff(app: App, chunks: seq<Chunk>, outcomes: seq<Calls>, i: nat)
    requires JustStarted(app.esp) && |chunks| == |outcomes| && i < |chunks| && Total(chunks) < WORD
    ensures ContradictsAt(app, chunks, outcomes, i) <==>
            || !outcomes[i].write
            || (&& TotalTo(chunks, i + 1) == app.esp.totalLen && outcomes[i].end && outcomes[i].boot
                && chunks[i].crc != app.esp.crcTotal)
  {
    SessionAt(app, chunks, outcomes, i);
    ContradictsIff(RunWith(app, chunks[..i], outcomes[..i]), chunks[i], outcomes[i]);
  }

  // ---------------------------------------------------------------- completion

  /** What a run with announced length `goal` tells the PIC, and what it makes bootable. `image` is what flash
      held before, `was` and `now` what was and is to be booted. */
  ghost predicate Completed(chunks: seq<Chunk>, goal: nat, image: seq<bv8>, told: seq<Output>,
                            was: Option<seq<bv8>>, now: Option<seq<bv8>>) {
    && ((forall j | 0 <= j <= |chunks| :: TotalTo(chunks, j) != goal) ==> told == [] && now == was)
    && (forall j | 0 < j <= |chunks| && TotalTo(chunks, j) == goal ::
          told == COMPLETION && now == Some(image + Image(chunks[..j])))
  }

  lemma CompletedByLast(front: seq<Chunk>, last: Chunk, goal: nat, image: seq<bv8>, told: seq<Output>,
                        was: Option<seq<bv8>>, now: Option<seq<bv8>>)
    requires NonEmpty(front + [last]) && Total(front + [last]) == goal
    requires Completed(front, goal, image, told, was, now)
    ensures told == []
    ensures Completed(front + [last], goal, image, COMPLETION, was, Some(image + Image(front + [last])))
  {
    var chunks := front + [last];
    PrefixTotals(front, last);
    assert forall j | 0 <= j <= |front| :: TotalTo(front, j) != goal;
    assert chunks[..|chunks|] == chunks;
    assert forall j | 0 < j <= |chunks| && TotalTo(chunks, j) == goal :: j == |chunks|;
    assert TotalTo(chunks, |chunks|) == goal;
  }

  lemma CompletedAsBefore(front: seq<Chunk>, last: Chunk, goal: nat, image: seq<bv8>, told: seq<Output>,
                          was: Option<seq<bv8>>, now: Option<seq<bv8>>)
    requires NonEmpty(front + [last]) && Total(front + [last]) != goal
    requires Completed(front, goal, image, told, was, now)
    ensures Completed(front + [last], goal, image, told, was, now)
  {
    var chunks := front + [last];
    PrefixTotals(front, last);
    forall j | 0 < j <= |chunks| && TotalTo(chunks, j) == goal
      ensures told == COMPLETION && now == Some(image + Image(chunks[..j]))
    {
      assert j <= |front| && TotalTo(front, j) == goal;
      assert chunks[..j] == front[..j];
    }
    if forall j | 0 <= j <= |chunks| :: TotalTo(chunks, j) != goal {
      assert forall j | 0 <= j <= |front| :: TotalTo(front, j) == TotalTo(chunks, j) != goal;
    }
  }

  /** One more chunk of a run in which every flash call succeeds. */
  lemma CompletionStep(before: App, front: seq<Chunk>, middle: App, last: Chunk)
    requires NonEmpty(front + [last]) && Total(front + [last]) < WORD && Counted(before, front, middle)
    ensures var reached := Total(front + [last]) == before.esp.totalLen;
            var after := EspProcess(middle, last.payload, last.crc, ALL_WELL);
            && Told(after.out) == Told(middle.out) + (if reached then COMPLETION else [])
            && after.booting == if reached then Some(before.image + Image(front + [last])) else middle.booting
  {
    TotalSnoc(front, last);
    ChunkTells(middle, last, ALL_WELL);
    assert before.image + Image(front) + last.payload == before.image + Image(front + [last]);
  }

  /** What a run from `before` to `after` tells the PIC. */
  ghost predicate Tells(before: App, chunks: seq<Chunk>, after: App, told: seq<Output>) {
    && Told(after.out) == Told(before.out) + told
    && Completed(chunks, before.esp.totalLen, before.image, told, before.booting, after.booting)
  }

  lemma TellsStep(before: App, front: seq<Chunk>, middle: App, last: Chunk, earlier: seq<Output>)
    returns (told: seq<Output>)
    requires NonEmpty(front + [last]) && Total(front + [last]) < WORD && Counted(before, front, middle)
    requires Tells(before, front, middle, earlier)
    ensures Tells(before, front + [last], EspProcess(middle, last.payload, last.crc, ALL_WELL), told)
  {
    if Total(front + [last]) == before.esp.totalLen {
      told := TellsCompletion(before, front, middle, last, earlier);
    } else {
      told := TellsNothing(before, front, middle, last, earlier);
    }
  }

  lemma TellsCompletion(before: App, front: seq<Chunk>, middle: App, last: Chunk, earlier: seq<Output>)
    returns (told: seq<Output>)
    requires NonEmpty(front + [last]) && Total(front + [last]) < WORD && Counted(before, front, middle)
    requires Tells(before, front, middle, earlier) && Total(front + [last]) == before.esp.totalLen
    ensures Tells(before, front + [last], EspProcess(middle, last.payload, last.crc, ALL_WELL), told)
  {
    CompletionStep(before, front, middle, last);
    CompletedByLast(front, last, before.esp.totalLen, before.image, earlier, before.booting, middle.booting);
    told := COMPLETION;
    TellsAtEnd(before, front + [last], middle, EspProcess(middle, last.payload, last.crc, ALL_WELL));
  }

  /** The chunk that ends the run is the first to tell the PIC anything. */
  lemma TellsAtEnd(before: App, chunks: seq<Chunk>, middle: App, after: App)
    requires Told(middle.out) == Told(before.out) + [] && Told(after.out) == Told(middle.out) + COMPLETION
    requires after.booting == Some(before.image + Image(chunks))
    requires Completed(chunks, before.esp.totalLen, before.image, COMPLETION, before.booting, after.booting)
    ensures Tells(before, chunks, after, COMPLETION)
  {
  }

  lemma TellsNothing(before: App, front: seq<Chunk>, middle: App, last: Chunk, earlier: seq<Output>)
    returns (told: seq<Output>)
    requires NonEmpty(front + [last]) && Total(front + [last]) < WORD && Counted(before, front, middle)
    requires Tells(before, front, middle, earlier) && Total(front + [last]) != before.esp.totalLen
    ensures Tells(before, front + [last], EspProcess(middle, last.payload, last.crc, ALL_WELL), told)
  {
    CompletionStep(before, front, middle, last);
    CompletedAsBefore(front, last, before.esp.totalLen, before.image, earlier, before.booting, middle.booting);
    told := earlier;
  }

  /** With every flash call succeeding, a run tells the PIC nothing until the announced length is reached, and
      then completion and a reset, whatever the CRC; and from then on the image received is what will be booted. */
  lemma {:induction false} OneCompletion(app: App, chunks: seq<Chunk>) returns (told: seq<Output>)
    requires JustStarted(app.esp) && NonEmpty(chunks) && Total(chunks) < WORD
    ensures Tells(app, chunks, RunEsp(app, chunks), told)
    decreases |chunks|
  {
    if chunks == [] {
      told := [];
      assert TotalTo(chunks, 0) == 0;
    } else {
      var front, last := chunks[..|chunks| - 1], chunks[|chunks| - 1];
      assert chunks == front + [last];
      RunFront(front, last);
      var earlier := OneCompletion(app, front);
      RunIsAccounted(app, front);
      told := TellsStep(app, front, RunEsp(app, front), last, earlier);
    }
  }

  /** A run that reaches the announced length with another CRC: the app is told failure, the PIC completion, and
      the image will be booted. */
  lemma RejectedImageBoots(app: App, chunks: seq<Chunk>, j: nat)
    requires JustStarted(app.esp) && NonEmpty(chunks) && Total(chunks) < WORD
    requires 0 < j <= |chunks| && TotalTo(chunks, j) == app.esp.totalLen && chunks[j - 1].crc != app.esp.crcTotal
    ensures var e := RunEsp(app, chunks);
            && Verdicts(e.out) == Verdicts(app.out) + [false]
            && Told(e.out) == Told(app.out) + COMPLETION
            && e.booting == Some(app.image + Image(chunks[..j]))
  {
    var verdicts := OneVerdict(app, chunks);
    var told := OneCompletion(app, chunks);
  }

  // ---------------------------------------------------------------- a packet that is enough

  /** An ESP begin for two bytes with CRC zero. */
  const TWO_BYTES: seq<bv8> := [CMD_ESP_BEGIN, 0, 0, 0, 2, 0, 0, 0, 0, 0, 0, 0, 100, 0]

  const TWO_ZEROS: seq<bv8> := [0, 0]

  lemma TwoZerosCrc()
    ensures Crc16(TWO_ZEROS, SEED) != ZERO
  {
    ResidueIsZero([], 0, 0, SEED);
    assert [] + [0, 0] == TWO_ZEROS;
    assert (ByteBits(0) + ByteBits(0))[3] != SEED[3];
  }

  lemma TwoBytesBegin()
    ensures IsBegin(TWO_BYTES) && BeginTarget(TWO_BYTES) == Esp
    ensures ParseBegin(TWO_BYTES).fwLen == 2 && ParseBegin(TWO_BYTES).crc == ZERO
  {
    assert ByteBits(0) + ByteBits(0) == ZERO;
  }

  /** From power-on over BLE, with every call succeeding: two packets after which the app has been told failure
      and the PIC completion, and the two bytes received will be booted. */
  lemma RejectedImageExample(env: Environment)
    requires AllWell(env)
    ensures var h := BleEvent(env, BLE_FRESH, Arrives(TWO_BYTES));
            var e := BleEvent(env, h, Arrives([CMD_CHUNK] + TWO_ZEROS)).app;
            && Verdicts(e.out) == [false]
            && Told(e.out) == [EspStatus(Start)] + COMPLETION
            && e.booting == Some(TWO_ZEROS)
  {
    TwoBytesBegin();
    TwoZerosCrc();
    var h := BleEvent(env, BLE_FRESH, Arrives(TWO_BYTES));
    BegunTells();
    assert h.app == TwoBytesBegun();
    var crc := Crc16(TWO_ZEROS, SEED);
    BleChunk(env, h, TWO_ZEROS);
    ChunkTells(h.app, Chunk(TWO_ZEROS, crc), ALL_WELL);
    AnyChunkReports(h.app, Chunk(TWO_ZEROS, crc), ALL_WELL);
    assert [] + TWO_ZEROS == TWO_ZEROS;
  }

  /** The BLE device after that begin. */
  function TwoBytesBegun(): App {
    FreshApp(OTA_BURST_NUM_PKTS).(active := Some(Esp), esp := Session(true, 0, 2, 0, SEED, ZERO, OTA_BURST_NUM_PKTS),
                                  out := [BeginResult(Esp, 0), EspStatus(Start)])
  }

  lemma BegunTells()
    ensures Told(TwoBytesBegun().out) == [EspStatus(Start)] && Verdicts(TwoBytesBegun().out) == []
  {
    var out := TwoBytesBegun().out;
    assert out[..1] == [BeginResult(Esp, 0)] && out[..1][..0] == [];
  }
}
