/** What an update session has counted, written, acknowledged and reported after any run of chunks. */
module OtaAccounting {
  import opened Crc
  import opened Ota

  /** A chunk's payload, and the CRC the session holds once it has been counted. */
  datatype Chunk = Chunk(payload: seq<bv8>, crc: Register)

  /** Every flash call succeeds. */
  const ALL_WELL: Calls := Calls(true, true, true, true, true, true)

  /** `ESPUpdate::processPkt` on each chunk in turn. */
  function RunEsp(app: App, chunks: seq<Chunk>): App {
    if chunks == [] then app
    else
      var last := chunks[|chunks| - 1];
      EspProcess(RunEsp(app, chunks[..|chunks| - 1]), last.payload, last.crc, ALL_WELL)
  }

  function Total(chunks: seq<Chunk>): nat {
    if chunks == [] then 0 else Total(chunks[..|chunks| - 1]) + |chunks[|chunks| - 1].payload|
  }

  function Image(chunks: seq<Chunk>): seq<bv8> {
    if chunks == [] then [] else Image(chunks[..|chunks| - 1]) + chunks[|chunks| - 1].payload
  }

  /** The CRCs acknowledged, in order. */
  function Acks(out: seq<Output>): seq<Register> {
    if out == [] then []
    else
      var last := out[|out| - 1];
      Acks(out[..|out| - 1]) + if last.ChunkAck? then [last.crc] else []
  }

  /** The verdicts reported, in order. */
  function Verdicts(out: seq<Output>): seq<bool> {
    if out == [] then []
    else
      var last := out[|out| - 1];
      Verdicts(out[..|out| - 1]) + if last.Verdict? then [last.ok] else []
  }

  lemma SendReports(app: App, o: Output)
    ensures Acks(Send(app, o).out) == Acks(app.out) + if o.ChunkAck? then [o.crc] else []
    ensures Verdicts(Send(app, o).out) == Verdicts(app.out) + if o.Verdict? then [o.ok] else []
  {
    assert (app.out + [o])[..|app.out + [o]| - 1] == app.out;
  }

  // ---------------------------------------------------------------- one chunk

  lemma BaseReports(app: App, t: Target, n: nat, crc: Register)
    ensures var e := BaseProcess(app, t, n, crc);
            && Acks(e.out) == Acks(app.out) + (if BurstComplete(Get(app, t)) then [crc] else [])
            && Verdicts(e.out) == Verdicts(app.out)
  {
    SendReports(Put(app, t, SessionCount(Get(app, t), n, crc)), ChunkAck(crc));
  }

  /** `e` is `app` with one more chunk counted, written, and acknowledged or reported if due. */
  predicate ChunkCounted(app: App, c: Chunk, e: App) {
    var s := SessionCount(app.esp, |c.payload|, c.crc);
    && Acks(e.out) == Acks(app.out) + (if BurstComplete(app.esp) then [c.crc] else [])
    && Verdicts(e.out) == Verdicts(app.out) + (if s.recvLen == s.totalLen then [c.crc == s.crcTotal] else [])
    && e.esp == (if s.recvLen == s.totalLen then s.(inProgress := false) else s)
    && e.image == app.image + c.payload
  }

  /** The verdict of one chunk, if any: a failed write reports failure at once, and the chunk that makes up the
      announced length reports whether the update could be ended, the boot partition set, and the CRCs agree. */
  function ChunkVerdict(s: Session, calls: Calls): seq<bool> {
    if !calls.write then [false]
    else if s.recvLen == s.totalLen then [calls.end && calls.boot && s.crcAux == s.crcTotal]
    else []
  }

  lemma BaseFinishReports(app: App, success: bool)
    ensures var e := Ota.BaseFinish(app, Esp, success);
            && Acks(e.out) == Acks(app.out)
            && Verdicts(e.out) == Verdicts(app.out) + [success && app.esp.crcAux == app.esp.crcTotal]
            && e.esp == app.esp.(inProgress := false) && e.image == app.image
  {
    SendReports(app, Verdict(success && app.esp.crcAux == app.esp.crcTotal));
  }

  /** Other messages are neither acknowledgements nor verdicts. */
  lemma OtherReports(app: App, o: Output)
    requires !o.ChunkAck? && !o.Verdict?
    ensures var e := Send(app, o);
            && Acks(e.out) == Acks(app.out) && Verdicts(e.out) == Verdicts(app.out)
            && e.esp == app.esp && e.image == app.image
  {
    SendReports(app, o);
  }

  lemma AnyFinishReports(app: App, success: bool, calls: Calls)
    ensures var e := EspFinish(app, success, calls);
            && Acks(e.out) == Acks(app.out)
            && Verdicts(e.out) ==
                 Verdicts(app.out) + [success && calls.end && calls.boot && app.esp.crcAux == app.esp.crcTotal]
            && e.esp == app.esp.(inProgress := false) && e.image == app.image
  {
    if success && !(calls.end && calls.boot) {
      BaseFinishReports(app, false);
      OtherReports(Ota.BaseFinish(app, Esp, false), EspStatus(Fail));
    } else {
      var a := Send(app, EspStatus(Complete));
      OtherReports(app, EspStatus(Complete));
      BaseFinishReports(a, success);
      OtherReports(Ota.BaseFinish(a, Esp, success), RestartPic);
    }
  }

  lemma AnyWriteReports(app: App, payload: seq<bv8>, calls: Calls)
    ensures var e, verdict := EspWrite(app, payload, calls), ChunkVerdict(app.esp, calls);
            && Acks(e.out) == Acks(app.out)
            && Verdicts(e.out) == Verdicts(app.out) + verdict
            && e.esp == (if verdict != [] then app.esp.(inProgress := false) else app.esp)
            && e.image == app.image + if calls.write then payload else []
  {
    if !calls.write {
      AnyFinishReports(app, false, calls);
    } else if app.esp.recvLen == app.esp.totalLen {
      AnyFinishReports(app.(image := app.image + payload), true, calls);
    }
  }

  /** One chunk, whatever the flash calls do: bytes are counted and bursts acknowledged all the same, only a
      payload whose write succeeds joins the image, and the verdict closes the session. */
  lemma AnyChunkReports(app: App, c: Chunk, calls: Calls)
    ensures var e, s := EspProcess(app, c.payload, c.crc, calls), SessionCount(app.esp, |c.payload|, c.crc);
            && Acks(e.out) == Acks(app.out) + (if BurstComplete(app.esp) then [c.crc] else [])
            && Verdicts(e.out) == Verdicts(app.out) + ChunkVerdict(s, calls)
            && e.esp == (if ChunkVerdict(s, calls) != [] then s.(inProgress := false) else s)
            && e.image == app.image + if calls.write then c.payload else []
  {
    BaseReports(app, Esp, |c.payload|, c.crc);
    AnyWriteReports(BaseProcess(app, Esp, |c.payload|, c.crc), c.payload, calls);
  }

  /** One chunk, with every flash call succeeding. */
  lemma ChunkReports(app: App, c: Chunk)
    ensures ChunkCounted(app, c, EspProcess(app, c.payload, c.crc, ALL_WELL))
  {
    AnyChunkReports(app, c, ALL_WELL);
  }

  // ---------------------------------------------------------------- counting bursts

  /** One acknowledgement per full burst, carrying the CRC after the burst's last chunk; none if the burst
      length is zero. */
  function BurstAcks(chunks: seq<Chunk>, burst: nat): seq<Register>
    decreases |chunks|
  {
    if burst == 0 || |chunks| < burst then [] else [chunks[burst - 1].crc] + BurstAcks(chunks[burst..], burst)
  }

  /** What is left of `n` chunks after the full bursts. */
  function Rest(n: nat, burst: nat): nat {
    if burst == 0 || n < burst then n else Rest(n - burst, burst)
  }

  /** There are floor(n / burst) acknowledgements, and none for bursts of length zero. */
  lemma {:induction false} BurstAcksCount(chunks: seq<Chunk>, burst: nat)
    ensures |BurstAcks(chunks, burst)| * burst + Rest(|chunks|, burst) == |chunks|
    ensures if burst == 0 then BurstAcks(chunks, burst) == [] else Rest(|chunks|, burst) < burst
    decreases |chunks|
  {
    if 0 < burst <= |chunks| {
      BurstAcksCount(chunks[burst..], burst);
      var k := |BurstAcks(chunks[burst..], burst)|;
      assert (1 + k) * burst == burst + k * burst;
    }
  }

  /** Acknowledgement `k`, counted from 0, carries the CRC after chunk number (k + 1) * burst. */
  lemma {:induction false} BurstAckAt(chunks: seq<Chunk>, burst: nat, k: nat)
    requires k < |BurstAcks(chunks, burst)|
    ensures 0 < (k + 1) * burst <= |chunks|
    ensures BurstAcks(chunks, burst)[k] == chunks[(k + 1) * burst - 1].crc
    decreases k
  {
    assert (k + 1) * burst == k * burst + burst;
    if k > 0 {
      BurstAckAt(chunks[burst..], burst, k - 1);
    }
  }

  lemma {:induction false} RestSnoc(n: nat, burst: nat)
    ensures Rest(n + 1, burst) == if Rest(n, burst) + 1 == burst then 0 else Rest(n, burst) + 1
    ensures Rest(n, burst) <= n && (burst > 0 ==> Rest(n, burst) < burst)
    decreases n
  {
    if 0 < burst <= n {
      RestSnoc(n - burst, burst);
    }
  }

  /** The first burst, and what follows it. */
  lemma BurstUnfold(chunks: seq<Chunk>, burst: nat, c: Chunk, more: seq<Chunk>)
    requires 0 < burst <= |chunks| && chunks[burst - 1] == c && chunks[burst..] == more
    ensures BurstAcks(chunks, burst) == [c.crc] + BurstAcks(more, burst)
    ensures Rest(|chunks|, burst) == Rest(|more|, burst)
  {
  }

  lemma OnlyBurst(chunks: seq<Chunk>, last: Chunk, burst: nat)
    requires |chunks| + 1 == burst
    ensures BurstAcks(chunks + [last], burst) == [last.crc]
  {
    assert (chunks + [last])[burst..] == [];
  }

  /** One more chunk is acknowledged when it completes a burst. */
  lemma {:induction false} BurstSnoc(front: seq<Chunk>, last: Chunk, burst: nat)
    ensures BurstAcks(front + [last], burst) ==
            BurstAcks(front, burst) + if Rest(|front|, burst) + 1 == burst then [last.crc] else []
    decreases |front|
  {
    if 0 < burst <= |front| {
      BurstSnoc(front[burst..], last, burst);
      var first, more := front[burst - 1], front[burst..];
      BurstUnfold(front, burst, first, more);
      assert (front + [last])[burst..] == more + [last];
      BurstUnfold(front + [last], burst, first, more + [last]);
    } else if |front| + 1 == burst {
      OnlyBurst(front, last, burst);
    }
  }

  // ---------------------------------------------------------------- a whole run

  predicate NonEmpty(chunks: seq<Chunk>) {
    forall c | c in chunks :: c.payload != []
  }

  lemma {:induction false} TotalOfPrefix(chunks: seq<Chunk>, j: nat)
    requires j < |chunks| && NonEmpty(chunks)
    ensures Total(chunks[..j]) < Total(chunks)
    decreases |chunks|
  {
    var front, last := chunks[..|chunks| - 1], chunks[|chunks| - 1];
    assert last in chunks;
    assert forall c | c in front :: c in chunks;
    if j < |front| {
      TotalOfPrefix(front, j);
      assert front[..j] == chunks[..j];
    }
  }

  /** A session as an accepted begin leaves it. */
  predicate JustStarted(s: Session) {
    s.inProgress && s.recvLen == 0 && s.recvPkts == 0 && s.totalLen > 0 && s.burst < WORD
  }

  /** The state of the session after a run: every byte is counted and written, in order, and one
      acknowledgement has been sent per full burst. */
  ghost predicate Accounted(before: App, chunks: seq<Chunk>, after: App)
    requires JustStarted(before.esp)
  {
    Counted(before, chunks, after) && Acknowledged(before, chunks, after)
  }

  predicate Counted(before: App, chunks: seq<Chunk>, after: App) {
    var s, e := before.esp, after.esp;
    && e.recvLen == Total(chunks)
    && e.totalLen == s.totalLen && e.crcTotal == s.crcTotal && e.burst == s.burst
    && after.image == before.image + Image(chunks)
  }

  predicate Acknowledged(before: App, chunks: seq<Chunk>, after: App)
    requires JustStarted(before.esp)
  {
    && after.esp.recvPkts == Rest(|chunks|, before.esp.burst)
    && Acks(after.out) == Acks(before.out) + BurstAcks(chunks, before.esp.burst)
  }

  lemma TotalSnoc(front: seq<Chunk>, last: Chunk)
    ensures Total(front + [last]) == Total(front) + |last.payload|
    ensures Image(front + [last]) == Image(front) + last.payload
  {
    assert (front + [last])[..|front + [last]| - 1] == front;
  }

  /** No chunk is empty, so there are at most as many as bytes. */
  lemma {:induction false} AtLeastOneByteEach(chunks: seq<Chunk>)
    requires NonEmpty(chunks)
    ensures |chunks| <= Total(chunks)
    decreases |chunks|
  {
    if chunks != [] {
      var front, last := chunks[..|chunks| - 1], chunks[|chunks| - 1];
      assert last in chunks && forall c | c in front :: c in chunks;
      AtLeastOneByteEach(front);
    }
  }

  lemma CountedStep(before: App, front: seq<Chunk>, middle: App, last: Chunk, after: App)
    requires Total(front) + |last.payload| < WORD
    requires Counted(before, front, middle) && ChunkCounted(middle, last, after)
    ensures Counted(before, front + [last], after)
  {
    TotalSnoc(front, last);
  }

  lemma AcknowledgedStep(before: App, front: seq<Chunk>, middle: App, last: Chunk, after: App)
    requires JustStarted(before.esp) && middle.esp.burst == before.esp.burst && |front| + 1 < WORD
    requires Acknowledged(before, front, middle) && ChunkCounted(middle, last, after)
    ensures Acknowledged(before, front + [last], after)
  {
    BurstSnoc(front, last, before.esp.burst);
    RestSnoc(|front|, before.esp.burst);
    assert |front + [last]| == |front| + 1;
    assert Acks(after.out) == Acks(before.out) + (BurstAcks(front, before.esp.burst)
                                                  + if BurstComplete(middle.esp) then [last.crc] else []);
  }

  lemma AccountedStep(before: App, front: seq<Chunk>, middle: App, last: Chunk, after: App)
    requires JustStarted(before.esp) && |front| < Total(front) + |last.payload| < WORD
    requires Accounted(before, front, middle) && ChunkCounted(middle, last, after)
    ensures Accounted(before, front + [last], after)
  {
    CountedStep(before, front, middle, last, after);
    AcknowledgedStep(before, front, middle, last, after);
  }

  /** The part of a run before its last chunk. */
  lemma RunFront(front: seq<Chunk>, last: Chunk)
    requires NonEmpty(front + [last])
    ensures NonEmpty(front) && |front| <= Total(front)
    ensures Total(front) < Total(front + [last]) == Total(front) + |last.payload|
  {
    NonEmptySnoc(front, last);
    AtLeastOneByteEach(front);
    TotalSnoc(front, last);
  }

  lemma NonEmptySnoc(front: seq<Chunk>, last: Chunk)
    requires NonEmpty(front + [last])
    ensures NonEmpty(front) && last.payload != []
  {
    var chunks := front + [last];
    assert last in chunks && forall c | c in front :: c in chunks;
  }

  lemma {:induction false} RunIsAccounted(app: App, chunks: seq<Chunk>)
    requires JustStarted(app.esp) && NonEmpty(chunks) && Total(chunks) < WORD
    ensures Accounted(app, chunks, RunEsp(app, chunks))
    decreases |chunks|
  {
    if chunks != [] {
      var front, last := chunks[..|chunks| - 1], chunks[|chunks| - 1];
      assert chunks == front + [last];
      RunFront(front, last);
      RunIsAccounted(app, front);
      var middle := RunEsp(app, front);
      ChunkReports(middle, last);
      AccountedStep(app, front, middle, last, EspProcess(middle, last.payload, last.crc, ALL_WELL));
    }
  }

  function TotalTo(chunks: seq<Chunk>, j: nat): nat
    requires j <= |chunks|
  {
    Total(chunks[..j])
  }

  /** Whether and how a session with announced length `goal` and announced CRC `crc` has been closed: the
      chunk that makes up the announced length, and no other, closes it, with the verdict that the CRC of
      everything received equals the announced one. */
  ghost predicate Closed(chunks: seq<Chunk>, goal: nat, crc: Register, verdicts: seq<bool>, open: bool) {
    && ((forall j | 0 <= j <= |chunks| :: TotalTo(chunks, j) != goal) ==> verdicts == [] && open)
    && (forall j | 0 < j <= |chunks| && TotalTo(chunks, j) == goal ::
          verdicts == [chunks[j - 1].crc == crc] && !open)
  }

  /** The prefixes of a longer run are those of the shorter one, and all shorter in bytes. */
  lemma TotalsSnoc(front: seq<Chunk>, last: Chunk, j: nat)
    requires NonEmpty(front + [last]) && j <= |front|
    ensures TotalTo(front + [last], j) == TotalTo(front, j) < Total(front + [last])
  {
    assert (front + [last])[..j] == front[..j];
    TotalOfPrefix(front + [last], j);
  }

  lemma PrefixTotals(front: seq<Chunk>, last: Chunk)
    requires NonEmpty(front + [last])
    ensures var chunks := front + [last];
            && TotalTo(chunks, |chunks|) == Total(chunks)
            && forall j | 0 <= j <= |front| :: TotalTo(chunks, j) == TotalTo(front, j) < Total(chunks)
  {
    var chunks := front + [last];
    assert chunks[..|chunks|] == chunks;
    forall j | 0 <= j <= |front|
      ensures TotalTo(chunks, j) == TotalTo(front, j) < Total(chunks)
    {
      TotalsSnoc(front, last, j);
    }
  }

  /** The last chunk makes up the announced length. */
  lemma ClosedByLast(front: seq<Chunk>, last: Chunk, goal: nat, crc: Register, verdicts: seq<bool>, open: bool)
    requires NonEmpty(front + [last]) && Total(front + [last]) == goal
    requires Closed(front, goal, crc, verdicts, open)
    ensures verdicts == [] && Closed(front + [last], goal, crc, [last.crc == crc], false)
  {
    var chunks := front + [last];
    PrefixTotals(front, last);
    assert forall j | 0 <= j <= |front| :: TotalTo(front, j) != goal;
    forall j | 0 < j <= |chunks| && TotalTo(chunks, j) == goal
      ensures [last.crc == crc] == [chunks[j - 1].crc == crc]
    {
      assert j == |chunks|;
    }
    assert TotalTo(chunks, |chunks|) == goal;
  }

  /** It does not. */
  lemma ClosedAsBefore(front: seq<Chunk>, last: Chunk, goal: nat, crc: Register, verdicts: seq<bool>, open: bool)
    requires NonEmpty(front + [last]) && Total(front + [last]) != goal
    requires Closed(front, goal, crc, verdicts, open)
    ensures Closed(front + [last], goal, crc, verdicts, open)
  {
    var chunks := front + [last];
    PrefixTotals(front, last);
    forall j | 0 < j <= |chunks| && TotalTo(chunks, j) == goal
      ensures verdicts == [chunks[j - 1].crc == crc] && !open
    {
      assert j <= |front| && TotalTo(front, j) == goal;
    }
    if forall j | 0 <= j <= |chunks| :: TotalTo(chunks, j) != goal {
      assert forall j | 0 <= j <= |front| :: TotalTo(front, j) == TotalTo(chunks, j) != goal;
    }
  }

  lemma ClosedStep(front: seq<Chunk>, last: Chunk, goal: nat, crc: Register, verdicts: seq<bool>, open: bool)
    requires NonEmpty(front + [last])
    requires Closed(front, goal, crc, verdicts, open)
    ensures var reached := Total(front + [last]) == goal;
            Closed(front + [last], goal, crc, verdicts + (if reached then [last.crc == crc] else []), open && !reached)
  {
    if Total(front + [last]) == goal {
      ClosedByLast(front, last, goal, crc, verdicts, open);
      assert verdicts + [last.crc == crc] == [last.crc == crc];
    } else {
      ClosedAsBefore(front, last, goal, crc, verdicts, open);
      assert verdicts + [] == verdicts;
    }
  }

  lemma CountedVerdicts(before: App, front: seq<Chunk>, middle: App, last: Chunk, after: App)
    requires Total(front) + |last.payload| < WORD
    requires Counted(before, front, middle) && ChunkCounted(middle, last, after)
    ensures var reached := Total(front + [last]) == before.esp.totalLen;
            && Verdicts(after.out) == Verdicts(middle.out) + (if reached then [last.crc == before.esp.crcTotal] else [])
            && after.esp.inProgress == (middle.esp.inProgress && !reached)
  {
    TotalSnoc(front, last);
  }

  /** The verdicts of a run from `before` to `after`. */
  ghost predicate Reported(before: App, chunks: seq<Chunk>, after: App, verdicts: seq<bool>) {
    && Verdicts(after.out) == Verdicts(before.out) + verdicts
    && Closed(chunks, before.esp.totalLen, before.esp.crcTotal, verdicts, after.esp.inProgress)
  }

  lemma ReportedStep(before: App, front: seq<Chunk>, middle: App, last: Chunk, after: App, earlier: seq<bool>)
    returns (verdicts: seq<bool>)
    requires before.esp.totalLen > 0 && NonEmpty(front + [last]) && Total(front + [last]) < WORD
    requires Counted(before, front, middle) && ChunkCounted(middle, last, after)
    requires Reported(before, front, middle, earlier)
    ensures Reported(before, front + [last], after, verdicts)
  {
    RunFront(front, last);
    CountedVerdicts(before, front, middle, last, after);
    ClosedStep(front, last, before.esp.totalLen, before.esp.crcTotal, earlier, middle.esp.inProgress);
    var reached := Total(front + [last]) == before.esp.totalLen;
    verdicts := earlier + (if reached then [last.crc == before.esp.crcTotal] else []);
  }

  /** A run of chunks reports at most one verdict, exactly when the announced length is reached. */
  lemma {:induction false} OneVerdict(app: App, chunks: seq<Chunk>) returns (verdicts: seq<bool>)
    requires JustStarted(app.esp) && NonEmpty(chunks) && Total(chunks) < WORD
    ensures var e := RunEsp(app, chunks);
            && Verdicts(e.out) == Verdicts(app.out) + verdicts
            && Closed(chunks, app.esp.totalLen, app.esp.crcTotal, verdicts, e.esp.inProgress)
    decreases |chunks|
  {
    if chunks == [] {
      verdicts := [];
      assert TotalTo(chunks, 0) == 0;
    } else {
      var front, last := chunks[..|chunks| - 1], chunks[|chunks| - 1];
      assert chunks == front + [last];
      RunFront(front, last);
      var earlier := OneVerdict(app, front);
      RunIsAccounted(app, front);
      var middle := RunEsp(app, front);
      ChunkReports(middle, last);
      verdicts := ReportedStep(app, front, middle, last, EspProcess(middle, last.payload, last.crc, ALL_WELL), earlier);
    }
  }

  // ---------------------------------------------------------------- PIC update

  /** `PICUpdate::processPkt` on each chunk in turn. */
  function RunPic(app: App, chunks: seq<Chunk>): App {
    if chunks == [] then app
    else
      var last := chunks[|chunks| - 1];
      PicProcess(RunPic(app, chunks[..|chunks| - 1]), last.payload, last.crc)
  }

  /** The firmware bytes forwarded to the PIC, in order. */
  function Forwarded(out: seq<Output>): seq<bv8> {
    if out == [] then []
    else
      var last := out[|out| - 1];
      Forwarded(out[..|out| - 1]) + if last.ToPic? then last.payload else []
  }

  lemma SendForwards(app: App, o: Output)
    ensures Forwarded(Send(app, o).out) == Forwarded(app.out) + if o.ToPic? then o.payload else []
  {
    assert (app.out + [o])[..|app.out + [o]| - 1] == app.out;
  }

  /** `e` is `app` with one more chunk of a PIC update forwarded, counted, and acknowledged if due. */
  predicate PicCounted(app: App, c: Chunk, e: App) {
    && e.pic == SessionCount(app.pic, |c.payload|, c.crc)
    && Acks(e.out) == Acks(app.out) + (if BurstComplete(app.pic) then [c.crc] else [])
    && Verdicts(e.out) == Verdicts(app.out)
    && Forwarded(e.out) == Forwarded(app.out) + c.payload
  }

  lemma PicChunkReports(app: App, c: Chunk)
    ensures PicCounted(app, c, PicProcess(app, c.payload, c.crc))
  {
    var a := Send(app, ToPic(c.payload));
    SendReports(app, ToPic(c.payload));
    SendForwards(app, ToPic(c.payload));
    BaseReports(a, Pic, |c.payload|, c.crc);
    SendForwards(Put(a, Pic, SessionCount(a.pic, |c.payload|, c.crc)), ChunkAck(c.crc));
  }

  /** The state of the PIC session after a run: every byte is counted and forwarded, in order, one
      acknowledgement has been sent per full burst, and no verdict: that is left to the PIC's report. */
  ghost predicate PicAccounted(before: App, chunks: seq<Chunk>, after: App) {
    PicSession(before.pic, chunks, after.pic) && PicSent(before, chunks, after)
  }

  predicate PicSession(s: Session, chunks: seq<Chunk>, e: Session) {
    && e.recvLen == Total(chunks) && e.recvPkts == Rest(|chunks|, s.burst)
    && e.totalLen == s.totalLen && e.crcTotal == s.crcTotal && e.burst == s.burst && e.inProgress == s.inProgress
  }

  predicate PicSent(before: App, chunks: seq<Chunk>, after: App) {
    && Acks(after.out) == Acks(before.out) + BurstAcks(chunks, before.pic.burst)
    && Verdicts(after.out) == Verdicts(before.out)
    && Forwarded(after.out) == Forwarded(before.out) + Image(chunks)
  }

  /** Counting a chunk while the counters do not wrap. */
  lemma CountsOne(s: Session, n: nat, crc: Register)
    requires s.recvLen + n < WORD && s.recvPkts + 1 < WORD
    ensures var e := SessionCount(s, n, crc);
            && e.recvLen == s.recvLen + n
            && e.recvPkts == (if s.recvPkts + 1 == s.burst then 0 else s.recvPkts + 1)
            && e.totalLen == s.totalLen && e.crcTotal == s.crcTotal
            && e.burst == s.burst && e.inProgress == s.inProgress
  {
    assert Wrap(s.recvLen + n) == s.recvLen + n && Wrap(s.recvPkts + 1) == s.recvPkts + 1;
  }

  lemma PicSessionStep(s: Session, front: seq<Chunk>, middle: Session, last: Chunk)
    requires |front| < Total(front) + |last.payload| < WORD && PicSession(s, front, middle)
    ensures PicSession(s, front + [last], SessionCount(middle, |last.payload|, last.crc))
  {
    TotalSnoc(front, last);
    RestSnoc(|front|, s.burst);
    CountsOne(middle, |last.payload|, last.crc);
    assert |front + [last]| == |front| + 1;
  }

  lemma PicSentStep(before: App, front: seq<Chunk>, middle: App, last: Chunk, after: App)
    requires |front| + 1 < WORD && PicSession(before.pic, front, middle.pic)
    requires PicSent(before, front, middle) && PicCounted(middle, last, after)
    ensures PicSent(before, front + [last], after)
  {
    var burst := before.pic.burst;
    TotalSnoc(front, last);
    BurstSnoc(front, last, burst);
    RestSnoc(|front|, burst);
    var ack := if BurstComplete(middle.pic) then [last.crc] else [];
    AppendAssociates(Acks(before.out), BurstAcks(front, burst), ack);
    AppendAssociates(Forwarded(before.out), Image(front), last.payload);
  }

  lemma AppendAssociates<T>(a: seq<T>, b: seq<T>, c: seq<T>)
    ensures a + b + c == a + (b + c)
  {
  }

  lemma {:induction false} PicRunIsAccounted(app: App, chunks: seq<Chunk>)
    requires JustStarted(app.pic) && NonEmpty(chunks) && Total(chunks) < WORD
    ensures PicAccounted(app, chunks, RunPic(app, chunks))
    decreases |chunks|
  {
    if chunks != [] {
      var front, last := chunks[..|chunks| - 1], chunks[|chunks| - 1];
      assert chunks == front + [last];
      RunFront(front, last);
      PicRunIsAccounted(app, front);
      var middle := RunPic(app, front);
      PicChunkReports(middle, last);
      PicSessionStep(app.pic, front, middle.pic, last);
      PicSentStep(app, front, middle, last, PicProcess(middle, last.payload, last.crc));
    }
  }
}
