/** A whole firmware update over Bluetooth Classic: from framed bytes, cut into calls anywhere, to the image in
flash, the acknowledged CRCs and the verdict. */
module OtaDelivery {
  import opened Crc
  import opened Framing
  import opened FramingRuns
  import opened Options
  import opened Ota
  import opened OtaAccounting
  import opened OtaAgreement

  function Concat(payloads: seq<seq<bv8>>): seq<bv8> {
    if payloads == [] then [] else Concat(payloads[..|payloads| - 1]) + payloads[|payloads| - 1]
  }

  /** Each payload with the CRC of everything up to and including it. */
  function WithCrcs(payloads: seq<seq<bv8>>): (chunks: seq<Chunk>)
    ensures |chunks| == |payloads|
  {
    if payloads == [] then []
    else WithCrcs(payloads[..|payloads| - 1]) + [Chunk(payloads[|payloads| - 1], Crc16(Concat(payloads), SEED))]
  }

  function ChunkPackets(payloads: seq<seq<bv8>>): (pkts: seq<seq<bv8>>)
    ensures |pkts| == |payloads|
  {
    seq(|payloads|, i requires 0 <= i < |payloads| => [CMD_CHUNK] + payloads[i])
  }

  /** Every call succeeds, every time. */
  ghost predicate AllWell(env: Environment) {
    forall n: nat :: env(n) == ALL_WELL
  }

  lemma FrontWithCrcs(payloads: seq<seq<bv8>>)
    requires payloads != []
    ensures WithCrcs(payloads)[..|payloads| - 1] == WithCrcs(payloads[..|payloads| - 1])
  {
  }

  lemma {:induction false} PayloadKept(payloads: seq<seq<bv8>>, i: nat)
    requires i < |payloads|
    ensures WithCrcs(payloads)[i].payload == payloads[i]
    decreases |payloads|
  {
    var last := |payloads| - 1;
    if i < last {
      PayloadKept(payloads[..last], i);
      FrontWithCrcs(payloads);
      assert WithCrcs(payloads)[i] == WithCrcs(payloads)[..last][i];
    }
  }

  lemma {:induction false} ImageIsConcat(payloads: seq<seq<bv8>>)
    ensures Image(WithCrcs(payloads)) == Concat(payloads)
    ensures Total(WithCrcs(payloads)) == |Concat(payloads)|
    decreases |payloads|
  {
    if payloads != [] {
      ImageIsConcat(payloads[..|payloads| - 1]);
      FrontWithCrcs(payloads);
    }
  }

  lemma PrefixOfPrefix<T>(s: seq<T>, m: nat, n: nat)
    requires n <= m <= |s|
    ensures s[..m][..n] == s[..n]
  {
  }

  lemma {:induction false} PrefixWithCrcs(payloads: seq<seq<bv8>>, n: nat)
    requires n <= |payloads|
    ensures WithCrcs(payloads)[..n] == WithCrcs(payloads[..n])
    decreases |payloads|
  {
    var last := |payloads| - 1;
    if n == |payloads| {
      assert payloads[..n] == payloads;
      assert WithCrcs(payloads)[..n] == WithCrcs(payloads);
    } else {
      PrefixWithCrcs(payloads[..last], n);
      FrontWithCrcs(payloads);
      PrefixOfPrefix(payloads, last, n);
      PrefixOfPrefix(WithCrcs(payloads), last, n);
    }
  }

  /** The CRC of chunk `i` is the CRC of the first i + 1 payloads. */
  lemma CrcOfChunk(payloads: seq<seq<bv8>>, i: nat)
    requires i < |payloads|
    ensures WithCrcs(payloads)[i] == Chunk(payloads[i], Crc16(Concat(payloads[..i + 1]), SEED))
  {
    PrefixWithCrcs(payloads, i + 1);
    LastWithCrc(payloads[..i + 1]);
    LastOfPrefix(WithCrcs(payloads), i);
    LastOfPrefix(payloads, i);
  }

  lemma LastWithCrc(payloads: seq<seq<bv8>>)
    requires payloads != []
    ensures WithCrcs(payloads)[|payloads| - 1] == Chunk(payloads[|payloads| - 1], Crc16(Concat(payloads), SEED))
  {
  }

  lemma LastOfPrefix<T>(s: seq<T>, i: nat)
    requires i < |s|
    ensures s[..i + 1][i] == s[i]
  {
  }

  lemma ConcatCrc(payloads: seq<seq<bv8>>)
    requires payloads != []
    ensures Crc16(Concat(payloads), SEED) ==
            Crc16(payloads[|payloads| - 1], Crc16(Concat(payloads[..|payloads| - 1]), SEED))
  {
    CrcConcat(Concat(payloads[..|payloads| - 1]), payloads[|payloads| - 1], SEED);
  }

  // ---------------------------------------------------------------- over Bluetooth Classic

  lemma BtcChunk(env: Environment, h: Host, payload: seq<bv8>, crc: Register)
    requires h.app.active == Some(Esp)
    ensures BtcHandle(env, h, crc, [CMD_CHUNK] + payload) ==
            (Host(EspProcess(h.app, payload, crc, env(h.handled)), h.handled + 1), crc)
  {
    assert ([CMD_CHUNK] + payload)[1..] == payload;
  }

  lemma KeepsActive(app: App, c: Chunk)
    ensures EspProcess(app, c.payload, c.crc, ALL_WELL).active == app.active
  {
  }

  lemma DeliverAllSnoc<A, C>(hooks: Hooks<A, C>, d: Link<A, C>, front: seq<seq<bv8>>, last: seq<bv8>)
    ensures var e := DeliverAll(hooks, d, front);
            DeliverAll(hooks, d, front + [last]) == Deliver(hooks, e.(crc := ChunkCrc(hooks.step, e.crc, last)), last)
  {
    assert (front + [last])[..|front + [last]| - 1] == front;
  }

  /** One delivered chunk. */
  lemma DeliverChunk(env: Environment, d: Link<Host, Register>, payload: seq<bv8>)
    requires AllWell(env) && d.app.app.active == Some(Esp)
    ensures var pkt, crc := [CMD_CHUNK] + payload, Crc16(payload, d.crc);
            var e := Deliver(BtcHooks(env), d.(crc := ChunkCrc(CrcStep, d.crc, pkt)), pkt);
            e.app.app == EspProcess(d.app.app, payload, crc, ALL_WELL) && e.app.app.active == Some(Esp) && e.crc == crc
  {
    var pkt, crc := [CMD_CHUNK] + payload, Crc16(payload, d.crc);
    assert pkt[1..] == payload;
    FoldIsCrc(d.crc, payload);
    BtcChunk(env, d.app, payload, crc);
    KeepsActive(d.app.app, Chunk(payload, crc));
  }

  /** A run over one more payload. */
  lemma RunSnoc(app: App, payloads: seq<seq<bv8>>)
    requires payloads != []
    ensures var front := payloads[..|payloads| - 1];
            RunEsp(app, WithCrcs(payloads)) ==
            EspProcess(RunEsp(app, WithCrcs(front)), payloads[|payloads| - 1], Crc16(Concat(payloads), SEED), ALL_WELL)
  {
    var front := payloads[..|payloads| - 1];
    assert WithCrcs(payloads)[..|payloads| - 1] == WithCrcs(front);
  }

  // ---------------------------------------------------------------- the streaming CRC

  /** What the decoder's CRC covers: the chunk payloads since the last packet that opened a session, from the seed
      that packet set, or from wherever the CRC stood if there was none. */
  datatype Streamed = Streamed(start: Register, bytes: seq<bv8>)
  {
    function Crc(): Register {
      Crc16(bytes, start)
    }
  }

  function NextStreamed(app: App, s: Streamed, pkt: seq<bv8>): Streamed {
    if OpensSession(app, pkt) then Streamed(SEED, [])
    else if Command(pkt) == CMD_CHUNK then Streamed(s.start, s.bytes + pkt[1..])
    else s
  }

  function StreamedBy(env: Environment, d: Link<Host, Register>, pkts: seq<seq<bv8>>): Streamed {
    if pkts == [] then Streamed(d.crc, [])
    else
      var front, last := pkts[..|pkts| - 1], pkts[|pkts| - 1];
      NextStreamed(DeliverAll(BtcHooks(env), d, front).app.app, StreamedBy(env, d, front), last)
  }

  /** What the parser sees when it is called with a packet: a chunk's payload is already folded in. */
  lemma CrcAtCallback(s: Streamed, crc: Register, pkt: seq<bv8>)
    requires crc == s.Crc()
    ensures ChunkCrc(CrcStep, crc, pkt) ==
            if Command(pkt) == CMD_CHUNK then Crc16(s.bytes + pkt[1..], s.start) else crc
  {
    if Command(pkt) == CMD_CHUNK {
      FoldIsCrc(crc, pkt[1..]);
      CrcConcat(s.bytes, pkt[1..], s.start);
    }
  }

  lemma EmptyCrc(seed: Register)
    ensures Crc16([], seed) == seed
  {
  }

  lemma NextStreamCrc(env: Environment, d: Link<Host, Register>, s: Streamed, pkt: seq<bv8>)
    requires d.crc == s.Crc()
    ensures Deliver(BtcHooks(env), d.(crc := ChunkCrc(CrcStep, d.crc, pkt)), pkt).crc ==
            NextStreamed(d.app.app, s, pkt).Crc()
  {
    CrcAtCallback(s, d.crc, pkt);
    EmptyCrc(SEED);
  }

  /** Whatever packets are delivered, with begins accepted or refused, chunks for either update or for none,
      aborts, unknown commands and failing calls among them: the decoder's CRC is exactly the CRC of all chunk
      payload bytes since it was last reset. */
  lemma {:induction false} StreamCrc(env: Environment, d: Link<Host, Register>, pkts: seq<seq<bv8>>)
    ensures DeliverAll(BtcHooks(env), d, pkts).crc == StreamedBy(env, d, pkts).Crc()
    decreases |pkts|
  {
    if pkts == [] {
      EmptyCrc(d.crc);
    } else {
      var front, last := pkts[..|pkts| - 1], pkts[|pkts| - 1];
      StreamCrc(env, d, front);
      NextStreamCrc(env, DeliverAll(BtcHooks(env), d, front), StreamedBy(env, d, front), last);
    }
  }

  /** The same from framed bytes, cut into calls anywhere; and what the parser sees at a further chunk. */
  lemma StreamCrcOfBytes(env: Environment, d: Link<Host, Register>, pkts: seq<seq<bv8>>, calls: seq<seq<bv8>>,
                         payload: seq<bv8>)
    requires Idle(d) && AllFit(pkts) && Join(calls) == Frames(pkts)
    ensures var e, s := FeedCalls(BtcHooks(env), d, calls), StreamedBy(env, d, pkts);
            && e.crc == s.Crc()
            && ChunkCrc(CrcStep, e.crc, [CMD_CHUNK] + payload) == Crc16(s.bytes + payload, s.start)
  {
    RoundTrip(BtcHooks(env), d, pkts, calls);
    StreamCrc(env, d, pkts);
    CrcAtCallback(StreamedBy(env, d, pkts), StreamedBy(env, d, pkts).Crc(), [CMD_CHUNK] + payload);
    assert ([CMD_CHUNK] + payload)[1..] == payload;
  }

  lemma ChunkPacketsSnoc(payloads: seq<seq<bv8>>)
    requires payloads != []
    ensures var n := |payloads| - 1;
            ChunkPackets(payloads) == ChunkPackets(payloads[..n]) + [[CMD_CHUNK] + payloads[n]]
  {
  }

  lemma {:induction false} ChunksStreamed(env: Environment, d: Link<Host, Register>, payloads: seq<seq<bv8>>)
    ensures StreamedBy(env, d, ChunkPackets(payloads)) == Streamed(d.crc, Concat(payloads))
    decreases |payloads|
  {
    if payloads == [] {
      assert ChunkPackets(payloads) == [];
    } else {
      var n := |payloads| - 1;
      var pkts, pkt := ChunkPackets(payloads), [CMD_CHUNK] + payloads[n];
      ChunksStreamed(env, d, payloads[..n]);
      ChunkPacketsSnoc(payloads);
      assert pkts[..|pkts| - 1] == ChunkPackets(payloads[..n]) && pkts[|pkts| - 1] == pkt;
      assert pkt[1..] == payloads[n];
    }
  }

  /** What the accumulator holds after nothing but chunks. */
  lemma ChunksCrc(env: Environment, d: Link<Host, Register>, payloads: seq<seq<bv8>>)
    ensures DeliverAll(BtcHooks(env), d, ChunkPackets(payloads)).crc == Crc16(Concat(payloads), d.crc)
  {
    StreamCrc(env, d, ChunkPackets(payloads));
    ChunksStreamed(env, d, payloads);
  }

  /** Chunk packets delivered one after the other run the session over the payloads, each with the CRC of
      everything so far. */
  lemma {:induction false} BtcChunks(env: Environment, d: Link<Host, Register>, payloads: seq<seq<bv8>>)
    requires AllWell(env) && d.crc == SEED && d.app.app.active == Some(Esp)
    ensures var e := DeliverAll(BtcHooks(env), d, ChunkPackets(payloads));
            && e.app.app == RunEsp(d.app.app, WithCrcs(payloads))
            && e.app.app.active == Some(Esp)
            && e.crc == Crc16(Concat(payloads), SEED)
    decreases |payloads|
  {
    ChunksCrc(env, d, payloads);
    if payloads == [] {
      assert ChunkPackets(payloads) == [];
    } else {
      var n := |payloads| - 1;
      var front, last := payloads[..n], payloads[n];
      BtcChunks(env, d, front);
      ChunkPacketsSnoc(payloads);
      DeliverAllSnoc(BtcHooks(env), d, ChunkPackets(front), [CMD_CHUNK] + last);
      DeliverChunk(env, DeliverAll(BtcHooks(env), d, ChunkPackets(front)), last);
      ConcatCrc(payloads);
      RunSnoc(d.app.app, payloads);
    }
  }

  // ---------------------------------------------------------------- over Bluetooth Low Energy

  function ChunkEvents(payloads: seq<seq<bv8>>): (events: seq<Event>)
    ensures |events| == |payloads|
  {
    seq(|payloads|, i requires 0 <= i < |payloads| => Arrives([CMD_CHUNK] + payloads[i]))
  }

  lemma BleChunk(env: Environment, h: Host, payload: seq<bv8>)
    requires h.app.active == Some(Esp)
    ensures BleEvent(env, h, Arrives([CMD_CHUNK] + payload)) ==
            Host(EspProcess(h.app, payload, Crc16(payload, h.app.esp.crcAux), env(h.handled)), h.handled + 1)
  {
    assert ([CMD_CHUNK] + payload)[1..] == payload;
  }

  lemma StoresCrc(app: App, payload: seq<bv8>, crc: Register)
    ensures EspProcess(app, payload, crc, ALL_WELL).esp.crcAux == crc
  {
  }

  /** The same chunks over BLE run the same session. */
  lemma {:induction false} BleChunks(env: Environment, h: Host, payloads: seq<seq<bv8>>)
    requires AllWell(env) && h.app.esp.crcAux == SEED && h.app.active == Some(Esp)
    ensures var e := BleRun(env, h, ChunkEvents(payloads));
            && e.app == RunEsp(h.app, WithCrcs(payloads))
            && e.app.active == Some(Esp)
            && e.app.esp.crcAux == Crc16(Concat(payloads), SEED)
    decreases |payloads|
  {
    if payloads == [] {
      assert ChunkEvents(payloads) == [];
    } else {
      var n := |payloads| - 1;
      var front, last := payloads[..n], payloads[n];
      BleChunks(env, h, front);
      var e := BleRun(env, h, ChunkEvents(front));
      assert ChunkEvents(payloads)[..n] == ChunkEvents(front);
      ConcatCrc(payloads);
      var crc := Crc16(Concat(payloads), SEED);
      BleChunk(env, e, last);
      KeepsActive(e.app, Chunk(last, crc));
      StoresCrc(e.app, last, crc);
      RunSnoc(h.app, payloads);
    }
  }

  // ---------------------------------------------------------------- end to end

  lemma BeginOpens(env: Environment, h: Host, crc: Register, begin: seq<bv8>)
    requires AllWell(env)
    requires IsBegin(begin) && BeginTarget(begin).Esp? && OpensSession(h.app, begin)
    ensures var (e, after) := BtcHandle(env, h, crc, begin);
            var info := ParseBegin(begin);
            && after == SEED
            && e.app.active == Some(Esp)
            && e.app.esp == Session(true, 0, info.fwLen, 0, SEED, info.crc, info.burst)
            && e.app.image == []
            && Acks(e.app.out) == Acks(h.app.out) && Verdicts(e.app.out) == Verdicts(h.app.out)
  {
    var a := h.app.(esp := SessionStart(h.app.esp, ParseBegin(begin)), image := []);
    SendReports(a, BeginResult(Esp, 0));
    SendReports(Send(a, BeginResult(Esp, 0)), EspStatus(Start));
  }

  lemma {:induction false} DeliverAllFront<A, C>(hooks: Hooks<A, C>, d: Link<A, C>, first: seq<bv8>,
                                                 rest: seq<seq<bv8>>)
    ensures var e := Deliver(hooks, d.(crc := ChunkCrc(hooks.step, d.crc, first)), first);
            DeliverAll(hooks, d, [first] + rest) == DeliverAll(hooks, e, rest)
    decreases |rest|
  {
    if rest == [] {
      assert [first] + rest == [] + [first];
      DeliverAllSnoc(hooks, d, [], first);
    } else {
      var front, last := rest[..|rest| - 1], rest[|rest| - 1];
      DeliverAllFront(hooks, d, first, front);
      assert [first] + rest == ([first] + front) + [last];
      DeliverAllSnoc(hooks, d, [first] + front, last);
    }
  }

  /** A begin packet that opens an ESP update, followed by chunks of 1 to 997 bytes, framed, and fed to an
      idle decoder in calls cut anywhere, with every flash call succeeding: the image is the concatenation
      of the chunks; acknowledgements are sent once per burst, each with the CRC of everything received so
      far; and the one verdict is sent when the announced length is reached, and says whether the CRC of
      the image is the announced one. */
  lemma UpdateEndToEnd(env: Environment, d: Link<Host, Register>, begin: seq<bv8>, payloads: seq<seq<bv8>>,
                       calls: seq<seq<bv8>>) returns (verdicts: seq<bool>)
    requires Idle(d) && AllWell(env)
    requires IsBegin(begin) && BeginTarget(begin).Esp? && OpensSession(d.app.app, begin)
    requires forall p | p in payloads :: 0 < |p| <= MAX_ALLOWED - 3
    requires |Concat(payloads)| < WORD
    requires Join(calls) == Frames([begin] + ChunkPackets(payloads))
    ensures var info, e := ParseBegin(begin), FeedCalls(BtcHooks(env), d, calls);
            && Idle(e)
            && e.app.app.image == Concat(payloads)
            && e.app.app.esp.recvLen == |Concat(payloads)|
            && e.crc == Crc16(Concat(payloads), SEED)
            && Acks(e.app.app.out) == Acks(d.app.app.out) + BurstAcks(WithCrcs(payloads), info.burst)
            && Verdicts(e.app.app.out) == Verdicts(d.app.app.out) + verdicts
            && Closed(WithCrcs(payloads), info.fwLen, info.crc, verdicts, e.app.app.esp.inProgress)
  {
    var hooks, pkts := BtcHooks(env), ChunkPackets(payloads);
    PacketsFit(begin, payloads);
    RoundTrip(hooks, d, [begin] + pkts, calls);
    DeliverAllFront(hooks, d, begin, pkts);
    BeginOpens(env, d.app, d.crc, begin);
    var started := Deliver(hooks, d.(crc := ChunkCrc(hooks.step, d.crc, begin)), begin);
    BtcChunks(env, started, payloads);
    ImageIsConcat(payloads);
    ChunksNonEmpty(payloads);
    RunIsAccounted(started.app.app, WithCrcs(payloads));
    verdicts := OneVerdict(started.app.app, WithCrcs(payloads));
  }

  lemma PacketsFit(begin: seq<bv8>, payloads: seq<seq<bv8>>)
    requires |begin| == BEGIN_LENGTH && forall p | p in payloads :: 0 < |p| <= MAX_ALLOWED - 3
    ensures AllFit([begin] + ChunkPackets(payloads))
  {
    var pkts := ChunkPackets(payloads);
    forall p | p in [begin] + pkts
      ensures |p| <= MAX_ALLOWED - 2
    {
      if p != begin {
        var i :| 0 <= i < |pkts| && pkts[i] == p;
        assert payloads[i] in payloads;
      }
    }
  }

  lemma ChunksNonEmpty(payloads: seq<seq<bv8>>)
    requires forall p | p in payloads :: 0 < |p| <= MAX_ALLOWED - 3
    ensures NonEmpty(WithCrcs(payloads))
  {
    forall c | c in WithCrcs(payloads)
      ensures c.payload != []
    {
      var i :| 0 <= i < |payloads| && WithCrcs(payloads)[i] == c;
      PayloadKept(payloads, i);
      assert payloads[i] in payloads;
    }
  }
}
