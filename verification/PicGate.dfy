/** The transmit side of the PIC link: main/comms/pic/Picman.cpp (`send`, `startBootloader`) and the transmit
half of PicStream's loop. While the PIC runs its bootloader, what reaches the UART must be firmware only, in
the order it was accepted. */
module PicGate {

  /** The size of the transmit queue. */
  const QUEUE_SIZE: nat := 20

  type Bytes = seq<bv8>

  /** A packet: an NMEA message or a piece of firmware. */
  datatype Item = Nmea(bytes: Bytes) | Firmware(bytes: Bytes)

  /** `wire` is what has been written to the UART, packet by packet. */
  datatype Gate = Gate(bootloader: bool, queue: seq<Item>, wire: seq<Item>)

  /** The ways code outside reaches the link: the three `send` overloads, the bootloader switch, and one turn of
      the stream task, which writes at most one queued packet. */
  datatype Event =
    | SendNmea(bytes: Bytes)
    | SendOta(payload: Bytes)
    | SendDirect(payload: Bytes)
    | StartBootloader(start: bool)
    | Pump

  function Add(g: Gate, item: Item): Gate {
    if |g.queue| < QUEUE_SIZE then g.(queue := g.queue + [item]) else g
  }

  function Step(g: Gate, e: Event): Gate {
    match e
    case SendNmea(bytes) => if g.bootloader then g else Add(g, Nmea(bytes))
    case SendOta(payload) => Add(g, Firmware(payload))
    case SendDirect(payload) => g.(wire := g.wire + [Firmware(payload)])
    case StartBootloader(start) => if start then g.(bootloader := true, queue := []) else g.(bootloader := false)
    case Pump => if g.queue == [] then g else g.(queue := g.queue[1..], wire := g.wire + [g.queue[0]])
  }

  function Run(g: Gate, events: seq<Event>): Gate {
    if events == [] then g else Step(Run(g, events[..|events| - 1]), events[|events| - 1])
  }

  /** The packets accepted by an event in state `g`: a full queue drops the packet, and the gate an NMEA one. */
  function Taken(g: Gate, e: Event): seq<Item> {
    match e
    case SendNmea(bytes) => if !g.bootloader && |g.queue| < QUEUE_SIZE then [Nmea(bytes)] else []
    case SendOta(payload) => if |g.queue| < QUEUE_SIZE then [Firmware(payload)] else []
    case SendDirect(payload) => [Firmware(payload)]
    case _ => []
  }

  function Accepted(g: Gate, events: seq<Event>): seq<Item> {
    if events == [] then []
    else
      var front := events[..|events| - 1];
      Accepted(g, front) + Taken(Run(g, front), events[|events| - 1])
  }

  lemma RunSnoc(g: Gate, events: seq<Event>, i: nat)
    requires i < |events|
    ensures Run(g, events[..i + 1]) == Step(Run(g, events[..i]), events[i])
    ensures Accepted(g, events[..i + 1]) == Accepted(g, events[..i]) + Taken(Run(g, events[..i]), events[i])
  {
    assert events[..i + 1][..i] == events[..i];
  }

  // ---------------------------------------------------------------- the order of packets

  /** What has been written, followed by what is queued. */
  function Line(g: Gate): seq<Item> {
    g.wire + g.queue
  }

  predicate AllAre(queue: seq<Item>, item: Item) {
    forall q | q in queue :: q == item
  }

  /** An item can go before or after a queue alike exactly when the queue holds nothing but that item. */
  lemma {:induction false} CommutesIff(item: Item, queue: seq<Item>)
    ensures [item] + queue == queue + [item] <==> AllAre(queue, item)
    decreases |queue|
  {
    if queue != [] {
      var rest := queue[1..];
      assert queue == [queue[0]] + rest;
      CommutesIff(item, rest);
      if [item] + queue == queue + [item] {
        assert ([item] + queue)[0] == item;
        assert ([item] + queue)[1..] == queue && (queue + [item])[1..] == rest + [item];
      }
      if AllAre(queue, item) {
        assert queue[0] in queue && forall q | q in rest :: q in queue;
        assert queue + [item] == [item] + (rest + [item]);
      }
    }
  }

  /** A direct write overtakes what is queued, and a restart of the bootloader drops it: neither matters if the
      queue is empty, or, for a direct write, holds nothing but the same piece again. */
  predicate Harmless(g: Gate, e: Event) {
    match e
    case SendDirect(payload) => AllAre(g.queue, Firmware(payload))
    case StartBootloader(start) => start ==> g.queue == []
    case _ => true
  }

  /** A direct write keeps the accepted order exactly when every queued packet is the piece it writes. */
  lemma DirectWriteInOrderIff(g: Gate, payload: Bytes)
    ensures Line(Step(g, SendDirect(payload))) == Line(g) + [Firmware(payload)] <==> AllAre(g.queue, Firmware(payload))
  {
    var item, n := Firmware(payload), |g.wire|;
    CommutesIff(item, g.queue);
    var now, due := g.wire + [item] + g.queue, g.wire + g.queue + [item];
    assert now[n..] == [item] + g.queue && due[n..] == g.queue + [item];
    assert now == g.wire + ([item] + g.queue) && due == g.wire + (g.queue + [item]);
  }

  lemma StepInOrderIff(g: Gate, e: Event)
    ensures Line(Step(g, e)) == Line(g) + Taken(g, e) <==> Harmless(g, e)
  {
    match e
    case SendNmea(bytes) =>
      assert g.wire + (g.queue + [Nmea(bytes)]) == Line(g) + [Nmea(bytes)];
    case SendOta(payload) =>
      assert g.wire + (g.queue + [Firmware(payload)]) == Line(g) + [Firmware(payload)];
    case SendDirect(payload) => DirectWriteInOrderIff(g, payload);
    case StartBootloader(start) => assert |g.wire| + |g.queue| == |Line(g)|;
    case Pump =>
      if g.queue != [] {
        assert g.wire + [g.queue[0]] + g.queue[1..] == Line(g);
      }
  }

  /** Written and queued packets are those that were there and those accepted since, in order. */
  predicate InOrder(g: Gate, events: seq<Event>) {
    Line(Run(g, events)) == Line(g) + Accepted(g, events)
  }

  lemma PrefixInOrderIff(g: Gate, events: seq<Event>, i: nat)
    requires i < |events| && InOrder(g, events[..i])
    ensures InOrder(g, events[..i + 1]) <==> Harmless(Run(g, events[..i]), events[i])
  {
    RunSnoc(g, events, i);
    StepInOrderIff(Run(g, events[..i]), events[i]);
    assert Line(g) + (Accepted(g, events[..i]) + Taken(Run(g, events[..i]), events[i])) ==
           Line(Run(g, events[..i])) + Taken(Run(g, events[..i]), events[i]);
  }

  lemma {:induction false} HarmlessSoFar(g: Gate, events: seq<Event>, n: nat)
    requires n <= |events|
    requires forall i | 0 <= i < n :: Harmless(Run(g, events[..i]), events[i])
    ensures InOrder(g, events[..n])
    decreases n
  {
    if n > 0 {
      HarmlessSoFar(g, events, n - 1);
      PrefixInOrderIff(g, events, n - 1);
    }
  }

  /** Over a whole run, bootloader on or off, nothing is lost and nothing overtakes at any time if and only if
      every direct write and every restart of the bootloader finds a queue to which it is harmless. */
  lemma OrderKeptIff(g: Gate, events: seq<Event>)
    ensures (forall n | 0 <= n <= |events| :: InOrder(g, events[..n]))
            <==> (forall i | 0 <= i < |events| :: Harmless(Run(g, events[..i]), events[i]))
  {
    if forall i | 0 <= i < |events| :: Harmless(Run(g, events[..i]), events[i]) {
      forall n | 0 <= n <= |events|
        ensures InOrder(g, events[..n])
      {
        HarmlessSoFar(g, events, n);
      }
    } else {
      var i :| 0 <= i < |events| && !Harmless(Run(g, events[..i]), events[i]);
      if InOrder(g, events[..i]) {
        PrefixInOrderIff(g, events, i);
      }
    }
  }

  // ---------------------------------------------------------------- the bytes of an update

  function Contents(items: seq<Item>): Bytes {
    if items == [] then [] else Contents(items[..|items| - 1]) + items[|items| - 1].bytes
  }

  lemma {:induction false} ContentsConcat(a: seq<Item>, b: seq<Item>)
    ensures Contents(a + b) == Contents(a) + Contents(b)
    decreases |b|
  {
    if b == [] {
      assert a + b == a;
    } else {
      var last := |b| - 1;
      assert (a + b)[..|a + b| - 1] == a + b[..last];
      ContentsConcat(a, b[..last]);
    }
  }

  predicate FirmwareOnly(items: seq<Item>) {
    forall item | item in items :: item.Firmware?
  }

  /** The bytes an event drops: those queued when the bootloader is started again. */
  function Dropped(g: Gate, e: Event): nat {
    if e.StartBootloader? && e.start then |Contents(g.queue)| else 0
  }

  function Lost(g: Gate, events: seq<Event>): nat {
    if events == [] then 0
    else
      var front := events[..|events| - 1];
      Lost(g, front) + Dropped(Run(g, front), events[|events| - 1])
  }

  /** The bootloader is not stopped, and direct writes do not overtake anything. It may be started again: every
      begin packet does that, also one that is refused. */
  predicate DuringUpdate(g: Gate, events: seq<Event>)
    decreases |events|
  {
    events == [] ||
    (var front, last := events[..|events| - 1], events[|events| - 1];
     && DuringUpdate(g, front)
     && (last.StartBootloader? ==> last.start)
     && (last.SendDirect? ==> Harmless(Run(g, front), last)))
  }

  /** The state of the link after some events of an update that started in state `g`. */
  predicate Updating(g: Gate, h: Gate) {
    && h.bootloader && FirmwareOnly(h.queue)
    && g.wire <= h.wire && FirmwareOnly(h.wire[|g.wire|..])
  }

  lemma {:induction false} OnlyFirmware(g: Gate, events: seq<Event>)
    requires g.bootloader && g.queue == [] && DuringUpdate(g, events)
    ensures Updating(g, Run(g, events)) && FirmwareOnly(Accepted(g, events))
    decreases |events|
  {
    if events != [] {
      var front, last := events[..|events| - 1], events[|events| - 1];
      OnlyFirmware(g, front);
      var h := Run(g, front);
      if last.SendDirect? {
        assert (h.wire + [Firmware(last.payload)])[|g.wire|..] == h.wire[|g.wire|..] + [Firmware(last.payload)];
      } else if last.Pump? && h.queue != [] {
        assert h.queue[0] in h.queue && forall item | item in h.queue[1..] :: item in h.queue;
        assert (h.wire + [h.queue[0]])[|g.wire|..] == h.wire[|g.wire|..] + [h.queue[0]];
      }
    }
  }

  lemma StepConserves(h: Gate, e: Event)
    requires e.SendDirect? ==> Harmless(h, e)
    ensures Balanced(Contents(Line(h)), Contents(Taken(h, e)), Contents(Line(Step(h, e))), Dropped(h, e))
  {
    ContentsConcat(Line(h), Taken(h, e));
    if e.StartBootloader? && e.start {
      ContentsConcat(h.wire, h.queue);
      assert Line(Step(h, e)) == h.wire;
    } else {
      StepInOrderIff(h, e);
    }
  }

  /** `now` bytes on the line, out of `was` before and `more` accepted since, with `lost` of them dropped. */
  predicate Balanced(was: Bytes, more: Bytes, now: Bytes, lost: nat) {
    && |now| + lost == |was| + |more|
    && (lost == 0 ==> now == was + more)
  }

  lemma BalancedStep(was: Bytes, more: Bytes, now: Bytes, lost: nat, more': Bytes, now': Bytes, lost': nat)
    requires Balanced(was, more, now, lost) && Balanced(now, more', now', lost')
    ensures Balanced(was, more + more', now', lost + lost')
  {
    assert was + more + more' == was + (more + more');
  }

  lemma {:induction false} Conserved(g: Gate, events: seq<Event>)
    requires DuringUpdate(g, events)
    ensures Balanced(Contents(Line(g)), Contents(Accepted(g, events)), Contents(Line(Run(g, events))), Lost(g, events))
    decreases |events|
  {
    if events != [] {
      var front, last := events[..|events| - 1], events[|events| - 1];
      Conserved(g, front);
      var h := Run(g, front);
      StepConserves(h, last);
      ContentsConcat(Accepted(g, front), Taken(h, last));
      BalancedStep(Contents(Line(g)), Contents(Accepted(g, front)), Contents(Line(h)), Lost(g, front),
                   Contents(Taken(h, last)), Contents(Line(Step(h, last))), Dropped(h, last));
    }
  }

  /** The firmware handed to the link, whether there is room for it or not. The update session counts a piece and
      folds it into its CRC all the same. */
  function Offer(e: Event): seq<Item> {
    match e
    case SendOta(payload) => [Firmware(payload)]
    case SendDirect(payload) => [Firmware(payload)]
    case _ => []
  }

  function Offered(events: seq<Event>): seq<Item> {
    if events == [] then [] else Offered(events[..|events| - 1]) + Offer(events[|events| - 1])
  }

  /** The bytes that found the queue full. */
  function Spill(g: Gate, e: Event): nat {
    if e.SendOta? && |g.queue| >= QUEUE_SIZE then |e.payload| else 0
  }

  function Spilled(g: Gate, events: seq<Event>): nat {
    if events == [] then 0
    else
      var front := events[..|events| - 1];
      Spilled(g, front) + Spill(Run(g, front), events[|events| - 1])
  }

  lemma OfferTaken(h: Gate, e: Event)
    requires h.bootloader
    ensures Balanced([], Contents(Offer(e)), Contents(Taken(h, e)), Spill(h, e))
  {
    if e.SendOta? {
      assert [Firmware(e.payload)][..0] == [];
    }
  }

  /** Every piece offered is accepted or spilled. */
  lemma {:induction false} OfferedIsTaken(g: Gate, events: seq<Event>)
    requires g.bootloader && g.queue == [] && DuringUpdate(g, events)
    ensures Balanced([], Contents(Offered(events)), Contents(Accepted(g, events)), Spilled(g, events))
    decreases |events|
  {
    if events != [] {
      var front, last := events[..|events| - 1], events[|events| - 1];
      OfferedIsTaken(g, front);
      OnlyFirmware(g, front);
      var h := Run(g, front);
      OfferTaken(h, last);
      ContentsConcat(Offered(front), Offer(last));
      ContentsConcat(Accepted(g, front), Taken(h, last));
      BalancedSum(Contents(Offered(front)), Contents(Accepted(g, front)), Spilled(g, front),
                  Contents(Offer(last)), Contents(Taken(h, last)), Spill(h, last));
    }
  }

  lemma BalancedSum(more: Bytes, now: Bytes, lost: nat, more': Bytes, now': Bytes, lost': nat)
    requires Balanced([], more, now, lost) && Balanced([], more', now', lost')
    ensures Balanced([], more + more', now + now', lost + lost')
  {
    assert [] + more == more && [] + more' == more' && [] + (more + more') == more + more';
  }

  /** From the moment the bootloader is started until it is stopped, only firmware is written, whatever else
      tries to send; and the bytes written followed by the bytes still queued are exactly the firmware handed to
      the link, in order, if and only if none found the queue full and none were queued whenever the bootloader
      was started again. Of the firmware accepted, they are so if and only if the latter. */
  lemma FirmwareIsConserved(before: Gate, events: seq<Event>)
    requires DuringUpdate(Step(before, StartBootloader(true)), events)
    ensures var g := Step(before, StartBootloader(true));
            var h := Run(g, events);
            && Updating(g, h) && FirmwareOnly(Accepted(g, events))
            && (Contents(h.wire) + Contents(h.queue) == Contents(before.wire) + Contents(Accepted(g, events))
                <==> Lost(g, events) == 0)
            && (Contents(h.wire) + Contents(h.queue) == Contents(before.wire) + Contents(Offered(events))
                <==> Lost(g, events) == 0 && Spilled(g, events) == 0)
  {
    var g := Step(before, StartBootloader(true));
    var h := Run(g, events);
    OnlyFirmware(g, events);
    Conserved(g, events);
    OfferedIsTaken(g, events);
    assert Line(g) == before.wire;
    ContentsConcat(h.wire, h.queue);
    BalancedChain(Contents(before.wire), Contents(Accepted(g, events)), Contents(Offered(events)),
                  Contents(h.wire) + Contents(h.queue), Lost(g, events), Spilled(g, events));
  }

  lemma BalancedChain(was: Bytes, taken: Bytes, offered: Bytes, now: Bytes, lost: nat, spilled: nat)
    requires Balanced(was, taken, now, lost) && Balanced([], offered, taken, spilled)
    ensures now == was + taken <==> lost == 0
    ensures now == was + offered <==> lost == 0 && spilled == 0
  {
    assert [] + offered == offered;
  }

  /** A begin packet while firmware is queued: the queued piece is lost. */
  lemma RestartLosesQueue(before: Gate, payload: Bytes)
    requires payload != []
    ensures var g, events := Step(before, StartBootloader(true)), [SendOta(payload), StartBootloader(true)];
            && DuringUpdate(g, events)
            && Accepted(g, events) == [Firmware(payload)] && Line(Run(g, events)) == before.wire
  {
    var g, events := Step(before, StartBootloader(true)), [SendOta(payload), StartBootloader(true)];
    assert events[..0] == [] && events[..2] == events;
    RunSnoc(g, events, 0);
    RunSnoc(g, events, 1);
    assert DuringUpdate(g, events[..0]);
    assert events[..1][..0] == events[..0];
    assert DuringUpdate(g, events[..1]);
  }

  // ---------------------------------------------------------------- one transport

  /** The bootloader is not stopped, and the firmware comes over one transport: queued packets from Bluetooth
      Low Energy, or direct writes from Bluetooth Classic. */
  predicate OneTransport(events: seq<Event>) {
    && (forall e | e in events :: e.StartBootloader? ==> e.start)
    && (NothingQueued(events) || forall e | e in events :: !e.SendDirect?)
  }

  predicate NothingQueued(events: seq<Event>) {
    forall e | e in events :: !e.SendOta?
  }

  lemma {:induction false} QueueStaysEmpty(g: Gate, events: seq<Event>)
    requires g.bootloader && g.queue == []
    requires NothingQueued(events) && forall e | e in events :: e.StartBootloader? ==> e.start
    ensures Run(g, events).bootloader && Run(g, events).queue == [] && Lost(g, events) == 0
    decreases |events|
  {
    if events != [] {
      var front, last := events[..|events| - 1], events[|events| - 1];
      assert last in events && forall e | e in front :: e in events;
      QueueStaysEmpty(g, front);
    }
  }

  /** Over either transport no direct write ever finds the queue in use. */
  lemma {:induction false} OneTransportKeepsOrder(before: Gate, events: seq<Event>)
    requires OneTransport(events)
    ensures DuringUpdate(Step(before, StartBootloader(true)), events)
    decreases |events|
  {
    if events != [] {
      var front, last := events[..|events| - 1], events[|events| - 1];
      assert last in events && forall e | e in front :: e in events;
      OneTransportKeepsOrder(before, front);
      if last.SendDirect? {
        QueueStaysEmpty(Step(before, StartBootloader(true)), front);
      }
    }
  }

  /** So over either transport the firmware arrives as it was sent, whatever else tries to send in between: always
      over Bluetooth Classic, and over Bluetooth Low Energy if and only if no piece finds the queue full and no
      begin packet finds bytes queued. */
  lemma FirmwareArrivesInOrder(before: Gate, events: seq<Event>)
    requires OneTransport(events)
    ensures var g := Step(before, StartBootloader(true));
            var h := Run(g, events);
            && Updating(g, h) && FirmwareOnly(Accepted(g, events))
            && (Contents(h.wire) + Contents(h.queue) == Contents(before.wire) + Contents(Offered(events))
                <==> Lost(g, events) == 0 && Spilled(g, events) == 0)
            && (NothingQueued(events) ==> Lost(g, events) == 0 && Spilled(g, events) == 0)
  {
    OneTransportKeepsOrder(before, events);
    FirmwareIsConserved(before, events);
    if NothingQueued(events) {
      QueueStaysEmpty(Step(before, StartBootloader(true)), events);
      NothingSpilled(Step(before, StartBootloader(true)), events);
    }
  }

  lemma {:induction false} NothingSpilled(g: Gate, events: seq<Event>)
    requires NothingQueued(events)
    ensures Spilled(g, events) == 0
    decreases |events|
  {
    if events != [] {
      var front, last := events[..|events| - 1], events[|events| - 1];
      assert last in events && forall e | e in front :: e in events;
      NothingSpilled(g, front);
    }
  }

  // ---------------------------------------------------------------- progress

  /** The event puts a packet on the wire: a direct write, or a turn of the stream task that finds one queued. */
  predicate Writes(g: Gate, e: Event) {
    e.SendDirect? || (e.Pump? && g.queue != [])
  }

  function Written(g: Gate, events: seq<Event>): nat {
    if events == [] then 0
    else
      var front := events[..|events| - 1];
      Written(g, front) + if Writes(Run(g, front), events[|events| - 1]) then 1 else 0
  }

  /** Over any run exactly those put packets on the wire, one each, behind what is already there. */
  lemma {:induction false} WireGrows(g: Gate, events: seq<Event>)
    ensures var h := Run(g, events);
            |h.wire| == |g.wire| + Written(g, events) && g.wire <= h.wire
    decreases |events|
  {
    if events != [] {
      WireGrows(g, events[..|events| - 1]);
    }
  }

  /** `n` turns of the stream task with nothing in between. */
  function Turns(n: nat): (events: seq<Event>)
    ensures |events| == n
  {
    seq(n, i => Pump)
  }

  lemma {:induction false} TurnsDrain(g: Gate, n: nat)
    requires n <= |g.queue|
    ensures Run(g, Turns(n)) == g.(queue := g.queue[n..], wire := g.wire + g.queue[..n])
    decreases n
  {
    if n == 0 {
      assert g.queue[0..] == g.queue && g.wire + g.queue[..0] == g.wire;
    } else {
      TurnsDrain(g, n - 1);
      assert Turns(n)[..n - 1] == Turns(n - 1);
      assert g.queue[n - 1..][1..] == g.queue[n..];
      assert g.wire + g.queue[..n - 1] + [g.queue[n - 1]] == g.wire + g.queue[..n];
    }
  }

  /** Once there have been as many turns as packets queued, the queue is empty and all of it on the wire, in
      order; further turns change nothing. */
  lemma {:induction false} EnoughTurns(g: Gate, n: nat)
    requires n >= |g.queue|
    ensures Run(g, Turns(n)) == g.(queue := [], wire := g.wire + g.queue)
    decreases n
  {
    if n == |g.queue| {
      TurnsDrain(g, n);
      assert g.queue[n..] == [] && g.queue[..n] == g.queue;
    } else {
      EnoughTurns(g, n - 1);
      assert Turns(n)[..n - 1] == Turns(n - 1);
    }
  }

  lemma {:induction false} RunConcat(g: Gate, a: seq<Event>, b: seq<Event>)
    ensures Run(g, a + b) == Run(Run(g, a), b)
    decreases |b|
  {
    if b == [] {
      assert a + b == a;
    } else {
      var last := |b| - 1;
      assert (a + b)[..|a + b| - 1] == a + b[..last];
      RunConcat(g, a, b[..last]);
    }
  }

  /** After an update and enough turns, the bytes on the wire are exactly the firmware handed to the link, in
      order, if and only if none found the queue full and none were queued at a restart. */
  lemma FirmwareReachesWire(before: Gate, events: seq<Event>, n: nat)
    requires DuringUpdate(Step(before, StartBootloader(true)), events)
    requires n >= |Run(Step(before, StartBootloader(true)), events).queue|
    ensures var g := Step(before, StartBootloader(true));
            var h := Run(g, events + Turns(n));
            && h.queue == []
            && (Contents(h.wire) == Contents(before.wire) + Contents(Offered(events))
                <==> Lost(g, events) == 0 && Spilled(g, events) == 0)
  {
    var g := Step(before, StartBootloader(true));
    var h := Run(g, events);
    FirmwareIsConserved(before, events);
    RunConcat(g, events, Turns(n));
    EnoughTurns(h, n);
    ContentsConcat(h.wire, h.queue);
  }

  lemma OneEvent(g: Gate, a: Event, events: seq<Event>)
    requires events == [a]
    ensures Run(g, events) == Step(g, a)
  {
    assert events[..0] == [];
    RunSnoc(g, events, 0);
    assert events[..1] == events;
  }

  lemma TwoEvents(g: Gate, a: Event, b: Event)
    ensures Run(g, [a, b]) == Step(Step(g, a), b)
  {
    RunConcat(g, [a], [b]);
    OneEvent(g, a, [a]);
    OneEvent(Step(g, a), b, [b]);
    assert [a] + [b] == [a, b];
  }

  /** Once the bootloader is stopped, NMEA packets are accepted again, and reach the wire behind what is queued. */
  lemma StopReopens(g: Gate, bytes: Bytes, n: nat)
    requires |g.queue| < QUEUE_SIZE && n > |g.queue|
    ensures var h := Run(Run(g, [StartBootloader(false), SendNmea(bytes)]), Turns(n));
            h.wire == g.wire + g.queue + [Nmea(bytes)] && h.queue == [] && !h.bootloader
  {
    TwoEvents(g, StartBootloader(false), SendNmea(bytes));
    var h := g.(bootloader := false, queue := g.queue + [Nmea(bytes)]);
    EnoughTurns(h, n);
    assert g.wire + (g.queue + [Nmea(bytes)]) == g.wire + g.queue + [Nmea(bytes)];
  }

  // ---------------------------------------------------------------- a full queue

  /** `n` one-byte pieces of firmware, one after the other, with no turn of the stream task in between. */
  function Pieces(n: nat): (events: seq<Event>)
    ensures |events| == n
  {
    seq(n, i => SendOta([0]))
  }

  lemma {:induction false} QueueFills(g: Gate, n: nat)
    requires g.bootloader && g.queue == [] && n <= QUEUE_SIZE
    ensures var h := Run(g, Pieces(n));
            h.bootloader && |h.queue| == n && h.wire == g.wire && Spilled(g, Pieces(n)) == 0
    ensures Lost(g, Pieces(n)) == 0 && DuringUpdate(g, Pieces(n))
    decreases n
  {
    if n > 0 {
      QueueFills(g, n - 1);
      assert Pieces(n)[..n - 1] == Pieces(n - 1);
    }
  }

  /** Twenty-one pieces in a row: the last one is lost, although the update session counts it. */
  lemma FullQueueLosesFirmware(before: Gate)
    ensures var g := Step(before, StartBootloader(true));
            var h := Run(g, Pieces(QUEUE_SIZE + 1));
            && OneTransport(Pieces(QUEUE_SIZE + 1))
            && Spilled(g, Pieces(QUEUE_SIZE + 1)) == 1
            && Contents(h.wire) + Contents(h.queue) != Contents(before.wire) + Contents(Offered(Pieces(QUEUE_SIZE + 1)))
  {
    var g, events := Step(before, StartBootloader(true)), Pieces(QUEUE_SIZE + 1);
    QueueFills(g, QUEUE_SIZE);
    assert events[..QUEUE_SIZE] == Pieces(QUEUE_SIZE);
    FirmwareArrivesInOrder(before, events);
  }

  // ---------------------------------------------------------------- the object

  /** `Picman`, as far as sending goes. */
  class Picman {
    var bootloader: bool
    var txqueue: seq<Item>
    var wire: seq<Item>

    function Value(): Gate
      reads this
    {
      Gate(bootloader, txqueue, wire)
    }

    constructor ()
      ensures Value() == Gate(false, [], [])
    {
      bootloader, txqueue, wire := false, [], [];
    }

    method Start(start: bool)
      modifies this
      ensures Value() == Step(old(Value()), StartBootloader(start))
    {
      if start {
        bootloader := true;
        txqueue := [];
      } else {
        bootloader := false;
      }
    }

    method Enqueue(item: Item) returns (ok: bool)
      modifies this`txqueue
      ensures Value() == Add(old(Value()), item) && ok == (|old(txqueue)| < QUEUE_SIZE)
    {
      ok := |txqueue| < QUEUE_SIZE;
      if ok {
        txqueue := txqueue + [item];
      }
    }

    method SendNmeaPkt(bytes: Bytes)
      modifies this`txqueue
      ensures Value() == Step(old(Value()), SendNmea(bytes))
      ensures old(bootloader) ==> txqueue == old(txqueue)
    {
      if !bootloader {
        var _ := Enqueue(Nmea(bytes));
      }
    }

    method SendOtaPkt(payload: Bytes)
      modifies this`txqueue
      ensures Value() == Step(old(Value()), SendOta(payload))
    {
      var _ := Enqueue(Firmware(payload));
    }

    method SendSppPkt(payload: Bytes)
      modifies this`wire
      ensures Value() == Step(old(Value()), SendDirect(payload))
    {
      wire := wire + [Firmware(payload)];
    }

    /** The transmit half of one iteration of `PicStream::task`. */
    method PumpOne()
      modifies this`txqueue, this`wire
      ensures Value() == Step(old(Value()), Pump)
    {
      if txqueue != [] {
        var pkt := txqueue[0];
        txqueue := txqueue[1..];
        wire := wire + [pkt];
      }
    }
  }
}
