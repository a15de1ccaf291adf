/** The Bluetooth Classic framing of main/blue/spp/btc_spp.c, as functions over byte strings.

A frame doubles every 0x02 and 0x03 of its payload and ends with 0x02 0x03. The decoder is a state machine
whose state survives between calls; it also keeps the CRC of chunk payloads, one byte behind the bytes it
stores. SppLink.dfy ties the source's loops and buffers to these functions.
*/
module Framing {
  /** `SPP_MAX_ALLOWED` */
  const MAX_ALLOWED: nat := 1000

  // ---------------------------------------------------------------- encoder

  predicate IsEscape(b: bv8) {
    b == 2 || b == 3
  }

  function EscapeByte(b: bv8): seq<bv8> {
    if IsEscape(b) then [b, b] else [b]
  }

  function Escape(payload: seq<bv8>): seq<bv8> {
    if payload == [] then [] else Escape(payload[..|payload| - 1]) + EscapeByte(payload[|payload| - 1])
  }

  function Frame(payload: seq<bv8>): seq<bv8> {
    Escape(payload) + [2, 3]
  }

  function Frames(payloads: seq<seq<bv8>>): seq<bv8> {
    if payloads == [] then [] else Frames(payloads[..|payloads| - 1]) + Frame(payloads[|payloads| - 1])
  }

  /** How often `b` occurs. */
  function Count(s: seq<bv8>, b: bv8): nat {
    if s == [] then 0 else Count(s[..|s| - 1], b) + if s[|s| - 1] == b then 1 else 0
  }

  lemma {:induction false} EscapeText(payload: seq<bv8>)
    ensures |Escape(payload)| == |payload| + Count(payload, 0x02) + Count(payload, 0x03)
    decreases |payload|
  {
    if payload != [] {
      EscapeText(payload[..|payload| - 1]);
    }
  }

  lemma {:induction false} EscapePrefixOf(payload: seq<bv8>, i: nat)
    requires i <= |payload|
    ensures Escape(payload[..i]) <= Escape(payload)
    decreases |payload|
  {
    if i == |payload| {
      assert payload[..i] == payload;
    } else {
      var front := payload[..|payload| - 1];
      EscapePrefixOf(front, i);
      assert front[..i] == payload[..i];
    }
  }

  /** What goes over the link: the bytes of the payload in order, each after as many extra bytes as there are
      0x02 and 0x03 before it, those two doubled; and 0x02 0x03 at the end. */
  lemma FrameText(payload: seq<bv8>, i: nat)
    requires i < |payload|
    ensures var f, at := Frame(payload), i + Count(payload[..i], 0x02) + Count(payload[..i], 0x03);
            && |f| == |payload| + Count(payload, 0x02) + Count(payload, 0x03) + 2
            && at < |f| - 2 && f[at] == payload[i]
            && (payload[i] == 0x02 || payload[i] == 0x03 ==> at + 1 < |f| - 2 && f[at + 1] == payload[i])
            && f[|f| - 2] == 0x02 && f[|f| - 1] == 0x03
  {
    var before, upto := payload[..i], payload[..i + 1];
    EscapeText(payload);
    EscapeText(before);
    assert upto[..|upto| - 1] == before;
    EscapePrefixOf(payload, i + 1);
    assert Escape(upto) == Escape(before) + EscapeByte(payload[i]);
    assert Escape(upto)[|Escape(before)|] == payload[i];
  }

  // ---------------------------------------------------------------- decoder

  /** The byte the decoder compares the command with (`BTC_SPP_CMD_OTA_CHUNK`). */
  const CHUNK: bv8 := 0x14

  /** `buf` is `_rxbuff.data[..pos]`, `prev` is `prev_byte`, `crc` the accumulator; `app` is the state the
      parser callback works on, and `frames` the packets it has been called with. */
  datatype Link<A, C> = Link(buf: seq<bv8>, prev: bv8, crc: C, app: A, frames: seq<seq<bv8>>)

  /** What the decoder is linked with: the CRC step, and the parser, which reads and may reset the CRC. */
  datatype Hooks<!A, !C> = Hooks(step: (C, bv8) -> C, parser: (A, C, seq<bv8>) -> (A, C))

  predicate Idle<A, C>(d: Link<A, C>) {
    d.buf == [] && d.prev == 0
  }

  /** The buffer as the next byte finds it: a full one is abandoned. */
  function Room(buf: seq<bv8>): seq<bv8> {
    if |buf| >= MAX_ALLOWED then [] else buf
  }

  /** The parser callback. */
  function Deliver<A, C>(hooks: Hooks<A, C>, d: Link<A, C>, pkt: seq<bv8>): Link<A, C> {
    var (app, crc) := hooks.parser(d.app, d.crc, pkt);
    d.(app := app, crc := crc, frames := d.frames + [pkt])
  }

  /** Storing a byte first folds in the byte stored before it, unless that is the command byte. */
  function FoldPrevious<C>(step: (C, bv8) -> C, buf: seq<bv8>, crc: C): C {
    if |buf| > 1 && buf[0] == CHUNK then step(crc, buf[|buf| - 1]) else crc
  }

  function Receive<A, C>(hooks: Hooks<A, C>, d: Link<A, C>, b: bv8): Link<A, C> {
    var buf := Room(d.buf);
    if IsEscape(b) && d.prev == b then
      d.(buf := buf, prev := 0)
    else if d.prev == 2 && b == 3 then
      if |buf| > 0 then Deliver(hooks, d.(buf := [], prev := 0), buf[..|buf| - 1])
      else d.(buf := [], prev := 0)
    else
      d.(buf := buf + [b], prev := b, crc := FoldPrevious(hooks.step, buf, d.crc))
  }

  function Feed<A, C>(hooks: Hooks<A, C>, d: Link<A, C>, bytes: seq<bv8>): Link<A, C> {
    if bytes == [] then d
    else Receive(hooks, Feed(hooks, d, bytes[..|bytes| - 1]), bytes[|bytes| - 1])
  }

  lemma {:induction false} FeedConcat<A, C>(hooks: Hooks<A, C>, d: Link<A, C>, a: seq<bv8>, b: seq<bv8>)
    ensures Feed(hooks, d, a + b) == Feed(hooks, Feed(hooks, d, a), b)
    decreases |b|
  {
    if b == [] {
      assert a + b == a;
    } else {
      var last := |b| - 1;
      assert (a + b)[..|a + b| - 1] == a + b[..last];
      FeedConcat(hooks, d, a, b[..last]);
    }
  }

  lemma FeedOne<A, C>(hooks: Hooks<A, C>, d: Link<A, C>, b: bv8)
    ensures Feed(hooks, d, [b]) == Receive(hooks, d, b)
  {
    assert [b][..|[b]| - 1] == [];
  }

  lemma FeedTwo<A, C>(hooks: Hooks<A, C>, d: Link<A, C>, a: bv8, b: bv8)
    ensures Feed(hooks, d, [a, b]) == Receive(hooks, Receive(hooks, d, a), b)
  {
    assert [a, b][..|[a, b]| - 1] == [a];
    FeedOne(hooks, d, a);
  }

  // ---------------------------------------------------------------- one frame

  /** `prev` is not half of an escape pair or of a trailer. */
  predicate Clean<A, C>(d: Link<A, C>) {
    !IsEscape(d.prev)
  }

  /** From a clean state an escaped byte stores exactly that byte, folds exactly the one before it, and
      leaves a clean state. */
  lemma EscapedByte<A, C>(hooks: Hooks<A, C>, d: Link<A, C>, b: bv8)
    requires Clean(d)
    ensures var e := Feed(hooks, d, EscapeByte(b));
            && Clean(e)
            && Room(e.buf) == Room(Room(d.buf) + [b])
            && e.crc == FoldPrevious(hooks.step, Room(d.buf), d.crc)
            && e.app == d.app && e.frames == d.frames
  {
    if IsEscape(b) {
      FeedTwo(hooks, d, b, b);
    } else {
      FeedOne(hooks, d, b);
    }
  }

  /** What the buffer holds of a payload, stored byte by byte into a buffer that is abandoned when full. */
  function Kept(payload: seq<bv8>): seq<bv8> {
    if payload == [] then [] else Room(Kept(payload[..|payload| - 1]) + [payload[|payload| - 1]])
  }

  /** What came after the last multiple of 1000 bytes. */
  function Tail(payload: seq<bv8>): seq<bv8> {
    payload[|payload| - |payload| % MAX_ALLOWED..]
  }

  lemma NextRemainder(n: nat)
    ensures (n + 1) % MAX_ALLOWED == if n % MAX_ALLOWED == MAX_ALLOWED - 1 then 0 else n % MAX_ALLOWED + 1
  {
  }

  lemma TailSnoc(head: seq<bv8>, last: bv8)
    ensures Room(Tail(head) + [last]) == Tail(head + [last])
  {
    var n := |head|;
    NextRemainder(n);
    assert Tail(head) + [last] == (head + [last])[n - n % MAX_ALLOWED..];
  }

  lemma {:induction false} KeptIsTail(payload: seq<bv8>)
    ensures Kept(payload) == Tail(payload)
    decreases |payload|
  {
    if payload != [] {
      var head, last := payload[..|payload| - 1], payload[|payload| - 1];
      KeptIsTail(head);
      TailSnoc(head, last);
      assert payload == head + [last];
    }
  }

  lemma EscapedSnoc<A, C>(hooks: Hooks<A, C>, d: Link<A, C>, head: seq<bv8>, last: bv8)
    ensures Feed(hooks, d, Escape(head + [last])) == Feed(hooks, Feed(hooks, d, Escape(head)), EscapeByte(last))
  {
    assert (head + [last])[..|head + [last]| - 1] == head;
    FeedConcat(hooks, d, Escape(head), EscapeByte(last));
  }

  lemma {:induction false} EscapedPayload<A, C>(hooks: Hooks<A, C>, d: Link<A, C>, payload: seq<bv8>)
    requires Idle(d)
    ensures var e := Feed(hooks, d, Escape(payload));
            && Clean(e)
            && Room(e.buf) == Kept(payload)
            && e.app == d.app && e.frames == d.frames
    decreases |payload|
  {
    if payload != [] {
      var head, last := payload[..|payload| - 1], payload[|payload| - 1];
      assert payload == head + [last];
      EscapedPayload(hooks, d, head);
      EscapedSnoc(hooks, d, head, last);
      EscapedByte(hooks, Feed(hooks, d, Escape(head)), last);
    }
  }

  /** What the trailer does to a clean state: the 0x02 is stored, the 0x03 hands over what came before it. */
  function Close<A, C>(hooks: Hooks<A, C>, d: Link<A, C>): Link<A, C> {
    var kept := Room(d.buf);
    var stored := d.(buf := [], prev := 0, crc := FoldPrevious(hooks.step, kept, d.crc));
    if |kept| == MAX_ALLOWED - 1 then stored else Deliver(hooks, stored, kept)
  }

  lemma Trailer<A, C>(hooks: Hooks<A, C>, d: Link<A, C>)
    requires Clean(d)
    ensures Feed(hooks, d, [2, 3]) == Close(hooks, d)
  {
    FeedTwo(hooks, d, 2, 3);
    var kept := Room(d.buf);
    assert (kept + [2])[..|kept|] == kept;
  }

  lemma FrameCloses<A, C>(hooks: Hooks<A, C>, d: Link<A, C>, payload: seq<bv8>)
    requires Clean(Feed(hooks, d, Escape(payload)))
    ensures Feed(hooks, d, Frame(payload)) == Close(hooks, Feed(hooks, d, Escape(payload)))
  {
    FeedConcat(hooks, d, Escape(payload), [2, 3]);
    Trailer(hooks, Feed(hooks, d, Escape(payload)));
  }

  lemma CloseDelivers<A, C>(hooks: Hooks<A, C>, d: Link<A, C>)
    ensures var e := Close(hooks, d);
            && Idle(e)
            && e.frames == if |Room(d.buf)| == MAX_ALLOWED - 1 then d.frames else d.frames + [Room(d.buf)]
  {
  }

  lemma TailLength(payload: seq<bv8>)
    ensures |Kept(payload)| == |payload| % MAX_ALLOWED
  {
    KeptIsTail(payload);
  }

  /** What one frame delivers, whatever its length: the payload's tail since the last multiple of 1000
      bytes, or nothing when that tail is 999 bytes long. The decoder is idle afterwards. */
  lemma FrameDelivers<A, C>(hooks: Hooks<A, C>, d: Link<A, C>, payload: seq<bv8>)
    requires Idle(d)
    ensures var e := Feed(hooks, d, Frame(payload));
            && Idle(e)
            && e.frames == if |payload| % MAX_ALLOWED == MAX_ALLOWED - 1 then d.frames else d.frames + [Tail(payload)]
  {
    EscapedPayload(hooks, d, payload);
    FrameCloses(hooks, d, payload);
    CloseDelivers(hooks, Feed(hooks, d, Escape(payload)));
    KeptIsTail(payload);
    TailLength(payload);
  }

  lemma TailIntactIff(payload: seq<bv8>)
    ensures |payload| % MAX_ALLOWED != MAX_ALLOWED - 1 && Tail(payload) == payload <==> |payload| <= MAX_ALLOWED - 2
  {
    KeptIsTail(payload);
    TailLength(payload);
    if |payload| <= MAX_ALLOWED - 2 {
      assert |payload| % MAX_ALLOWED == |payload|;
      assert Tail(payload) == payload;
    }
  }

  lemma AppendedEqualIff(s: seq<seq<bv8>>, x: seq<bv8>, y: seq<bv8>)
    ensures s + [x] == s + [y] <==> x == y
  {
    assert (s + [x])[|s|] == x && (s + [y])[|s|] == y;
  }

  /** A frame delivers its payload if and only if the payload is at most 998 bytes long. */
  lemma FrameIntactIff<A, C>(hooks: Hooks<A, C>, d: Link<A, C>, payload: seq<bv8>)
    requires Idle(d)
    ensures Feed(hooks, d, Frame(payload)).frames == d.frames + [payload] <==> |payload| <= MAX_ALLOWED - 2
  {
    FrameDelivers(hooks, d, payload);
    TailIntactIff(payload);
    AppendedEqualIff(d.frames, Tail(payload), payload);
    assert |d.frames + [payload]| == |d.frames| + 1;
  }

  // ---------------------------------------------------------------- the streaming CRC

  function Fold<C>(step: (C, bv8) -> C, crc: C, bytes: seq<bv8>): C {
    if bytes == [] then crc else step(Fold(step, crc, bytes[..|bytes| - 1]), bytes[|bytes| - 1])
  }

  /** The CRC once a packet has been folded in: a chunk's payload, nothing else. */
  function ChunkCrc<C>(step: (C, bv8) -> C, crc: C, pkt: seq<bv8>): C {
    if pkt != [] && pkt[0] == CHUNK then Fold(step, crc, pkt[1..]) else crc
  }

  lemma ChunkCrcSnoc<C>(step: (C, bv8) -> C, crc: C, head: seq<bv8>, last: bv8)
    ensures ChunkCrc(step, crc, head + [last]) ==
            if head != [] && head[0] == CHUNK then step(ChunkCrc(step, crc, head), last) else crc
  {
    if head != [] && head[0] == CHUNK {
      assert (head + [last])[1..] == head[1..] + [last];
      assert (head[1..] + [last])[..|head[1..]|] == head[1..];
    }
  }

  /** While a payload arrives, the CRC is one byte behind. */
  lemma {:induction false} StreamOneBehind<A, C>(hooks: Hooks<A, C>, d: Link<A, C>, payload: seq<bv8>)
    requires Idle(d) && |payload| < MAX_ALLOWED
    ensures var e := Feed(hooks, d, Escape(payload));
            && Room(e.buf) == payload
            && FoldPrevious(hooks.step, payload, e.crc) == ChunkCrc(hooks.step, d.crc, payload)
    decreases |payload|
  {
    if payload != [] {
      var head, last := payload[..|payload| - 1], payload[|payload| - 1];
      assert payload == head + [last];
      StreamOneBehind(hooks, d, head);
      EscapedPayload(hooks, d, head);
      EscapedSnoc(hooks, d, head, last);
      EscapedByte(hooks, Feed(hooks, d, Escape(head)), last);
      ChunkCrcSnoc(hooks.step, d.crc, head, last);
    }
  }

  /** A frame of at most 998 bytes, from an idle decoder, calls the parser once, with the payload, and with
      the CRC already complete. */
  lemma FrameDecodes<A, C>(hooks: Hooks<A, C>, d: Link<A, C>, payload: seq<bv8>)
    requires Idle(d) && |payload| <= MAX_ALLOWED - 2
    ensures Feed(hooks, d, Frame(payload)) == Deliver(hooks, d.(crc := ChunkCrc(hooks.step, d.crc, payload)), payload)
  {
    StreamOneBehind(hooks, d, payload);
    EscapedPayload(hooks, d, payload);
    FrameCloses(hooks, d, payload);
  }
}
