/** Whole runs of the Bluetooth Classic framing: streams of frames, cut into calls anywhere, and recovery
from any decoder state. */
module FramingRuns {
  import opened Framing

  // ---------------------------------------------------------------- calls

  /** The bytes of a list of calls. */
  function Join(calls: seq<seq<bv8>>): seq<bv8> {
    if calls == [] then [] else Join(calls[..|calls| - 1]) + calls[|calls| - 1]
  }

  /** One run of the decoder per call, its state carried over. */
  function FeedCalls<A, C>(hooks: Hooks<A, C>, d: Link<A, C>, calls: seq<seq<bv8>>): Link<A, C> {
    if calls == [] then d else Feed(hooks, FeedCalls(hooks, d, calls[..|calls| - 1]), calls[|calls| - 1])
  }

  /** Where the stream is cut into calls makes no difference. */
  lemma {:induction false} CutsAreInvisible<A, C>(hooks: Hooks<A, C>, d: Link<A, C>, calls: seq<seq<bv8>>)
    ensures FeedCalls(hooks, d, calls) == Feed(hooks, d, Join(calls))
    decreases |calls|
  {
    if calls != [] {
      var front := calls[..|calls| - 1];
      CutsAreInvisible(hooks, d, front);
      FeedConcat(hooks, d, Join(front), calls[|calls| - 1]);
    }
  }

  // ---------------------------------------------------------------- round trip

  predicate AllFit(payloads: seq<seq<bv8>>) {
    forall p | p in payloads :: |p| <= MAX_ALLOWED - 2
  }

  lemma AllFitSnoc(front: seq<seq<bv8>>, last: seq<bv8>)
    ensures AllFit(front + [last]) <==> AllFit(front) && |last| <= MAX_ALLOWED - 2
  {
    if AllFit(front + [last]) {
      assert last in front + [last];
      forall p | p in front
        ensures |p| <= MAX_ALLOWED - 2
      {
        assert p in front + [last];
      }
    }
  }

  /** The link after the parser has been called with each payload in turn, each chunk's CRC complete. */
  function DeliverAll<A, C>(hooks: Hooks<A, C>, d: Link<A, C>, payloads: seq<seq<bv8>>): Link<A, C> {
    if payloads == [] then d
    else
      var last := payloads[|payloads| - 1];
      var e := DeliverAll(hooks, d, payloads[..|payloads| - 1]);
      Deliver(hooks, e.(crc := ChunkCrc(hooks.step, e.crc, last)), last)
  }

  lemma FramesSnoc<A, C>(hooks: Hooks<A, C>, d: Link<A, C>, payloads: seq<seq<bv8>>)
    requires payloads != []
    ensures Feed(hooks, d, Frames(payloads)) ==
            Feed(hooks, Feed(hooks, d, Frames(payloads[..|payloads| - 1])), Frame(payloads[|payloads| - 1]))
  {
    FeedConcat(hooks, d, Frames(payloads[..|payloads| - 1]), Frame(payloads[|payloads| - 1]));
  }

  lemma FrameDecodesIdle<A, C>(hooks: Hooks<A, C>, d: Link<A, C>, payload: seq<bv8>)
    requires Idle(d) && |payload| <= MAX_ALLOWED - 2
    ensures var e := Feed(hooks, d, Frame(payload));
            && e == Deliver(hooks, d.(crc := ChunkCrc(hooks.step, d.crc, payload)), payload)
            && Idle(e)
            && e.frames == d.frames + [payload]
  {
    FrameDecodes(hooks, d, payload);
  }

  /** The decoder has delivered these payloads and is idle. */
  predicate HasDelivered<A(==), C(==)>(hooks: Hooks<A, C>, d: Link<A, C>, payloads: seq<seq<bv8>>, e: Link<A, C>) {
    e == DeliverAll(hooks, d, payloads) && Idle(e) && e.frames == d.frames + payloads
  }

  lemma DeliveredOneMore<A, C>(hooks: Hooks<A, C>, d: Link<A, C>, front: seq<seq<bv8>>, e: Link<A, C>, last: seq<bv8>)
    requires HasDelivered(hooks, d, front, e) && |last| <= MAX_ALLOWED - 2
    ensures HasDelivered(hooks, d, front + [last], Feed(hooks, e, Frame(last)))
  {
    FrameDecodesIdle(hooks, e, last);
    assert (front + [last])[..|front + [last]| - 1] == front;
    assert d.frames + front + [last] == d.frames + (front + [last]);
  }

  lemma {:induction false} StreamDecodes<A, C>(hooks: Hooks<A, C>, d: Link<A, C>, payloads: seq<seq<bv8>>)
    requires Idle(d)
    requires AllFit(payloads)
    ensures var e := Feed(hooks, d, Frames(payloads));
            && e == DeliverAll(hooks, d, payloads)
            && Idle(e)
            && e.frames == d.frames + payloads
    decreases |payloads|
  {
    if payloads != [] {
      var front, last := payloads[..|payloads| - 1], payloads[|payloads| - 1];
      assert payloads == front + [last];
      AllFitSnoc(front, last);
      StreamDecodes(hooks, d, front);
      FramesSnoc(hooks, d, payloads);
      DeliveredOneMore(hooks, d, front, Feed(hooks, d, Frames(front)), last);
    }
  }

  /** Frames of at most 998 bytes each, fed to an idle decoder in calls cut at any points, call the parser
      with exactly their payloads, in order, and leave the decoder idle. */
  lemma RoundTrip<A, C>(hooks: Hooks<A, C>, d: Link<A, C>, payloads: seq<seq<bv8>>, calls: seq<seq<bv8>>)
    requires Idle(d)
    requires AllFit(payloads)
    requires Join(calls) == Frames(payloads)
    ensures var e := FeedCalls(hooks, d, calls);
            && e == DeliverAll(hooks, d, payloads)
            && Idle(e)
            && e.frames == d.frames + payloads
  {
    CutsAreInvisible(hooks, d, calls);
    StreamDecodes(hooks, d, payloads);
  }

  /** What a stream of frames of any lengths delivers. */
  function Delivered(payloads: seq<seq<bv8>>): seq<seq<bv8>> {
    if payloads == [] then []
    else
      var last := payloads[|payloads| - 1];
      Delivered(payloads[..|payloads| - 1]) + if |last| % MAX_ALLOWED == MAX_ALLOWED - 1 then [] else [Tail(last)]
  }

  lemma {:induction false} StreamDelivers<A, C>(hooks: Hooks<A, C>, d: Link<A, C>, payloads: seq<seq<bv8>>)
    requires Idle(d)
    ensures var e := Feed(hooks, d, Frames(payloads));
            Idle(e) && e.frames == d.frames + Delivered(payloads)
    decreases |payloads|
  {
    if payloads != [] {
      var front, last := payloads[..|payloads| - 1], payloads[|payloads| - 1];
      StreamDelivers(hooks, d, front);
      FramesSnoc(hooks, d, payloads);
      FrameDelivers(hooks, Feed(hooks, d, Frames(front)), last);
    }
  }

  lemma {:induction false} DeliveredAtMost(payloads: seq<seq<bv8>>)
    ensures |Delivered(payloads)| <= |payloads|
    decreases |payloads|
  {
    if payloads != [] {
      DeliveredAtMost(payloads[..|payloads| - 1]);
    }
  }

  lemma {:induction false} DeliveredIntactIff(payloads: seq<seq<bv8>>)
    ensures Delivered(payloads) == payloads <==> AllFit(payloads)
    decreases |payloads|
  {
    if payloads != [] {
      var front, last := payloads[..|payloads| - 1], payloads[|payloads| - 1];
      assert payloads == front + [last];
      AllFitSnoc(front, last);
      DeliveredIntactIff(front);
      DeliveredAtMost(front);
      TailIntactIff(last);
      var kept := if |last| % MAX_ALLOWED == MAX_ALLOWED - 1 then [] else [Tail(last)];
      assert Delivered(payloads) == Delivered(front) + kept;
      if Delivered(payloads) == payloads {
        assert |kept| == 1;
        assert Delivered(payloads)[..|front|] == front;
        assert Delivered(payloads)[|front|] == last;
      }
    }
  }

  /** A stream of frames arrives intact exactly when no payload is longer than 998 bytes. */
  lemma RoundTripIff<A, C>(hooks: Hooks<A, C>, d: Link<A, C>, payloads: seq<seq<bv8>>)
    requires Idle(d)
    ensures Feed(hooks, d, Frames(payloads)).frames == d.frames + payloads
            <==> AllFit(payloads)
  {
    StreamDelivers(hooks, d, payloads);
    DeliveredIntactIff(payloads);
    assert (d.frames + Delivered(payloads))[|d.frames|..] == Delivered(payloads);
    assert (d.frames + payloads)[|d.frames|..] == payloads;
  }

  // ---------------------------------------------------------------- recovery

  /** How an escaped byte moves a decoder that may be out of step. */
  lemma OutOfStepByte<A, C>(hooks: Hooks<A, C>, d: Link<A, C>, b: bv8)
    ensures var e := Feed(hooks, d, EscapeByte(b));
            && (e.prev == 2 <==> d.prev == 2 && b == 2)
  {
    if IsEscape(b) {
      FeedTwo(hooks, d, b, b);
    } else {
      FeedOne(hooks, d, b);
    }
  }

  predicate AllTwos(payload: seq<bv8>) {
    forall b | b in payload :: b == 2
  }

  lemma AllTwosSnoc(head: seq<bv8>, last: bv8)
    ensures AllTwos(head + [last]) <==> AllTwos(head) && last == 2
  {
    if AllTwos(head + [last]) {
      assert last in head + [last];
      forall b | b in head
        ensures b == 2
      {
        assert b in head + [last];
      }
    }
  }

  lemma {:induction false} OutOfStepPayload<A, C>(hooks: Hooks<A, C>, d: Link<A, C>, payload: seq<bv8>)
    ensures Feed(hooks, d, Escape(payload)).prev == 2 <==> d.prev == 2 && AllTwos(payload)
    decreases |payload|
  {
    if payload != [] {
      var head, last := payload[..|payload| - 1], payload[|payload| - 1];
      assert payload == head + [last];
      AllTwosSnoc(head, last);
      OutOfStepPayload(hooks, d, head);
      EscapedSnoc(hooks, d, head, last);
      OutOfStepByte(hooks, Feed(hooks, d, Escape(head)), last);
    }
  }

  lemma TrailerIdleIff<A, C>(hooks: Hooks<A, C>, d: Link<A, C>)
    ensures Idle(Feed(hooks, d, [2, 3])) <==> d.prev != 2
  {
    FeedTwo(hooks, d, 2, 3);
  }

  /** From any decoder state, one frame brings the decoder back to idle, except in one family of cases: a
      dangling 0x02 followed by a payload that is nothing but 0x02. */
  lemma ResynchronisesIff<A, C>(hooks: Hooks<A, C>, d: Link<A, C>, payload: seq<bv8>)
    ensures Idle(Feed(hooks, d, Frame(payload))) <==> !(d.prev == 2 && AllTwos(payload))
  {
    FeedConcat(hooks, d, Escape(payload), [2, 3]);
    OutOfStepPayload(hooks, d, payload);
    TrailerIdleIff(hooks, Feed(hooks, d, Escape(payload)));
  }

  /** Whatever came before, after one frame whose first byte is a command code every frame arrives. */
  lemma RecoversAfterGarbage<A, C>(hooks: Hooks<A, C>, d: Link<A, C>, garbage: seq<bv8>, first: seq<bv8>,
                                   payloads: seq<seq<bv8>>)
    requires first != [] && first[0] != 2
    requires AllFit(payloads)
    ensures var synchronised := Feed(hooks, d, garbage + Frame(first));
            var e := Feed(hooks, d, garbage + Frame(first) + Frames(payloads));
            && Idle(e)
            && e.frames == synchronised.frames + payloads
  {
    FeedConcat(hooks, d, garbage, Frame(first));
    ResynchronisesIff(hooks, Feed(hooks, d, garbage), first);
    assert first[0] in first;
    FeedConcat(hooks, d, garbage + Frame(first), Frames(payloads));
    StreamDecodes(hooks, Feed(hooks, d, garbage + Frame(first)), payloads);
  }
}
