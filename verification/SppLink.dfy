/** The loops and buffers of main/blue/spp/btc_spp.c, proved against Framing.dfy. */
module SppLink {
  import opened Crc
  import opened Framing
  import opened Ota
  import opened OtaAgreement
  import opened Updater

  /** The transmit buffer of `btc_spp_send`. */
  const TX_BUFFER: nat := MAX_ALLOWED * 2 + 3

  lemma {:induction false} EscapeLength(payload: seq<bv8>)
    ensures |payload| <= |Escape(payload)| <= 2 * |payload|
    decreases |payload|
  {
    if payload != [] {
      EscapeLength(payload[..|payload| - 1]);
    }
  }

  /** Every payload up to the declared maximum fits the transmit buffer, however many bytes are doubled. */
  lemma TxBufferSuffices(payload: seq<bv8>)
    ensures |payload| <= MAX_ALLOWED ==> |Frame(payload)| <= TX_BUFFER
  {
    EscapeLength(payload);
  }

  predicate AllEscapes(payload: seq<bv8>) {
    forall b | b in payload :: IsEscape(b)
  }

  /** Only a payload of escape characters alone doubles in length. */
  lemma {:induction false} DoublesIff(payload: seq<bv8>)
    ensures |Escape(payload)| == 2 * |payload| <==> AllEscapes(payload)
    decreases |payload|
  {
    if payload != [] {
      var head, last := payload[..|payload| - 1], payload[|payload| - 1];
      assert payload == head + [last];
      DoublesIff(head);
      EscapeLength(head);
      if AllEscapes(payload) {
        assert last in payload && forall b | b in head :: b in payload;
      }
    }
  }

  /** The size test reserves no room for the trailer. The one family of payloads it lets through although their
      frames do not fit: 1001 bytes, every one of them 0x02 or 0x03. */
  predicate Overruns(payload: seq<bv8>) {
    |payload| == MAX_ALLOWED + 1 && AllEscapes(payload)
  }

  /** Exactly which payloads pass the size test of `btc_spp_send` without fitting its buffer. */
  lemma OverrunsIff(payload: seq<bv8>)
    ensures 2 * |payload| <= TX_BUFFER && |Frame(payload)| > TX_BUFFER <==> Overruns(payload)
  {
    EscapeLength(payload);
    DoublesIff(payload);
  }

  /** Such a payload: 1001 bytes of 0x02. */
  lemma OverrunExample()
    ensures var p := seq(MAX_ALLOWED + 1, i => 2 as bv8);
            2 * |p| <= TX_BUFFER && |Frame(p)| == TX_BUFFER + 1
  {
    var p := seq(MAX_ALLOWED + 1, i => 2 as bv8);
    DoublesIff(p);
  }

  /** `_add_escape_chars_and_end_chars`. The source refuses an empty payload and one whose doubled length
      does not fit, and otherwise writes a frame; the caller must leave room for the trailer. */
  method AddEscapeCharsAndEndChars(dest: array<bv8>, src: seq<bv8>) returns (j: nat)
    requires src != [] && 2 * |src| <= dest.Length ==> |Frame(src)| <= dest.Length
    modifies dest
    ensures src == [] || dest.Length < 2 * |src| ==> j == 0 && dest[..] == old(dest[..])
    ensures src != [] && 2 * |src| <= dest.Length ==>
              && j == |Frame(src)|
              && dest[..j] == Frame(src)
              && dest[j..] == old(dest[j..])
  {
    j := 0;
    if src == [] || dest.Length == 0 {
      return;
    }
    if !(dest.Length >= 2 * |src|) {
      return;
    }
    ghost var was := dest[..];
    j := WriteFrame(dest, src);
    assert dest[..j] == Frame(src) && dest[j..] == was[j..];
  }

  method WriteFrame(dest: array<bv8>, src: seq<bv8>) returns (j: nat)
    requires |Frame(src)| <= dest.Length
    modifies dest
    ensures Written(dest[..], old(dest[..]), Frame(src), j)
  {
    ghost var was := dest[..];
    j := 0;
    for i := 0 to |src|
      invariant Written(dest[..], was, Escape(src[..i]), j)
    {
      EscapePrefix(src, i);
      j := PutEscaped(dest, j, src[i], was, Escape(src[..i]));
    }
    assert src[..|src|] == src;
    j := Put(dest, j, 2, was, Escape(src));
    j := Put(dest, j, 3, was, Escape(src) + [2]);
    assert Escape(src) + [2] + [3] == Frame(src);
  }

  /** The first `j` bytes of the buffer are `done`, the others are as they were. */
  ghost predicate Written(now: seq<bv8>, was: seq<bv8>, done: seq<bv8>, j: nat) {
    j == |done| <= |now| == |was| && now == done + was[j..]
  }

  /** `dest[j++] = byte` */
  method Put(dest: array<bv8>, j: nat, byte: bv8, ghost was: seq<bv8>, ghost done: seq<bv8>) returns (next: nat)
    requires j < dest.Length && Written(dest[..], was, done, j)
    modifies dest
    ensures next == j + 1 && Written(dest[..], was, done + [byte], next)
  {
    ghost var before := dest[..];
    dest[j] := byte;
    next := j + 1;
    assert dest[..] == before[j := byte];
    Overwrite(was, done, byte);
  }

  method PutEscaped(dest: array<bv8>, j: nat, byte: bv8, ghost was: seq<bv8>, ghost done: seq<bv8>) returns (next: nat)
    requires j + |EscapeByte(byte)| <= dest.Length && Written(dest[..], was, done, j)
    modifies dest
    ensures next == j + |EscapeByte(byte)| && Written(dest[..], was, done + EscapeByte(byte), next)
  {
    next := Put(dest, j, byte, was, done);
    if byte == 2 || byte == 3 {
      next := Put(dest, next, byte, was, done + [byte]);
      assert done + [byte] + [byte] == done + EscapeByte(byte);
    }
  }

  lemma Overwrite(was: seq<bv8>, done: seq<bv8>, byte: bv8)
    requires |done| < |was|
    ensures (done + was[|done|..])[|done| := byte] == done + [byte] + was[|done| + 1..]
  {
  }

  lemma {:induction false} EscapePrefix(src: seq<bv8>, i: nat)
    requires i < |src|
    ensures Escape(src[..i + 1]) == Escape(src[..i]) + EscapeByte(src[i])
    ensures |Escape(src[..i + 1])| <= |Escape(src)|
    decreases |src|
  {
    assert src[..i + 1][..i] == src[..i];
    if i + 1 == |src| {
      assert src[..i + 1] == src;
    } else {
      var front := src[..|src| - 1];
      EscapePrefix(front, i);
      assert front[..i + 1] == src[..i + 1];
    }
  }

  /** The wrapped branch of `btc_spp_send`: what is written to the link. */
  method SppSend(buff: seq<bv8>) returns (written: seq<bv8>)
    requires !Overruns(buff)
    ensures written == if buff == [] || TX_BUFFER < 2 * |buff| then [] else Frame(buff)
  {
    if buff == [] {
      return [];
    }
    OverrunsIff(buff);
    var wrapped := new bv8[TX_BUFFER](_ => 0);
    var newLen := AddEscapeCharsAndEndChars(wrapped, buff);
    written := wrapped[..newLen];
  }

  /** The receive side: `_rxbuff`, `pos` and `prev_byte`, the CRC accumulator, and the parser it calls. */
  class Receiver {
    const rxbuff: array<bv8>
    const stream: CrcStream
    const parser: Updates
    var pos: nat
    var prevByte: bv8
    /** The packets the parser has been called with. */
    ghost var frames: seq<seq<bv8>>
    /** How many packets the parser has handled. */
    var handled: nat

    ghost predicate Valid()
      reads this
    {
      && rxbuff.Length == MAX_ALLOWED
      && pos <= MAX_ALLOWED
      && parser.Valid() && parser.classic && parser.stream == stream
    }

    ghost function Value(): Link<Host, Register>
      requires Valid()
      reads this, rxbuff, stream, parser, parser.espOta, parser.picOta
    {
      Link(rxbuff[..pos], prevByte, Low16(stream.crc), Host(parser.Value(), handled), frames)
    }

    constructor ()
      ensures Valid() && Value() == Link([], 0, SEED, Host(FreshApp(0), 0), [])
      ensures fresh(rxbuff) && fresh(stream) && fresh(parser) && fresh(parser.espOta) && fresh(parser.picOta)
    {
      rxbuff := new bv8[MAX_ALLOWED](_ => 0);
      var s := new CrcStream();
      var p := new Updates(true, s);
      stream, parser := s, p;
      pos, prevByte, frames, handled := 0, 0, [], 0;
    }

    /** The end of a frame: the packet is what was stored before the 0x02 of the trailer. */
    method HandOver(env: Environment)
      requires Valid() && pos > 0
      modifies this`frames, this`handled, rxbuff, stream, parser, parser.espOta, parser.picOta
      ensures Valid()
      ensures var before := old(Value()).(buf := []);
              Value().(buf := []) == Deliver(BtcHooks(env), before, old(Value()).buf[..pos - 1])
    {
      rxbuff[pos - 1] := 0;
      var pkt := rxbuff[..pos - 1];
      assert pkt == old(Value()).buf[..pos - 1];
      parser.ParsePkt(pkt, env(handled));
      handled := handled + 1;
      frames := frames + [pkt];
    }

    method Store(byte: bv8)
      requires Valid() && pos < MAX_ALLOWED
      modifies this`pos, this`prevByte, rxbuff, stream
      ensures Valid()
      ensures var d := old(Value());
              Value() == d.(buf := d.buf + [byte], prev := byte, crc := FoldPrevious(CrcStep, d.buf, d.crc))
    {
      if pos > 1 && rxbuff[0] == 0x14 {
        stream.crc := ByteCrcCcitt(rxbuff[pos - 1], stream.crc);
      }
      rxbuff[pos] := byte;
      pos := pos + 1;
      prevByte := byte;
    }

    /** The body of the loop of `_handle_wrapped_msg`. */
    method HandleByte(byte: bv8, env: Environment)
      requires Valid()
      modifies this, rxbuff, stream, parser, parser.espOta, parser.picOta
      ensures Valid()
      ensures Value() == Receive(BtcHooks(env), old(Value()), byte)
    {
      if pos >= MAX_ALLOWED {
        pos := 0;
      }
      if (byte == 2 || byte == 3) && prevByte == byte {
        prevByte := 0;
      } else if prevByte == 2 && byte == 3 {
        prevByte := 0;
        if pos > 0 {
          HandOver(env);
        }
        pos := 0;
      } else {
        Store(byte);
      }
    }

    /** `_handle_wrapped_msg`: decoder state is kept between calls. */
    method HandleWrappedMsg(src: seq<bv8>, env: Environment)
      requires Valid()
      modifies this, rxbuff, stream, parser, parser.espOta, parser.picOta
      ensures Valid()
      ensures Value() == Feed(BtcHooks(env), old(Value()), src)
    {
      for i := 0 to |src|
        invariant Valid()
        invariant Value() == Feed(BtcHooks(env), old(Value()), src[..i])
      {
        HandleByte(src[i], env);
        assert src[..i + 1][..|src[..i + 1]| - 1] == src[..i];
      }
      assert src[..|src|] == src;
    }
  }
}
