/** The receive half of the PIC serial link: NMEAPkt as an object, and PicStream's byte framer. */
module PicLink {
  import opened Nmea
  import opened Options
  import opened NmeaParams
  import opened Serial

  /** `sizeof(rxBuff)` */
  const RX_MAX: nat := 2 * SERIAL_RAW_MAX_LEN

  /** What `encode` produces: the checksum covers everything up to the first '*'. */
  function Encoded(page: u8, params: Option<seq<u8>>): seq<u8> {
    var text := [DOLLAR] + Body(page, params) + [STAR];
    text + Hex2(Checksum(text)) + [NUL]
  }

  lemma EncodedIsPacket(page: u8, params: Option<seq<u8>>)
    requires Plain(params)
    ensures Encoded(page, params) == Packet(page, params)
  {
    BodyIsPlain(page, params);
    ChecksumOf(Body(page, params), []);
    assert [DOLLAR] + Body(page, params) + [STAR] + [] == [DOLLAR] + Body(page, params) + [STAR];
  }

  lemma NulIsLast(s: seq<u8>, i: nat)
    requires i < |s| && s[i] == NUL && NUL !in s[..|s| - 1]
    ensures i == |s| - 1
  {
    assert forall k | 0 <= k < |s| - 1 :: s[k] in s[..|s| - 1];
  }

  // ---------------------------------------------------------------- NMEAPkt

  class NmeaPkt {
    const raw: array<u8>
    var rawLen: nat
    var chks: u8
    var page: u8
    var nextParamPtr: Option<nat>

    constructor ()
      ensures raw.Length == SERIAL_RAW_MAX_LEN && fresh(raw) && rawLen == 0 && nextParamPtr == None
    {
      raw := new u8[SERIAL_RAW_MAX_LEN](_ => 0);
      rawLen, chks, page, nextParamPtr := 0, 0, 0, None;
    }

    /** Copy `text` into the buffer at `at`, as `snprintf` and `memcpy` do when it fits. */
    method Write(at: nat, text: seq<u8>)
      requires at + |text| <= raw.Length
      modifies raw
      ensures raw[..at] == old(raw[..at]) && raw[at..at + |text|] == text
    {
      for i := 0 to |text|
        invariant raw[..at] == old(raw[..at]) && raw[at..at + i] == text[..i]
      {
        raw[at + i] := text[i];
        assert raw[at..at + i + 1] == raw[at..at + i] + [text[i]];
      }
      assert text[..|text|] == text;
    }

    method ObtainChecksum() returns (sum: u8)
      requires rawLen <= raw.Length
      ensures sum == Checksum(raw[..rawLen])
    {
      ghost var s := raw[..rawLen];
      sum := 0;
      if rawLen == 0 {
        return;
      }
      var i := 1;
      while i < rawLen
        invariant 1 <= i <= rawLen
        invariant STAR !in s[1..i] && sum == XorAll(s[1..i])
      {
        if raw[i] == STAR {
          FindFirst(s, STAR, 1, i);
          return;
        }
        assert s[1..i + 1] == s[1..i] + [raw[i]];
        sum := Xor8(sum, raw[i]);
        i := i + 1;
      }
      assert s[1..i] == s[1..];
      FindNothing(s, STAR, 1);
    }

    /** `encode`, for text that fits the buffer. */
    method Encode(newPage: u8, params: Option<seq<u8>>)
      requires raw.Length == SERIAL_RAW_MAX_LEN && |Encoded(newPage, params)| <= SERIAL_RAW_MAX_LEN
      modifies this`page, this`rawLen, this`chks, raw
      ensures rawLen == |Encoded(newPage, params)| && raw[..rawLen] == Encoded(newPage, params)
      ensures page == newPage && chks == Checksum([DOLLAR] + Body(newPage, params) + [STAR])
    {
      page := newPage;
      var text := [DOLLAR] + Body(newPage, params) + [STAR];
      Write(0, text);
      rawLen := |text|;
      assert raw[..rawLen] == raw[0..0 + |text|];
      AppendChecksum(text);
    }

    /** The end of `encode`: the checksum of the text, and the terminating zero. */
    method AppendChecksum(text: seq<u8>)
      requires rawLen == |text| && rawLen + 3 <= raw.Length && raw[..rawLen] == text
      modifies this`rawLen, this`chks, raw
      ensures chks == Checksum(text)
      ensures rawLen == |text| + 3 && raw[..rawLen] == text + Hex2(chks) + [NUL]
    {
      chks := ObtainChecksum();
      Write(rawLen, Hex2(chks) + [NUL]);
      assert raw[..|text| + 3] == raw[..|text|] + raw[|text|..|text| + 3];
      rawLen := rawLen + 3;
    }

    /** `parseArray`. The source reads the bytes around a '*' four places from the end, and parses numbers up
        to the terminating zero, so an array that starts with '$' must have room for both. */
    method ParseArray(data: seq<u8>) returns (ok: bool)
      requires raw.Length == SERIAL_RAW_MAX_LEN
      requires data != [] && (data[0] == DOLLAR ==> |data| >= 4 && data[|data| - 1] == NUL)
      modifies this, raw
      ensures ok == Accepts(data)
      ensures ok ==> rawLen == |data| <= SERIAL_RAW_MAX_LEN && raw[..rawLen] == data
      ensures ok ==> page == PageOf(data) && chks == Checksum(data) && nextParamPtr == Some(0)
    {
      if data[0] != DOLLAR || data[|data| - 4] != STAR {
        return false;
      }
      rawLen := |data|;
      if !(0 < rawLen <= SERIAL_RAW_MAX_LEN) {
        return false;
      }
      Write(0, data);
      assert raw[..rawLen] == raw[0..0 + |data|];
      nextParamPtr := Some(0);
      chks := StrtolByte(data[|data| - 3..], 16);
      page := PageOf(data);
      var sum := ObtainChecksum();
      ok := sum == chks;
    }

    /** `strstr` for one character: the search ends at the terminating zero. */
    method Strstr(from: nat, c: u8) returns (found: Option<nat>)
      requires 0 < rawLen <= raw.Length && from < rawLen
      requires c != NUL && raw[rawLen - 1] == NUL && NUL !in raw[..rawLen - 1]
      ensures found == Find(raw[..rawLen], c, from)
    {
      ghost var s := raw[..rawLen];
      var i := from;
      while raw[i] != NUL
        invariant from <= i < rawLen && c !in s[from..i]
        decreases rawLen - i
      {
        if raw[i] == c {
          FindFirst(s, c, from, i);
          return Some(i);
        }
        assert s[from..i + 1] == s[from..i] + [raw[i]];
        assert i < rawLen - 1;
        i := i + 1;
      }
      NulIsLast(s, i);
      assert s[from..] == s[from..i] + [NUL];
      FindNothing(s, c, from);
      found := None;
    }

    /** `nextParam`. A comma with neither a comma nor a '*' after it has no parameter the source could
        delimit, so the packet must not end in one. */
    method NextParam() returns (param: Param)
      requires nextParamPtr.Some? ==>
                 && 0 < rawLen <= raw.Length && nextParamPtr.value < rawLen
                 && raw[rawLen - 1] == NUL && NUL !in raw[..rawLen - 1]
                 && (Find(raw[..rawLen], COMMA, nextParamPtr.value).Some? ==> Next(raw[..rawLen], nextParamPtr).1.At?)
      modifies this`nextParamPtr
      ensures old(nextParamPtr).None? ==> param == Exhausted && nextParamPtr == None
      ensures old(nextParamPtr).Some? ==> (nextParamPtr, param) == Next(raw[..rawLen], old(nextParamPtr))
      ensures nextParamPtr.Some? ==> nextParamPtr.value < rawLen
    {
      if nextParamPtr == None {
        return Exhausted;
      }
      ghost var p := nextParamPtr.value;
      FindAfter(raw[..rawLen], COMMA, p);
      var limit1 := Strstr(nextParamPtr.value, COMMA);
      if limit1 == None {
        nextParamPtr := None;
        return NoMore;
      }
      var limit2 := EndOfParam(limit1.value + 1, p);
      nextParamPtr := Some(limit2);
      param := At(limit1.value + 1, limit2 - (limit1.value + 1));
    }

    /** The next comma, or the '*' after the last parameter. */
    method EndOfParam(start: nat, ghost p: nat) returns (limit: nat)
      requires 0 < rawLen <= raw.Length && 0 < start < rawLen && p < rawLen
      requires raw[rawLen - 1] == NUL && NUL !in raw[..rawLen - 1]
      requires Find(raw[..rawLen], COMMA, p) == Some(start - 1) && Next(raw[..rawLen], Some(p)).1.At?
      ensures start <= limit < rawLen
      ensures Next(raw[..rawLen], Some(p)) == (Some(limit), At(start, limit - start))
    {
      FindAfter(raw[..rawLen], COMMA, start);
      FindAfter(raw[..rawLen], STAR, start);
      var found := Strstr(start, COMMA);
      if found == None {
        found := Strstr(start, STAR);
      }
      limit := found.value;
    }
  }

  // ---------------------------------------------------------------- the byte framer, as a function

  /** One received byte: the buffer afterwards, and the packets handed to the parser. */
  function Receive(rx: seq<u8>, b: u8): (seq<u8>, seq<seq<u8>>) {
    if b == DOLLAR then ([DOLLAR], [])
    else if b == NUL then ([], if Accepts(rx + [NUL]) then [rx + [NUL]] else [])
    else (rx + [b], [])
  }

  function Feed(rx: seq<u8>, bytes: seq<u8>): (seq<u8>, seq<seq<u8>>) {
    if bytes == [] then (rx, [])
    else
      var (before, packets) := Feed(rx, bytes[..|bytes| - 1]);
      var (after, more) := Receive(before, bytes[|bytes| - 1]);
      (after, packets + more)
  }

  lemma {:induction false} FeedConcat(rx: seq<u8>, a: seq<u8>, b: seq<u8>)
    ensures Feed(rx, a + b).0 == Feed(Feed(rx, a).0, b).0
    ensures Feed(rx, a + b).1 == Feed(rx, a).1 + Feed(Feed(rx, a).0, b).1
    decreases |b|
  {
    if b == [] {
      assert a + b == a;
    } else {
      var last := |b| - 1;
      assert (a + b)[..|a + b| - 1] == a + b[..last];
      FeedConcat(rx, a, b[..last]);
    }
  }

  /** Ordinary bytes only pile up. */
  lemma {:induction false} OrdinaryBytes(rx: seq<u8>, bytes: seq<u8>)
    requires DOLLAR !in bytes && NUL !in bytes
    ensures Feed(rx, bytes).0 == rx + bytes && Feed(rx, bytes).1 == []
    decreases |bytes|
  {
    if bytes == [] {
      assert rx + [] == rx;
    } else {
      var last := |bytes| - 1;
      assert bytes == bytes[..last] + [bytes[last]];
      OrdinaryBytes(rx, bytes[..last]);
      assert rx + bytes[..last] + [bytes[last]] == rx + bytes;
    }
  }

  lemma FeedOne(rx: seq<u8>, b: u8)
    ensures Feed(rx, [b]).0 == Receive(rx, b).0 && Feed(rx, [b]).1 == Receive(rx, b).1
  {
    assert [b][..0] == [];
    assert [] + Receive(rx, b).1 == Receive(rx, b).1;
  }

  /** After a '$' everything before it is forgotten: "$text\0" is judged on its own. */
  lemma FromDollar(rx: seq<u8>, text: seq<u8>)
    requires DOLLAR !in text && NUL !in text
    ensures var p := [DOLLAR] + text + [NUL];
            && Feed(rx, p).0 == []
            && Feed(rx, p).1 == if Accepts(p) then [p] else []
  {
    var p := [DOLLAR] + text + [NUL];
    FeedConcat(rx, [DOLLAR] + text, [NUL]);
    FeedConcat(rx, [DOLLAR], text);
    FeedOne(rx, DOLLAR);
    OrdinaryBytes([DOLLAR], text);
    FeedOne([DOLLAR] + text, NUL);
  }

  lemma PacketText(page: u8, params: Option<seq<u8>>)
    requires Plain(params)
    ensures var text := Body(page, params) + [STAR] + Hex2(XorAll(Body(page, params)));
            && Packet(page, params) == [DOLLAR] + text + [NUL]
            && NUL !in text
            && (DOLLAR in text <==> params.Some? && DOLLAR in params.value)
  {
    BodyIsPlain(page, params);
    var hex := Hex2(XorAll(Body(page, params)));
    assert NUL !in hex && DOLLAR !in hex && DOLLAR !in Dec2(page);
    assert DOLLAR in Body(page, params) <==> params.Some? && DOLLAR in params.value;
  }

  predicate NoDollar(params: Option<seq<u8>>) {
    params.Some? ==> DOLLAR !in params.value
  }

  lemma {:induction false} LastDollar(s: seq<u8>) returns (k: nat)
    requires DOLLAR in s
    ensures k < |s| && s[k] == DOLLAR && DOLLAR !in s[k + 1..]
    decreases |s|
  {
    var last := |s| - 1;
    if s[last] == DOLLAR {
      k := last;
      assert s[last + 1..] == [];
    } else {
      assert s == s[..last] + [s[last]];
      k := LastDollar(s[..last]);
      assert s[k + 1..] == s[..last][k + 1..] + [s[last]];
    }
  }

  lemma WithDollar(rx: seq<u8>, text: seq<u8>)
    requires DOLLAR in text && NUL !in text
    ensures var p := [DOLLAR] + text + [NUL];
            && Feed(rx, p).0 == []
            && Feed(rx, p).1 != [p]
  {
    var k := LastDollar(text);
    var front, back := [DOLLAR] + text[..k], text[k + 1..];
    var p, q := [DOLLAR] + text + [NUL], [DOLLAR] + back + [NUL];
    assert p == front + q;
    FeedConcat(rx, front, q);
    FrontDeliversNothing(rx, text[..k]);
    FromDollar(Feed(rx, front).0, back);
    assert |q| < |p|;
    assert Feed(rx, p).1 == [] || Feed(rx, p).1[0] == q;
  }

  /** From any buffer contents, an encoded packet is handed to the parser exactly once, and leaves the
      framer empty, if and only if its parameters hold no '$'. */
  lemma ResynchronisesIff(rx: seq<u8>, page: u8, params: Option<seq<u8>>)
    requires Plain(params) && Fits(page, params)
    ensures Feed(rx, Packet(page, params)).0 == []
    ensures Feed(rx, Packet(page, params)).1 == [Packet(page, params)] <==> NoDollar(params)
  {
    var text := Body(page, params) + [STAR] + Hex2(XorAll(Body(page, params)));
    PacketText(page, params);
    if NoDollar(params) {
      PacketParses(page, params);
      FromDollar(rx, text);
    } else {
      WithDollar(rx, text);
    }
  }

  lemma {:induction false} NothingWithoutNul(rx: seq<u8>, bytes: seq<u8>)
    requires NUL !in bytes
    ensures Feed(rx, bytes).1 == []
    decreases |bytes|
  {
    if bytes != [] {
      var last := |bytes| - 1;
      assert bytes == bytes[..last] + [bytes[last]];
      NothingWithoutNul(rx, bytes[..last]);
    }
  }

  lemma FrontDeliversNothing(rx: seq<u8>, text: seq<u8>)
    requires NUL !in text
    ensures Feed(rx, [DOLLAR] + text).1 == []
  {
    NothingWithoutNul(rx, [DOLLAR] + text);
  }

  // ---------------------------------------------------------------- streams

  datatype Message = Message(page: u8, params: Option<seq<u8>>)

  predicate Sendable(m: Message) {
    Plain(m.params) && NoDollar(m.params) && Fits(m.page, m.params)
  }

  function Bytes(m: Message): seq<u8> {
    Packet(m.page, m.params)
  }

  /** A packet may arrive whole, or lose everything from some byte before its terminating zero on. */
  datatype Arrival = Whole(m: Message) | Cut(m: Message, at: nat)

  predicate Legal(a: Arrival) {
    Sendable(a.m) && (a.Cut? ==> a.at < |Bytes(a.m)|)
  }

  function ArrivalBytes(a: Arrival): seq<u8>
    requires Legal(a)
  {
    if a.Whole? then Bytes(a.m) else Bytes(a.m)[..a.at]
  }

  function Stream(arrivals: seq<Arrival>): seq<u8>
    requires forall a | a in arrivals :: Legal(a)
  {
    if arrivals == [] then [] else Stream(arrivals[..|arrivals| - 1]) + ArrivalBytes(arrivals[|arrivals| - 1])
  }

  function WholeOnes(arrivals: seq<Arrival>): seq<seq<u8>> {
    if arrivals == [] then []
    else
      var last := arrivals[|arrivals| - 1];
      WholeOnes(arrivals[..|arrivals| - 1]) + if last.Whole? then [Bytes(last.m)] else []
  }

  /** Over any stream of packets, some of them cut short, exactly the whole ones are delivered, in order: a
      packet that loses its end never damages the next one. */
  lemma {:induction false} CutPacketsDoNoDamage(rx: seq<u8>, arrivals: seq<Arrival>)
    requires forall a | a in arrivals :: Legal(a)
    ensures Feed(rx, Stream(arrivals)).1 == WholeOnes(arrivals)
    decreases |arrivals|
  {
    if arrivals != [] {
      var front, last := arrivals[..|arrivals| - 1], arrivals[|arrivals| - 1];
      assert arrivals == front + [last];
      assert last in arrivals && forall a | a in front :: a in arrivals;
      CutPacketsDoNoDamage(rx, front);
      var before := Feed(rx, Stream(front)).0;
      FeedConcat(rx, Stream(front), ArrivalBytes(last));
      if last.Whole? {
        ResynchronisesIff(before, last.m.page, last.m.params);
      } else {
        PacketText(last.m.page, last.m.params);
        PrefixWithoutNul(last.m, last.at);
        NothingWithoutNul(before, ArrivalBytes(last));
      }
    }
  }

  lemma PrefixWithoutNul(m: Message, at: nat)
    requires Sendable(m) && at < |Bytes(m)|
    ensures NUL !in Bytes(m)[..at]
  {
    PacketText(m.page, m.params);
    var text := Body(m.page, m.params) + [STAR] + Hex2(XorAll(Body(m.page, m.params)));
    assert Bytes(m)[..at] == ([DOLLAR] + text)[..at];
  }

  /** What the source relies on when the next byte arrives: there is room for it, and a zero does not end a
      packet too short to hold a checksum. */
  predicate Ready(rx: seq<u8>, b: u8) {
    && |rx| < RX_MAX
    && (b == NUL && rx != [] && rx[0] == DOLLAR ==> |rx| >= 3)
  }

  /** Within one packet the buffer holds just the part of it that has arrived. */
  lemma PartOfPacket(rx: seq<u8>, m: Message, k: nat)
    requires Sendable(m) && 0 < k < |Bytes(m)|
    ensures Feed(rx, Bytes(m)[..k]).0 == Bytes(m)[..k] && NUL !in Bytes(m)[..k]
  {
    PacketText(m.page, m.params);
    var text := Body(m.page, m.params) + [STAR] + Hex2(XorAll(Body(m.page, m.params)));
    assert forall b | b in text[..k - 1] :: b in text;
    assert Bytes(m)[..k] == [DOLLAR] + text[..k - 1];
    FeedConcat(rx, [DOLLAR], text[..k - 1]);
    FeedOne(rx, DOLLAR);
    OrdinaryBytes([DOLLAR], text[..k - 1]);
  }

  lemma OnlyLastIsNul(m: Message, k: nat)
    requires Sendable(m) && k < |Bytes(m)| && Bytes(m)[k] == NUL
    ensures k == |Bytes(m)| - 1 && k >= 3
  {
    PacketText(m.page, m.params);
    var text := Body(m.page, m.params) + [STAR] + Hex2(XorAll(Body(m.page, m.params)));
    assert forall i | 0 <= i < |text| :: text[i] in text && Bytes(m)[i + 1] == text[i];
  }

  lemma ArrivalReady(rx: seq<u8>, a: Arrival, k: nat)
    requires |rx| < RX_MAX && Legal(a) && k < |ArrivalBytes(a)|
    ensures Ready(Feed(rx, ArrivalBytes(a)[..k]).0, ArrivalBytes(a)[k])
  {
    var packet := Bytes(a.m);
    assert ArrivalBytes(a)[..k] == packet[..k] && ArrivalBytes(a)[k] == packet[k];
    assert |packet| <= SERIAL_RAW_MAX_LEN;
    if packet[k] == NUL {
      OnlyLastIsNul(a.m, k);
    }
    if k > 0 {
      PartOfPacket(rx, a.m, k);
    }
  }

  lemma ArrivalLeavesRoom(rx: seq<u8>, a: Arrival)
    requires |rx| < RX_MAX && Legal(a)
    ensures |Feed(rx, ArrivalBytes(a)).0| < RX_MAX
  {
    if a.Whole? {
      ResynchronisesIff(rx, a.m.page, a.m.params);
    } else if a.at > 0 {
      PartOfPacket(rx, a.m, a.at);
    }
  }

  lemma {:induction false} StreamLeavesRoom(rx: seq<u8>, arrivals: seq<Arrival>)
    requires |rx| < RX_MAX && forall a | a in arrivals :: Legal(a)
    ensures |Feed(rx, Stream(arrivals)).0| < RX_MAX
    decreases |arrivals|
  {
    if arrivals != [] {
      var front, last := arrivals[..|arrivals| - 1], arrivals[|arrivals| - 1];
      assert last in arrivals && forall a | a in front :: a in arrivals;
      StreamLeavesRoom(rx, front);
      FeedConcat(rx, Stream(front), ArrivalBytes(last));
      ArrivalLeavesRoom(Feed(rx, Stream(front)).0, last);
    }
  }

  /** Where a byte falls in two strings of bytes, one after the other. */
  lemma ReadyInSum(rx: seq<u8>, a: seq<u8>, b: seq<u8>, k: nat)
    requires k < |a + b|
    ensures Ready(Feed(rx, (a + b)[..k]).0, (a + b)[k]) <==>
            if k < |a| then Ready(Feed(rx, a[..k]).0, a[k])
            else Ready(Feed(Feed(rx, a).0, b[..k - |a|]).0, b[k - |a|])
  {
    if k < |a| {
      assert (a + b)[..k] == a[..k];
    } else {
      assert (a + b)[..k] == a + b[..k - |a|];
      FeedConcat(rx, a, b[..k - |a|]);
    }
  }

  /** All along such a stream, whatever incomplete text the buffer starts with, every byte finds the framer
      ready: the buffer never fills up and no packet too short to parse is ended. */
  lemma {:induction false} StreamIsReady(rx: seq<u8>, arrivals: seq<Arrival>, k: nat)
    requires |rx| < RX_MAX && forall a | a in arrivals :: Legal(a)
    ensures k < |Stream(arrivals)| ==> Ready(Feed(rx, Stream(arrivals)[..k]).0, Stream(arrivals)[k])
    decreases |arrivals|
  {
    if k < |Stream(arrivals)| {
      var front, last := arrivals[..|arrivals| - 1], arrivals[|arrivals| - 1];
      assert last in arrivals && forall a | a in front :: a in arrivals;
      ReadyInSum(rx, Stream(front), ArrivalBytes(last), k);
      if k < |Stream(front)| {
        StreamIsReady(rx, front, k);
      } else {
        StreamLeavesRoom(rx, front);
        ArrivalReady(Feed(rx, Stream(front)).0, last, k - |Stream(front)|);
      }
    }
  }

  // ---------------------------------------------------------------- PicStream

  class PicStream {
    const rxBuff: array<u8>
    const pktRx: NmeaPkt
    var rxBuffLastPos: nat
    /** The packets handed to the parser. */
    ghost var delivered: seq<seq<u8>>

    ghost predicate Valid()
      reads this
    {
      && rxBuff.Length == RX_MAX && pktRx.raw.Length == SERIAL_RAW_MAX_LEN
      && rxBuff != pktRx.raw && rxBuffLastPos <= RX_MAX
    }

    constructor ()
      ensures Valid() && rxBuffLastPos == 0 && delivered == []
      ensures fresh(rxBuff) && fresh(pktRx) && fresh(pktRx.raw)
    {
      rxBuff := new u8[RX_MAX](_ => 0);
      var pkt := new NmeaPkt();
      pktRx := pkt;
      rxBuffLastPos, delivered := 0, [];
    }

    /** The receive half of one iteration of `task`. The source has no bound check: it relies on a '$' or a
        zero arriving before the buffer is full, and on nothing shorter than "$*HH" being terminated. The
        result says whether the parser is called, with `pktRx`. */
    method ReceiveByte(b: u8) returns (parsed: bool)
      requires Valid() && Ready(rxBuff[..rxBuffLastPos], b)
      modifies this`rxBuffLastPos, this`delivered, rxBuff, pktRx, pktRx.raw
      ensures Valid()
      ensures rxBuff[..rxBuffLastPos] == Receive(old(rxBuff[..rxBuffLastPos]), b).0
      ensures delivered == old(delivered) + Receive(old(rxBuff[..rxBuffLastPos]), b).1
      ensures parsed == (Receive(old(rxBuff[..rxBuffLastPos]), b).1 != [])
      ensures parsed ==> pktRx.rawLen <= SERIAL_RAW_MAX_LEN
                         && Receive(old(rxBuff[..rxBuffLastPos]), b).1 == [pktRx.raw[..pktRx.rawLen]]
                         && pktRx.page == PageOf(pktRx.raw[..pktRx.rawLen]) && pktRx.nextParamPtr == Some(0)
    {
      parsed := false;
      rxBuff[rxBuffLastPos] := b;
      if rxBuff[rxBuffLastPos] == DOLLAR {
        rxBuff[0] := DOLLAR;
        rxBuffLastPos := 1;
        assert rxBuff[..1] == [DOLLAR];
      } else {
        rxBuffLastPos := rxBuffLastPos + 1;
        var data := rxBuff[..rxBuffLastPos];
        assert data == old(rxBuff[..rxBuffLastPos]) + [b];
        if b == NUL {
          parsed := pktRx.ParseArray(data);
          if parsed {
            delivered := delivered + [data];
          }
          rxBuffLastPos := 0;
        }
      }
    }
  }
}
