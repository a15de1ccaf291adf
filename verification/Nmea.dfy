/** The NMEA packets exchanged with the PIC: main/comms/NMEAPkt.cpp.

A packet is "$pp,field,field*HH" and a terminating zero, where pp is the decimal page and HH the exclusive
or of the bytes between '$' and '*'. This file gives the functions; PicLink.dfy the object.
*/
module Nmea {
  import opened Options
  import opened Serial

  type u8 = x: int | 0 <= x < 256

  const NUL: u8 := 0
  const DOLLAR: u8 := 36
  const STAR: u8 := 42
  const COMMA: u8 := 44

  // ---------------------------------------------------------------- exclusive or

  /** Bitwise exclusive or. */
  function Xor(a: nat, b: nat): nat
    decreases a + b
  {
    if a == 0 && b == 0 then 0 else (a + b) % 2 + 2 * Xor(a / 2, b / 2)
  }

  lemma {:induction false} XorFits(a: nat, b: nat, bound: nat, bits: nat)
    requires bound == Power2(bits) && a < bound && b < bound
    ensures Xor(a, b) < bound
    decreases bits
  {
    if bits > 0 {
      XorFits(a / 2, b / 2, bound / 2, bits - 1);
    }
  }

  function Power2(n: nat): (p: nat)
    ensures p > 0
  {
    if n == 0 then 1 else 2 * Power2(n - 1)
  }

  lemma BitAndRest(p: nat, x: nat, q: nat, y: nat)
    requires p < 2 && q < 2 && p + 2 * x == q + 2 * y
    ensures p == q && x == y
  {
  }

  lemma SameParity(a: nat, b: nat, c: nat)
    requires (a + b) % 2 == (a + c) % 2 && b / 2 == c / 2
    ensures b == c
  {
    assert b == 2 * (b / 2) + b % 2 && c == 2 * (c / 2) + c % 2;
  }

  lemma XorUnfold(a: nat, b: nat)
    ensures Xor(a, b) == (a + b) % 2 + 2 * Xor(a / 2, b / 2)
  {
  }

  lemma {:induction false} XorInjective(a: nat, b: nat, c: nat)
    requires Xor(a, b) == Xor(a, c)
    ensures b == c
    decreases a + b + c
  {
    if a + b + c > 0 {
      XorUnfold(a, b);
      XorUnfold(a, c);
      BitAndRest((a + b) % 2, Xor(a / 2, b / 2), (a + c) % 2, Xor(a / 2, c / 2));
      XorInjective(a / 2, b / 2, c / 2);
      SameParity(a, b, c);
    }
  }

  lemma {:induction false} XorCommutes(a: nat, b: nat)
    ensures Xor(a, b) == Xor(b, a)
    decreases a + b
  {
    if a + b > 0 {
      XorCommutes(a / 2, b / 2);
    }
  }

  function Xor8(a: u8, b: u8): u8 {
    assert Power2(8) == 256;
    XorFits(a, b, 256, 8);
    Xor(a, b)
  }

  function XorAll(s: seq<u8>): u8 {
    if s == [] then 0 else Xor8(XorAll(s[..|s| - 1]), s[|s| - 1])
  }

  // ---------------------------------------------------------------- digits

  function HexDigit(n: nat): u8
    requires n < 16
  {
    if n < 10 then 48 + n else 55 + n
  }

  /** "%02X" */
  function Hex2(n: u8): seq<u8> {
    [HexDigit(n / 16), HexDigit(n % 16)]
  }

  function LowerDigit(n: nat): u8
    requires n < 16
  {
    if n < 10 then 48 + n else 87 + n
  }

  /** "%02x" */
  function LowerHex2(n: u8): seq<u8> {
    [LowerDigit(n / 16), LowerDigit(n % 16)]
  }

  /** "%02d" */
  function Dec2(n: u8): seq<u8> {
    if n < 100 then [48 + n / 10, 48 + n % 10] else [48 + n / 100, 48 + n / 10 % 10, 48 + n % 10]
  }

  /** The value of a digit in any base, or 99. */
  function Digit(c: u8): nat {
    if 48 <= c <= 57 then c - 48
    else if 65 <= c <= 90 then c - 55
    else if 97 <= c <= 122 then c - 87
    else 99
  }

  function DigitsValue(s: seq<u8>, base: nat, value: nat): nat {
    if s == [] || Digit(s[0]) >= base then value else DigitsValue(s[1..], base, value * base + Digit(s[0]))
  }

  predicate IsSpace(c: u8) {
    c == 32 || 9 <= c <= 13
  }

  function SkipSpace(s: seq<u8>): seq<u8> {
    if s != [] && IsSpace(s[0]) then SkipSpace(s[1..]) else s
  }

  function SkipSign(s: seq<u8>): seq<u8> {
    if s != [] && (s[0] == 43 || s[0] == 45) then s[1..] else s
  }

  function SkipPrefix(s: seq<u8>, base: nat): seq<u8> {
    if base == 16 && |s| >= 3 && s[0] == 48 && (s[1] == 120 || s[1] == 88) && Digit(s[2]) < 16 then s[2..] else s
  }

  /** `(uint8_t) strtol(s, NULL, base)` with a 32-bit long, `s` ending where the string does. */
  function StrtolByte(s: seq<u8>, base: nat): u8 {
    var t := SkipSpace(s);
    var value := DigitsValue(SkipPrefix(SkipSign(t), base), base, 0);
    if t != [] && t[0] == 45 then (if value > 0x8000_0000 then 0 else (0 - value as int) % 256)
    else (if value > 0x7FFF_FFFF then 255 else value % 256)
  }

  lemma HexRoundTrip(n: u8, rest: seq<u8>)
    ensures StrtolByte(Hex2(n) + [NUL] + rest, 16) == n
  {
    var s := Hex2(n) + [NUL] + rest;
    var h, l := n / 16, n % 16;
    assert s[0] == HexDigit(h) && Digit(s[0]) == h;
    assert s[1] == HexDigit(l) && Digit(s[1]) == l;
    assert SkipPrefix(SkipSign(SkipSpace(s)), 16) == s;
    assert s[1..][0] == s[1] && s[1..][1..][0] == NUL;
    assert DigitsValue(s, 16, 0) == DigitsValue(s[1..], 16, h);
    assert DigitsValue(s[1..], 16, h) == DigitsValue(s[1..][1..], 16, h * 16 + l);
  }

  lemma OneDigit(s: seq<u8>, base: nat, value: nat, d: nat, rest: seq<u8>)
    requires d < 10 <= base && s == [48 + d] + rest
    ensures DigitsValue(s, base, value) == DigitsValue(rest, base, value * base + d)
  {
    assert s[1..] == rest;
  }

  lemma TwoDigits(a: nat, b: nat, rest: seq<u8>)
    requires a < 10 && b < 10 && rest != [] && Digit(rest[0]) >= 10
    ensures DigitsValue([48 + a, 48 + b] + rest, 10, 0) == a * 10 + b
  {
    var last := [48 + b] + rest;
    assert [48 + a, 48 + b] + rest == [48 + a] + last;
    OneDigit([48 + a] + last, 10, 0, a, last);
    OneDigit(last, 10, a, b, rest);
  }

  lemma ThreeDigits(a: nat, b: nat, c: nat, rest: seq<u8>)
    requires a < 10 && b < 10 && c < 10 && rest != [] && Digit(rest[0]) >= 10
    ensures DigitsValue([48 + a, 48 + b, 48 + c] + rest, 10, 0) == (a * 10 + b) * 10 + c
  {
    var last := [48 + c] + rest;
    var tens := [48 + b] + last;
    assert [48 + a, 48 + b, 48 + c] + rest == [48 + a] + tens;
    OneDigit([48 + a] + tens, 10, 0, a, tens);
    OneDigit(tens, 10, a, b, last);
    OneDigit(last, 10, a * 10 + b, c, rest);
  }

  /** The decimal digits of a byte, and what they add up to. */
  lemma DecimalDigits(n: u8)
    ensures n < 100 ==> Dec2(n) == [48 + n / 10, 48 + n % 10] && n / 10 * 10 + n % 10 == n
    ensures n >= 100 ==> Dec2(n) == [48 + n / 100, 48 + n / 10 % 10, 48 + n % 10]
                         && (n / 100 * 10 + n / 10 % 10) * 10 + n % 10 == n
    ensures n < 100 ==> n / 10 < 10
  {
  }

  lemma DecDigits(n: u8, rest: seq<u8>)
    requires rest != [] && Digit(rest[0]) >= 10
    ensures DigitsValue(Dec2(n) + rest, 10, 0) == n
  {
    DecimalDigits(n);
    if n < 100 {
      TwoDigits(n / 10, n % 10, rest);
    } else {
      ThreeDigits(n / 100, n / 10 % 10, n % 10, rest);
    }
  }

  lemma NothingToSkip(s: seq<u8>)
    requires s != [] && Digit(s[0]) < 10
    ensures SkipPrefix(SkipSign(SkipSpace(s)), 10) == s && SkipSpace(s) == s && s[0] != 45
  {
  }

  lemma DecRoundTrip(n: u8, rest: seq<u8>)
    requires rest != [] && Digit(rest[0]) >= 10
    ensures StrtolByte(Dec2(n) + rest, 10) == n
  {
    DecDigits(n, rest);
    NothingToSkip(Dec2(n) + rest);
  }

  // ---------------------------------------------------------------- whole packets

  /** The index of the first `c` at or after `from`, searching no further than the end of `s`. */
  function Find(s: seq<u8>, c: u8, from: nat): Option<nat>
    decreases |s| - from
  {
    if from >= |s| then None else if s[from] == c then Some(from) else Find(s, c, from + 1)
  }

  /** `obtainChecksum`: everything after the first byte, up to the first '*'. */
  function Checksum(raw: seq<u8>): u8 {
    match Find(raw, STAR, 1)
    case Some(k) => if k >= 1 && k <= |raw| then XorAll(raw[1..k]) else 0
    case None => if |raw| >= 1 then XorAll(raw[1..]) else 0
  }

  /** What stands between '$' and '*'. */
  function Body(page: u8, params: Option<seq<u8>>): seq<u8> {
    Dec2(page) + (if params.Some? then [COMMA] + params.value else [])
  }

  /** The bytes of a packet, terminating zero included. */
  function Packet(page: u8, params: Option<seq<u8>>): seq<u8> {
    var body := Body(page, params);
    [DOLLAR] + body + [STAR] + Hex2(XorAll(body)) + [NUL]
  }

  /** `parseArray` accepts. */
  predicate Accepts(data: seq<u8>) {
    && 4 <= |data| <= SERIAL_RAW_MAX_LEN
    && data[0] == DOLLAR
    && data[|data| - 4] == STAR
    && Checksum(data) == StrtolByte(data[|data| - 3..], 16)
  }

  function PageOf(data: seq<u8>): u8
    requires data != []
  {
    StrtolByte(data[1..], 10)
  }

  /** A parameter string the packet format can carry. */
  predicate Plain(params: Option<seq<u8>>) {
    params.Some? ==> NUL !in params.value && STAR !in params.value
  }

  predicate Fits(page: u8, params: Option<seq<u8>>) {
    |Packet(page, params)| <= SERIAL_RAW_MAX_LEN
  }

  lemma {:induction false} FindFirst(s: seq<u8>, c: u8, from: nat, k: nat)
    requires from <= k < |s| && s[k] == c && c !in s[from..k]
    ensures Find(s, c, from) == Some(k)
    decreases k - from
  {
    if from < k {
      assert s[from] == s[from..k][0];
      assert s[from + 1..k] == s[from..k][1..];
      FindFirst(s, c, from + 1, k);
    }
  }

  lemma {:induction false} FindNothing(s: seq<u8>, c: u8, from: nat)
    requires from <= |s| && c !in s[from..]
    ensures Find(s, c, from) == None
    decreases |s| - from
  {
    if from < |s| {
      assert s[from] == s[from..][0];
      assert s[from + 1..] == s[from..][1..];
      FindNothing(s, c, from + 1);
    }
  }

  lemma ChecksumOf(body: seq<u8>, tail: seq<u8>)
    requires STAR !in body
    ensures Checksum([DOLLAR] + body + [STAR] + tail) == XorAll(body)
  {
    var s := [DOLLAR] + body + [STAR] + tail;
    assert s[1..|body| + 1] == body;
    FindFirst(s, STAR, 1, |body| + 1);
  }

  lemma BodyIsPlain(page: u8, params: Option<seq<u8>>)
    requires Plain(params)
    ensures STAR !in Body(page, params) && NUL !in Body(page, params)
  {
    assert STAR !in Dec2(page) && NUL !in Dec2(page);
  }

  /** What makes a well-delimited packet acceptable. */
  lemma AcceptsIff(body: seq<u8>, sum: u8)
    requires STAR !in body
    ensures var p := [DOLLAR] + body + [STAR] + (Hex2(sum) + [NUL]);
            && StrtolByte(p[|p| - 3..], 16) == sum
            && Checksum(p) == XorAll(body)
            && (Accepts(p) <==> |p| <= SERIAL_RAW_MAX_LEN && XorAll(body) == sum)
  {
    var hex := Hex2(sum) + [NUL];
    var p := [DOLLAR] + body + [STAR] + hex;
    ChecksumOf(body, hex);
    HexRoundTrip(sum, []);
    assert p[|p| - 3..] == Hex2(sum) + [NUL] + [];
  }

  /** An encoded packet parses to the page and checksum it was made from. */
  lemma PacketParses(page: u8, params: Option<seq<u8>>)
    requires Plain(params) && Fits(page, params)
    ensures var p := Packet(page, params);
            && Accepts(p)
            && PageOf(p) == page
            && StrtolByte(p[|p| - 3..], 16) == Checksum(p) == XorAll(Body(page, params))
  {
    BodyIsPlain(page, params);
    PacketShape(page, params);
    AcceptsIff(Body(page, params), XorAll(Body(page, params)));
    PageParses(page, params);
  }

  lemma PageParses(page: u8, params: Option<seq<u8>>)
    ensures PageOf(Packet(page, params)) == page
  {
    var rest := (if params.Some? then [COMMA] + params.value else []) + [STAR]
                + (Hex2(XorAll(Body(page, params))) + [NUL]);
    assert Packet(page, params)[1..] == Dec2(page) + rest;
    DecRoundTrip(page, rest);
  }

  lemma PacketShape(page: u8, params: Option<seq<u8>>)
    ensures var body := Body(page, params);
            Packet(page, params) == [DOLLAR] + body + [STAR] + (Hex2(XorAll(body)) + [NUL])
  {
  }

  // ---------------------------------------------------------------- corruption

  lemma {:induction false} XorAllDiffers(before: seq<u8>, x: u8, y: u8, after: seq<u8>)
    requires x != y
    ensures XorAll(before + [x] + after) != XorAll(before + [y] + after)
    decreases |after|
  {
    var s, t := before + [x] + after, before + [y] + after;
    if after == [] {
      assert s[..|s| - 1] == before && t[..|t| - 1] == before;
      if XorAll(s) == XorAll(t) {
        XorInjective(XorAll(before), x, y);
      }
    } else {
      var last := |after| - 1;
      assert s[..|s| - 1] == before + [x] + after[..last] && t[..|t| - 1] == before + [y] + after[..last];
      XorAllDiffers(before, x, y, after[..last]);
      var a, b := XorAll(before + [x] + after[..last]), XorAll(before + [y] + after[..last]);
      XorCommutes(a, after[last]);
      XorCommutes(b, after[last]);
      if XorAll(s) == XorAll(t) {
        XorInjective(after[last], a, b);
      }
    }
  }

  lemma CorruptSum(body: seq<u8>, i: nat, bad: u8)
    requires i < |body| && bad != body[i]
    ensures XorAll(body[i := bad]) != XorAll(body)
  {
    var changed := body[i := bad];
    assert body == body[..i] + [body[i]] + body[i + 1..];
    assert changed == body[..i] + [bad] + body[i + 1..];
    XorAllDiffers(body[..i], body[i], bad, body[i + 1..]);
  }

  lemma CorruptShape(page: u8, params: Option<seq<u8>>, i: nat, bad: u8)
    requires 1 <= i < |Body(page, params)| + 1
    ensures var body := Body(page, params);
            Packet(page, params)[i := bad] == [DOLLAR] + body[i - 1 := bad] + [STAR] + (Hex2(XorAll(body)) + [NUL])
  {
    PacketShape(page, params);
  }

  /** A packet in which one byte between '$' and '*' has been changed to any other byte but '*' is rejected. */
  lemma CorruptionRejected(page: u8, params: Option<seq<u8>>, i: nat, bad: u8, received: seq<u8>)
    requires Plain(params)
    requires 1 <= i < |Body(page, params)| + 1
    requires bad != STAR && bad != Packet(page, params)[i]
    requires received == Packet(page, params)[i := bad]
    ensures !Accepts(received)
  {
    var body := Body(page, params);
    assert bad != body[i - 1] by {
      PacketShape(page, params);
    }
    BodyIsPlain(page, params);
    CorruptShape(page, params, i, bad);
    CorruptSum(body, i - 1, bad);
    AcceptsIff(body[i - 1 := bad], XorAll(body));
  }
}
