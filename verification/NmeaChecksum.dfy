/** What the checksum of main/comms/NMEAPkt.cpp is, bit by bit, and packets it is known for. */
module NmeaChecksum {
  import opened Nmea
  import opened Options
  import opened Serial

  /** Bit `i` of a number, the lowest first. */
  predicate Bit(n: nat, i: nat) {
    if i == 0 then n % 2 == 1 else Bit(n / 2, i - 1)
  }

  /** How many of the bytes have bit `i` set. */
  function WithBit(s: seq<u8>, i: nat): nat {
    if s == [] then 0 else WithBit(s[..|s| - 1], i) + if Bit(s[|s| - 1], i) then 1 else 0
  }

  lemma {:induction false} ZeroBit(i: nat)
    ensures !Bit(0, i)
    decreases i
  {
    if i > 0 {
      ZeroBit(i - 1);
    }
  }

  lemma HalfOfXor(a: nat, b: nat, x: nat)
    requires x == Xor(a, b)
    ensures x / 2 == Xor(a / 2, b / 2)
    ensures x % 2 == (a + b) % 2
  {
    XorUnfold(a, b);
  }

  lemma OddSum(a: nat, b: nat)
    ensures (a + b) % 2 == 1 <==> (a % 2 == 1) != (b % 2 == 1)
  {
  }

  lemma LowestBit(n: nat)
    ensures Bit(n, 0) <==> n % 2 == 1
  {
  }

  lemma LowestBits(a: nat, b: nat, x: nat)
    requires x % 2 == (a + b) % 2
    ensures Bit(x, 0) == (Bit(a, 0) != Bit(b, 0))
  {
    OddSum(a, b);
    LowestBit(a);
    LowestBit(b);
    LowestBit(x);
  }

  lemma HigherBit(n: nat, half: nat, i: nat)
    requires i > 0 && half == n / 2
    ensures Bit(n, i) == Bit(half, i - 1)
  {
  }

  lemma {:induction false} XorBit(a: nat, b: nat, x: nat, i: nat)
    requires x == Xor(a, b)
    ensures Bit(x, i) == (Bit(a, i) != Bit(b, i))
    decreases i
  {
    HalfOfXor(a, b, x);
    if i > 0 {
      XorBit(a / 2, b / 2, x / 2, i - 1);
      HigherBit(a, a / 2, i);
      HigherBit(b, b / 2, i);
      HigherBit(x, x / 2, i);
    } else {
      LowestBits(a, b, x);
    }
  }

  lemma OneMore(odd: bool, n: nat, b: bool)
    requires odd == (n % 2 == 1)
    ensures (odd != b) == ((n + if b then 1 else 0) % 2 == 1)
  {
  }

  lemma XorAllSnoc(front: seq<u8>, last: u8)
    ensures XorAll(front + [last]) == Xor(XorAll(front), last)
  {
    assert (front + [last])[..|front + [last]| - 1] == front;
  }

  lemma WithBitSnoc(front: seq<u8>, last: u8, i: nat)
    ensures WithBit(front + [last], i) == WithBit(front, i) + if Bit(last, i) then 1 else 0
  {
    assert (front + [last])[..|front + [last]| - 1] == front;
  }

  /** Each bit of the checksum is the parity of that bit over the bytes. */
  lemma {:induction false} ChecksumBit(s: seq<u8>, i: nat)
    ensures Bit(XorAll(s), i) <==> WithBit(s, i) % 2 == 1
    decreases |s|
  {
    if s == [] {
      ZeroBit(i);
    } else {
      var front, last := s[..|s| - 1], s[|s| - 1];
      assert s == front + [last];
      ChecksumBit(front, i);
      XorAllSnoc(front, last);
      XorBit(XorAll(front), last, XorAll(s), i);
      WithBitSnoc(front, last, i);
      OneMore(Bit(XorAll(front), i), WithBit(front, i), Bit(last, i));
    }
  }

  predicate SameBits(a: nat, b: nat, bits: nat) {
    forall i | 0 <= i < bits :: Bit(a, i) == Bit(b, i)
  }

  lemma {:induction false} BitsDetermine(a: nat, b: nat, bits: nat)
    requires a < Power2(bits) && b < Power2(bits) && SameBits(a, b, bits)
    ensures a == b
    decreases bits
  {
    if bits > 0 {
      assert Bit(a, 0) == Bit(b, 0);
      forall i | 0 <= i < bits - 1
        ensures Bit(a / 2, i) == Bit(b / 2, i)
      {
        assert Bit(a, i + 1) == Bit(b, i + 1);
        HigherBit(a, a / 2, i + 1);
        HigherBit(b, b / 2, i + 1);
      }
      BitsDetermine(a / 2, b / 2, bits - 1);
    }
  }

  predicate IsParity(s: seq<u8>, sum: u8) {
    forall i | 0 <= i < 8 :: Bit(sum, i) == (WithBit(s, i) % 2 == 1)
  }

  lemma ChecksumIsParity(s: seq<u8>)
    ensures IsParity(s, XorAll(s))
  {
    forall i | 0 <= i < 8
      ensures Bit(XorAll(s), i) == (WithBit(s, i) % 2 == 1)
    {
      ChecksumBit(s, i);
    }
  }

  /** A byte is the checksum if and only if each of its eight bits is the parity of that bit over the bytes. */
  lemma ChecksumIff(s: seq<u8>, sum: u8)
    ensures sum == XorAll(s) <==> IsParity(s, sum)
  {
    ChecksumIsParity(s);
    if IsParity(s, sum) {
      assert SameBits(sum, XorAll(s), 8);
      Byte();
      BitsDetermine(sum, XorAll(s), 8);
    }
  }

  lemma Byte()
    ensures Power2(8) == 256
  {
  }

  lemma {:induction false} XorSelf(a: nat)
    ensures Xor(a, a) == 0
    decreases a
  {
    if a > 0 {
      XorSelf(a / 2);
    }
  }

  /** A body followed by one more byte sums to zero if and only if that byte is its checksum. */
  lemma OwnChecksumCancels(s: seq<u8>, c: u8)
    ensures XorAll(s + [c]) == 0 <==> c == XorAll(s)
  {
    XorAllSnoc(s, c);
    XorSelf(XorAll(s));
    if XorAll(s + [c]) == 0 {
      XorInjective(XorAll(s), c, XorAll(s));
    }
  }

  /** What is accepted: of at most 50 bytes, exactly a body between '$' and '*' and three more bytes that read as
      its checksum. */
  lemma AcceptedIff(data: seq<u8>, body: seq<u8>, digits: seq<u8>)
    requires |data| >= 5 && body == data[1..|data| - 4] && digits == data[|data| - 3..] && STAR !in body
    ensures Accepts(data) <==>
            && |data| <= SERIAL_RAW_MAX_LEN
            && data == [DOLLAR] + body + [STAR] + digits
            && XorAll(body) == StrtolByte(digits, 16)
  {
    if data[0] == DOLLAR && data[|data| - 4] == STAR {
      assert data == [DOLLAR] + body + [STAR] + digits;
      ChecksumOf(body, digits);
    } else {
      assert ([DOLLAR] + body + [STAR] + digits)[0] == DOLLAR;
      assert ([DOLLAR] + body + [STAR] + digits)[|data| - 4] == STAR;
    }
  }

  // ---------------------------------------------------------------- known packets

  /** The bits of a byte, the highest first. */
  datatype Bits = Bits(b7: bool, b6: bool, b5: bool, b4: bool, b3: bool, b2: bool, b1: bool, b0: bool)

  const I: bool := true
  const O: bool := false

  function Twice(n: nat, bit: bool): nat {
    2 * n + if bit then 1 else 0
  }

  function High(b: Bits): nat {
    Twice(Twice(Twice(Twice(0, b.b7), b.b6), b.b5), b.b4)
  }

  function Number(b: Bits): nat {
    Twice(Twice(Twice(Twice(High(b), b.b3), b.b2), b.b1), b.b0)
  }

  lemma HalfOfTwice(n: nat, bit: bool)
    ensures Twice(n, bit) / 2 == n
    ensures Twice(n, bit) % 2 == if bit then 1 else 0
  {
  }

  lemma ParityOfSum(x: nat, y: nat, p: bool, q: bool)
    requires x % 2 == (if p then 1 else 0) && y % 2 == if q then 1 else 0
    ensures (x + y) % 2 == if p != q then 1 else 0
  {
  }

  lemma XorFromHalves(a: nat, b: nat, a': nat, b': nat, bit: nat)
    requires a' == a / 2 && b' == b / 2 && bit == (a + b) % 2
    ensures Xor(a, b) == bit + 2 * Xor(a', b')
  {
    XorUnfold(a, b);
  }

  lemma XorFromParity(n: nat, m: nat, x: nat, y: nat, p: bool, q: bool)
    requires n / 2 == x && m / 2 == y && (n + m) % 2 == if p != q then 1 else 0
    ensures Xor(n, m) == Twice(Xor(x, y), p != q)
  {
    XorFromHalves(n, m, x, y, if p != q then 1 else 0);
  }

  lemma XorOfTwice(x: nat, y: nat, p: bool, q: bool)
    ensures Xor(Twice(x, p), Twice(y, q)) == Twice(Xor(x, y), p != q)
  {
    HalfOfTwice(x, p);
    HalfOfTwice(y, q);
    var n, m := Twice(x, p), Twice(y, q);
    ParityOfSum(n, m, p, q);
    XorFromParity(n, m, x, y, p, q);
  }

  /** Four more bits. */
  lemma XorOfFour(x: nat, y: nat, p3: bool, p2: bool, p1: bool, p0: bool, q3: bool, q2: bool, q1: bool, q0: bool)
    ensures Xor(Twice(Twice(Twice(Twice(x, p3), p2), p1), p0), Twice(Twice(Twice(Twice(y, q3), q2), q1), q0)) ==
            Twice(Twice(Twice(Twice(Xor(x, y), p3 != q3), p2 != q2), p1 != q1), p0 != q0)
  {
    var x3, y3 := Twice(x, p3), Twice(y, q3);
    var x2, y2 := Twice(x3, p2), Twice(y3, q2);
    XorOfTwice(x, y, p3, q3);
    XorOfTwice(x3, y3, p2, q2);
    XorOfTwice(x2, y2, p1, q1);
    XorOfTwice(Twice(x2, p1), Twice(y2, q1), p0, q0);
  }

  lemma NothingLeft()
    ensures Xor(0, 0) == 0
  {
  }

  function Differ(a: Bits, b: Bits): Bits {
    Bits(a.b7 != b.b7, a.b6 != b.b6, a.b5 != b.b5, a.b4 != b.b4, a.b3 != b.b3, a.b2 != b.b2, a.b1 != b.b1, a.b0 != b.b0)
  }

  lemma XorOfHigh(a: Bits, b: Bits)
    ensures Xor(High(a), High(b)) == High(Differ(a, b))
  {
    XorOfFour(0, 0, a.b7, a.b6, a.b5, a.b4, b.b7, b.b6, b.b5, b.b4);
    NothingLeft();
  }

  lemma XorOfNumbers(a: Bits, b: Bits)
    ensures Xor(Number(a), Number(b)) == Number(Differ(a, b))
  {
    XorOfHigh(a, b);
    XorOfFour(High(a), High(b), a.b3, a.b2, a.b1, a.b0, b.b3, b.b2, b.b1, b.b0);
  }

  /** The sum so far, one byte further. */
  lemma SumNext(s: seq<u8>, before: u8, c: u8, sum: u8, a: Bits, b: Bits)
    requires XorAll(s) == before
    requires before == Number(a) && c == Number(b) && sum == Number(Differ(a, b))
    ensures XorAll(s + [c]) == sum
  {
    XorAllSnoc(s, c);
    XorOfNumbers(a, b);
  }

  /** A packet is printed from its body, and the digits of the body's sum. */
  lemma Printed(page: u8, params: Option<seq<u8>>, body: seq<u8>, sum: u8, packet: seq<u8>)
    requires Plain(params) && Body(page, params) == body && |body| <= SERIAL_RAW_MAX_LEN - 5
    requires XorAll(body) == sum
    requires packet == [DOLLAR] + body + [STAR] + Hex2(sum) + [NUL]
    ensures Packet(page, params) == packet && Accepts(packet) && PageOf(packet) == page
  {
    PacketParses(page, params);
  }

  lemma Printed42(page: u8, packet: seq<u8>)
    requires page == 42 && packet == [36, 52, 50, 42, 48, 54, 0]
    ensures packet == [DOLLAR] + Body(page, None) + [STAR] + Hex2(6) + [NUL] && Body(page, None) == [52, 50]
  {
  }

  lemma Sum42(s: seq<u8>)
    requires s == [52, 50]
    ensures XorAll(s) == 6
  {
    assert s[..0] == [];
    SumNext(s[..0], 0, 52, 52, Bits(O, O, O, O, O, O, O, O), Bits(O, O, I, I, O, I, O, O));
    assert s[..0] + [52] == s[..1];
    SumNext(s[..1], 52, 50, 6, Bits(O, O, I, I, O, I, O, O), Bits(O, O, I, I, O, O, I, O));
    assert s[..1] + [50] == s[..2];
    assert s[..2] == s;
  }

  /** "$42*06" */
  lemma WithoutParameters(page: u8, packet: seq<u8>)
    requires page == 42 && packet == [36, 52, 50, 42, 48, 54, 0]
    ensures Packet(page, None) == packet && Accepts(packet) && PageOf(packet) == page
  {
    Printed42(page, packet);
    Sum42(Body(page, None));
    Printed(page, None, Body(page, None), 6, packet);
  }

  lemma Sum91Part1(s: seq<u8>)
    requires s == [57, 49, 44, 49, 50, 44, 54, 97, 55]
    ensures XorAll(s[..3]) == 36
  {
    assert s[..0] == [];
    SumNext(s[..0], 0, 57, 57, Bits(O, O, O, O, O, O, O, O), Bits(O, O, I, I, I, O, O, I));
    assert s[..0] + [57] == s[..1];
    SumNext(s[..1], 57, 49, 8, Bits(O, O, I, I, I, O, O, I), Bits(O, O, I, I, O, O, O, I));
    assert s[..1] + [49] == s[..2];
    SumNext(s[..2], 8, 44, 36, Bits(O, O, O, O, I, O, O, O), Bits(O, O, I, O, I, I, O, O));
    assert s[..2] + [44] == s[..3];
  }

  lemma Sum91Part2(s: seq<u8>)
    requires s == [57, 49, 44, 49, 50, 44, 54, 97, 55]
    requires XorAll(s[..3]) == 36
    ensures XorAll(s[..6]) == 11
  {
    SumNext(s[..3], 36, 49, 21, Bits(O, O, I, O, O, I, O, O), Bits(O, O, I, I, O, O, O, I));
    assert s[..3] + [49] == s[..4];
    SumNext(s[..4], 21, 50, 39, Bits(O, O, O, I, O, I, O, I), Bits(O, O, I, I, O, O, I, O));
    assert s[..4] + [50] == s[..5];
    SumNext(s[..5], 39, 44, 11, Bits(O, O, I, O, O, I, I, I), Bits(O, O, I, O, I, I, O, O));
    assert s[..5] + [44] == s[..6];
  }

  lemma Sum91Part3(s: seq<u8>)
    requires s == [57, 49, 44, 49, 50, 44, 54, 97, 55]
    requires XorAll(s[..6]) == 11
    ensures XorAll(s[..9]) == 107
  {
    SumNext(s[..6], 11, 54, 61, Bits(O, O, O, O, I, O, I, I), Bits(O, O, I, I, O, I, I, O));
    assert s[..6] + [54] == s[..7];
    SumNext(s[..7], 61, 97, 92, Bits(O, O, I, I, I, I, O, I), Bits(O, I, I, O, O, O, O, I));
    assert s[..7] + [97] == s[..8];
    SumNext(s[..8], 92, 55, 107, Bits(O, I, O, I, I, I, O, O), Bits(O, O, I, I, O, I, I, I));
    assert s[..8] + [55] == s[..9];
  }

  lemma Sum91(s: seq<u8>)
    requires s == [57, 49, 44, 49, 50, 44, 54, 97, 55]
    ensures XorAll(s) == 0x6B
  {
    Sum91Part1(s);
    Sum91Part2(s);
    Sum91Part3(s);
    assert s[..9] == s;
  }

  lemma Body91(page: u8, params: seq<u8>)
    requires page == 91 && params == [49, 50, 44, 54, 97, 55]
    ensures Body(page, Some(params)) == [57, 49, 44, 49, 50, 44, 54, 97, 55]
  {
  }

  /** "$91,12,6a7*6B": upper-case digits, and the page in decimal. */
  lemma WithParameters(page: u8, packet: seq<u8>, params: seq<u8>)
    requires page == 91 && params == [49, 50, 44, 54, 97, 55]
    requires packet == [36, 57, 49, 44, 49, 50, 44, 54, 97, 55, 42, 54, 66, 0]
    ensures Packet(page, Some(params)) == packet && Accepts(packet) && PageOf(packet) == page
  {
    var body := Body(page, Some(params));
    Body91(page, params);
    Sum91(body);
    assert packet == [DOLLAR] + body + [STAR] + Hex2(0x6B) + [NUL];
    Printed(page, Some(params), body, 0x6B, packet);
  }

  /** A body followed by the digits of another sum is rejected. */
  lemma WrongDigits(body: seq<u8>, sum: u8, packet: seq<u8>)
    requires STAR !in body && XorAll(body) != sum
    requires packet == [DOLLAR] + body + [STAR] + (Hex2(sum) + [NUL])
    ensures !Accepts(packet)
  {
    AcceptsIff(body, sum);
  }

  /** "$91,12,6a7*00" is rejected. */
  lemma WrongSum(packet: seq<u8>, sum: u8)
    requires sum == 0 && packet == [36, 57, 49, 44, 49, 50, 44, 54, 97, 55, 42, 48, 48, 0]
    ensures !Accepts(packet)
  {
    var body: seq<u8> := [57, 49, 44, 49, 50, 44, 54, 97, 55];
    Sum91(body);
    assert packet == [DOLLAR] + body + [STAR] + (Hex2(sum) + [NUL]);
    WrongDigits(body, sum, packet);
  }

  /** Pages below ten are printed with a leading zero, pages from a hundred on with three digits. */
  lemma PagesPrinted()
    ensures Dec2(5) == [48, 53] && Dec2(91) == [57, 49] && Dec2(240) == [50, 52, 48]
  {
  }
}
