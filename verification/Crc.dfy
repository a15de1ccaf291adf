/** CRC-16 of main/system/crc.c.

The CRC is defined here one message bit at a time, on a register that is a sequence of 16 bits, most
significant bit first. The table-driven code of the source is proved to compute that register, and the
register is proved to be the remainder of a division of polynomials over GF(2) by
x^16 + x^12 + x^5 + 1 (section 2 of ITU-T V.41); see also Polynomials.dfy.
*/
module Crc {
  import opened CrcTable

  type Register = r: seq<bool> | |r| == 16 witness ZERO

  const ZERO: seq<bool> := [false, false, false, false, false, false, false, false,
                            false, false, false, false, false, false, false, false]

  /** 0x1021: the bits of x^12 + x^5 + 1. */
  const POLYNOMIAL: Register := [false, false, false, true, false, false, false, false,
                                 false, false, true, false, false, false, false, true]

  /** 0x1D0F: SEED of main/blue/spp/btc_spp.c and the value an accepted update starts from. */
  const SEED: Register := [false, false, false, true, true, true, false, true,
                           false, false, false, false, true, true, true, true]

  function Xor(a: seq<bool>, b: seq<bool>): (c: seq<bool>)
    requires |a| == |b|
    ensures |c| == |a|
  {
    seq(|a|, i requires 0 <= i < |a| => a[i] != b[i])
  }

  // ---------------------------------------------------------------- bit-serial definition

  /** Take in one message bit: it is added to the bit shifted out, which feeds back into the register. */
  function BitStep(r: Register, bit: bool): Register {
    var shifted := r[1..] + [false];
    if r[0] != bit then Xor(shifted, POLYNOMIAL) else shifted
  }

  function Remainder(bits: seq<bool>, seed: Register): Register {
    if bits == [] then seed
    else BitStep(Remainder(bits[..|bits| - 1], seed), bits[|bits| - 1])
  }

  /** The bits of a byte, most significant first. */
  function ByteBits(b: bv8): (bits: seq<bool>)
    ensures |bits| == 8
  {
    [b & 0x80 != 0, b & 0x40 != 0, b & 0x20 != 0, b & 0x10 != 0,
     b & 0x08 != 0, b & 0x04 != 0, b & 0x02 != 0, b & 0x01 != 0]
  }

  function Bits(data: seq<bv8>): (bits: seq<bool>)
    ensures |bits| == 8 * |data|
  {
    if data == [] then [] else Bits(data[..|data| - 1]) + ByteBits(data[|data| - 1])
  }

  /** The CRC of a byte string. */
  function Crc16(data: seq<bv8>, seed: Register): Register {
    Remainder(Bits(data), seed)
  }

  lemma {:induction false} RemainderConcat(a: seq<bool>, b: seq<bool>, seed: Register)
    ensures Remainder(a + b, seed) == Remainder(b, Remainder(a, seed))
    decreases |b|
  {
    if b == [] {
      assert a + b == a;
    } else {
      var last := |b| - 1;
      assert (a + b)[..|a + b| - 1] == a + b[..last];
      RemainderConcat(a, b[..last], seed);
    }
  }

  lemma RemainderOne(bit: bool, r: Register)
    ensures Remainder([bit], r) == BitStep(r, bit)
  {
    assert [bit][..0] == [];
  }

  lemma RemainderFront(bits: seq<bool>, seed: Register)
    requires bits != []
    ensures Remainder(bits, seed) == Remainder(bits[1..], BitStep(seed, bits[0]))
  {
    assert bits == [bits[0]] + bits[1..];
    RemainderConcat([bits[0]], bits[1..], seed);
    RemainderOne(bits[0], seed);
  }

  lemma {:induction false} BitsConcat(a: seq<bv8>, b: seq<bv8>)
    ensures Bits(a + b) == Bits(a) + Bits(b)
    decreases |b|
  {
    if b == [] {
      assert a + b == a;
    } else {
      var last := |b| - 1;
      assert (a + b)[..|a + b| - 1] == a + b[..last];
      BitsConcat(a, b[..last]);
    }
  }

  /** The CRC of a message is the CRC of its tail, seeded with the CRC of its head. */
  lemma CrcConcat(a: seq<bv8>, b: seq<bv8>, seed: Register)
    ensures Crc16(a + b, seed) == Crc16(b, Crc16(a, seed))
  {
    BitsConcat(a, b);
    RemainderConcat(Bits(a), Bits(b), seed);
  }

  lemma CrcOne(b: bv8, seed: Register)
    ensures Crc16([b], seed) == Remainder(ByteBits(b), seed)
  {
    assert [b][..|[b]| - 1] == [];
    assert Bits([b]) == [] + ByteBits(b);
    assert Bits([b]) == ByteBits(b);
  }

  lemma CrcSnoc(data: seq<bv8>, b: bv8, seed: Register)
    ensures Crc16(data + [b], seed) == Remainder(ByteBits(b), Crc16(data, seed))
  {
    CrcConcat(data, [b], seed);
    CrcOne(b, Crc16(data, seed));
  }

  // ---------------------------------------------------------------- table against polynomial

  /** One shift of a 16-bit machine word. */
  function ShiftWord(w: bv16): bv16 {
    if w & 0x8000 != 0 then (w << 1) ^ 0x1021 else w << 1
  }

  function Shift8(w: bv16): bv16 {
    ShiftWord(ShiftWord(ShiftWord(ShiftWord(ShiftWord(ShiftWord(ShiftWord(ShiftWord(w))))))))
  }

  function WordBits(w: bv16): Register {
    [w & 0x8000 != 0, w & 0x4000 != 0, w & 0x2000 != 0, w & 0x1000 != 0,
     w & 0x0800 != 0, w & 0x0400 != 0, w & 0x0200 != 0, w & 0x0100 != 0,
     w & 0x0080 != 0, w & 0x0040 != 0, w & 0x0020 != 0, w & 0x0010 != 0,
     w & 0x0008 != 0, w & 0x0004 != 0, w & 0x0002 != 0, w & 0x0001 != 0]
  }

  lemma TableRow0(i: bv8)
    requires i < 0x10
    ensures TableEntry(i) == Shift8((i as bv16) << 8)
  {
  }

  lemma TableRow1(i: bv8)
    requires 0x10 <= i < 0x20
    ensures TableEntry(i) == Shift8((i as bv16) << 8)
  {
  }

  lemma TableRow2(i: bv8)
    requires 0x20 <= i < 0x30
    ensures TableEntry(i) == Shift8((i as bv16) << 8)
  {
  }

  lemma TableRow3(i: bv8)
    requires 0x30 <= i < 0x40
    ensures TableEntry(i) == Shift8((i as bv16) << 8)
  {
  }

  lemma TableRow4(i: bv8)
    requires 0x40 <= i < 0x50
    ensures TableEntry(i) == Shift8((i as bv16) << 8)
  {
  }

  lemma TableRow5(i: bv8)
    requires 0x50 <= i < 0x60
    ensures TableEntry(i) == Shift8((i as bv16) << 8)
  {
  }

  lemma TableRow6(i: bv8)
    requires 0x60 <= i < 0x70
    ensures TableEntry(i) == Shift8((i as bv16) << 8)
  {
  }

  lemma TableRow7(i: bv8)
    requires 0x70 <= i < 0x80
    ensures TableEntry(i) == Shift8((i as bv16) << 8)
  {
  }

  lemma TableRow8(i: bv8)
    requires 0x80 <= i < 0x90
    ensures TableEntry(i) == Shift8((i as bv16) << 8)
  {
  }

  lemma TableRow9(i: bv8)
    requires 0x90 <= i < 0xA0
    ensures TableEntry(i) == Shift8((i as bv16) << 8)
  {
  }

  lemma TableRowA(i: bv8)
    requires 0xA0 <= i < 0xB0
    ensures TableEntry(i) == Shift8((i as bv16) << 8)
  {
  }

  lemma TableRowB(i: bv8)
    requires 0xB0 <= i < 0xC0
    ensures TableEntry(i) == Shift8((i as bv16) << 8)
  {
  }

  lemma TableRowC(i: bv8)
    requires 0xC0 <= i < 0xD0
    ensures TableEntry(i) == Shift8((i as bv16) << 8)
  {
  }

  lemma TableRowD(i: bv8)
    requires 0xD0 <= i < 0xE0
    ensures TableEntry(i) == Shift8((i as bv16) << 8)
  {
  }

  lemma TableRowE(i: bv8)
    requires 0xE0 <= i < 0xF0
    ensures TableEntry(i) == Shift8((i as bv16) << 8)
  {
  }

  lemma TableRowF(i: bv8)
    requires 0xF0 <= i
    ensures TableEntry(i) == Shift8((i as bv16) << 8)
  {
  }

  /** Every one of the 256 entries is its index, shifted through the polynomial eight times. */
  lemma TableIsEightShifts(i: bv8)
    ensures TableEntry(i) == Shift8((i as bv16) << 8)
  {
    if i < 0x10 {
      TableRow0(i);
    } else if i < 0x20 {
      TableRow1(i);
    } else if i < 0x30 {
      TableRow2(i);
    } else if i < 0x40 {
      TableRow3(i);
    } else if i < 0x50 {
      TableRow4(i);
    } else if i < 0x60 {
      TableRow5(i);
    } else if i < 0x70 {
      TableRow6(i);
    } else if i < 0x80 {
      TableRow7(i);
    } else if i < 0x90 {
      TableRow8(i);
    } else if i < 0xA0 {
      TableRow9(i);
    } else if i < 0xB0 {
      TableRowA(i);
    } else if i < 0xC0 {
      TableRowB(i);
    } else if i < 0xD0 {
      TableRowC(i);
    } else if i < 0xE0 {
      TableRowD(i);
    } else if i < 0xF0 {
      TableRowE(i);
    } else {
      TableRowF(i);
    }
  }

  /** `BitStep` on a zero message bit, written out. */
  lemma BitStepList(r: Register)
    ensures BitStep(r, false) ==
            if r[0] then
              [r[1], r[2], r[3], !r[4], r[5], r[6], r[7], r[8],
               r[9], r[10], !r[11], r[12], r[13], r[14], r[15], true]
            else
              [r[1], r[2], r[3], r[4], r[5], r[6], r[7], r[8],
               r[9], r[10], r[11], r[12], r[13], r[14], r[15], false]
  {
  }

  lemma WordShifted(w: bv16)
    ensures var r := WordBits(w);
            WordBits(w << 1) ==
              [r[1], r[2], r[3], r[4], r[5], r[6], r[7], r[8],
               r[9], r[10], r[11], r[12], r[13], r[14], r[15], false]
  {
  }

  lemma WordReduced(w: bv16)
    ensures var r := WordBits(w);
            WordBits((w << 1) ^ 0x1021) ==
              [r[1], r[2], r[3], !r[4], r[5], r[6], r[7], r[8],
               r[9], r[10], !r[11], r[12], r[13], r[14], r[15], true]
  {
  }

  lemma ShiftWordIsBitStep(w: bv16)
    ensures WordBits(ShiftWord(w)) == BitStep(WordBits(w), false)
  {
    BitStepList(WordBits(w));
    if w & 0x8000 != 0 {
      WordReduced(w);
    } else {
      WordShifted(w);
    }
  }

  function Zeros(n: nat): (z: seq<bool>)
    ensures |z| == n
  {
    seq(n, i => false)
  }

  lemma RemainderSnoc(bits: seq<bool>, bit: bool, seed: Register)
    ensures Remainder(bits + [bit], seed) == BitStep(Remainder(bits, seed), bit)
  {
    assert (bits + [bit])[..|bits + [bit]| - 1] == bits;
  }

  lemma ZeroBit(n: nat, r: Register)
    ensures Remainder(Zeros(n + 1), r) == BitStep(Remainder(Zeros(n), r), false)
  {
    assert Zeros(n + 1) == Zeros(n) + [false];
    RemainderSnoc(Zeros(n), false, r);
  }

  lemma EightBits<T(!new)>(f: T -> T, bits: T -> Register, w: T)
    requires forall v :: bits(f(v)) == BitStep(bits(v), false)
    ensures bits(f(f(f(f(f(f(f(f(w))))))))) == Remainder(Zeros(8), bits(w))
  {
    var r := bits(w);
    ZeroBit(0, r);
    ZeroBit(1, r);
    ZeroBit(2, r);
    ZeroBit(3, r);
    ZeroBit(4, r);
    ZeroBit(5, r);
    ZeroBit(6, r);
    ZeroBit(7, r);
  }

  lemma Shift8IsEightBits(w: bv16)
    ensures WordBits(Shift8(w)) == Remainder(Zeros(8), WordBits(w))
  {
    forall v
      ensures WordBits(ShiftWord(v)) == BitStep(WordBits(v), false)
    {
      ShiftWordIsBitStep(v);
    }
    EightBits(ShiftWord, WordBits, w);
  }

  lemma IndexAsHighByte(i: bv8)
    ensures WordBits((i as bv16) << 8) == ByteBits(i) + Zeros(8)
  {
  }

  /** A table entry is the register left by its index once eight zero bits have pushed it out. */
  lemma TableIsPolynomial(i: bv8)
    ensures WordBits(TableEntry(i)) == Remainder(Zeros(8), ByteBits(i) + Zeros(8))
  {
    TableIsEightShifts(i);
    Shift8IsEightBits((i as bv16) << 8);
    IndexAsHighByte(i);
  }

  /** After `k` message bits the register is what the high byte plus the message feeds back, plus the
      bits that have merely moved up. */
  lemma {:induction false} HighByteFeedsBack(high: seq<bool>, low: seq<bool>, bits: seq<bool>, k: nat)
    requires |high| == |low| == |bits| == 8 && k <= 8
    ensures Remainder(bits[..k], high + low) ==
            Xor(Remainder(Zeros(k), Xor(high, bits) + Zeros(8)), bits[k..] + low + Zeros(k))
    decreases k
  {
    var fed := Xor(high, bits) + Zeros(8);
    if k == 0 {
      assert bits[..0] == [];
      assert high + low == Xor(fed, bits[0..] + low + Zeros(0));
    } else {
      HighByteFeedsBack(high, low, bits, k - 1);
      var before := Remainder(Zeros(k - 1), fed);
      var moving := bits[k - 1..] + low + Zeros(k - 1);
      assert bits[..k][..|bits[..k]| - 1] == bits[..k - 1];
      assert Remainder(bits[..k], high + low) == BitStep(Xor(before, moving), bits[k - 1]);
      ZeroBit(k - 1, fed);
      assert bits[k..] + low + Zeros(k) == moving[1..] + [false];
      assert BitStep(Xor(before, moving), bits[k - 1]) == Xor(BitStep(before, false), moving[1..] + [false]);
    }
  }

  /** The byte step in the shape the table code computes it. */
  lemma ByteByTable(r: Register, data: bv8, index: bv8)
    requires ByteBits(index) == Xor(r[..8], ByteBits(data))
    ensures Remainder(ByteBits(data), r) == Xor(Remainder(Zeros(8), ByteBits(index) + Zeros(8)), r[8..] + Zeros(8))
  {
    assert r == r[..8] + r[8..];
    HighByteFeedsBack(r[..8], r[8..], ByteBits(data), 8);
    assert ByteBits(data)[..8] == ByteBits(data);
    assert ByteBits(data)[8..] + r[8..] + Zeros(8) == r[8..] + Zeros(8);
  }

  // ---------------------------------------------------------------- the source's functions

  /** The part of the source's 32-bit accumulator that is ever returned. */
  function Low16(crc: bv32): Register {
    WordBits((crc & 0xFFFF) as bv16)
  }

  lemma XorOfBits(a: seq<bool>, b: seq<bool>, x: seq<bool>)
    requires |a| == |b| == |x| == 8
    requires x[0] == (a[0] != b[0])
    requires x[1] == (a[1] != b[1])
    requires x[2] == (a[2] != b[2])
    requires x[3] == (a[3] != b[3])
    requires x[4] == (a[4] != b[4])
    requires x[5] == (a[5] != b[5])
    requires x[6] == (a[6] != b[6])
    requires x[7] == (a[7] != b[7])
    ensures x == Xor(a, b)
  {
    forall k | 0 <= k < 8
      ensures x[k] == (a[k] != b[k])
    {
      if k == 0 {
      } else if k == 1 {
      } else if k == 2 {
      } else if k == 3 {
      } else if k == 4 {
      } else if k == 5 {
      } else if k == 6 {
      } else if k == 7 {
      }
    }
  }

  lemma XorOfList(a: seq<bool>, b: seq<bool>,
                  x0: bool, x1: bool, x2: bool, x3: bool, x4: bool, x5: bool, x6: bool, x7: bool)
    requires |a| == |b| == 8
    requires x0 == (a[0] != b[0])
    requires x1 == (a[1] != b[1])
    requires x2 == (a[2] != b[2])
    requires x3 == (a[3] != b[3])
    requires x4 == (a[4] != b[4])
    requires x5 == (a[5] != b[5])
    requires x6 == (a[6] != b[6])
    requires x7 == (a[7] != b[7])
    ensures [x0, x1, x2, x3, x4, x5, x6, x7] == Xor(a, b)
  {
    XorOfBits(a, b, [x0, x1, x2, x3, x4, x5, x6, x7]);
  }

  lemma XorOfHighByte(c: Register, d: seq<bool>)
    requires |d| == 8
    ensures Xor(c[..8], d) == [c[0] != d[0], c[1] != d[1], c[2] != d[2], c[3] != d[3],
                               c[4] != d[4], c[5] != d[5], c[6] != d[6], c[7] != d[7]]
  {
    XorOfList(c[..8], d, c[0] != d[0], c[1] != d[1], c[2] != d[2], c[3] != d[3],
              c[4] != d[4], c[5] != d[5], c[6] != d[6], c[7] != d[7]);
  }

  lemma TopOfShifted(e: Register, c: Register)
    ensures Xor(e, c[8..] + Zeros(8)) == Xor(e[..8], c[8..]) + e[8..]
  {
  }

  lemma ListSplit(e: Register, x: seq<bool>,
                  x0: bool, x1: bool, x2: bool, x3: bool, x4: bool, x5: bool, x6: bool, x7: bool)
    requires x == [x0, x1, x2, x3, x4, x5, x6, x7]
    ensures x + e[8..] == [x0, x1, x2, x3, x4, x5, x6, x7, e[8], e[9], e[10], e[11], e[12], e[13], e[14], e[15]]
  {
  }

  lemma XorOfLowByte(e: Register, c: Register)
    ensures Xor(e, c[8..] + Zeros(8)) ==
            [e[0] != c[8], e[1] != c[9], e[2] != c[10], e[3] != c[11],
             e[4] != c[12], e[5] != c[13], e[6] != c[14], e[7] != c[15],
             e[8], e[9], e[10], e[11], e[12], e[13], e[14], e[15]]
  {
    TopOfShifted(e, c);
    XorOfList(e[..8], c[8..], e[0] != c[8], e[1] != c[9], e[2] != c[10], e[3] != c[11],
              e[4] != c[12], e[5] != c[13], e[6] != c[14], e[7] != c[15]);
    ListSplit(e, Xor(e[..8], c[8..]), e[0] != c[8], e[1] != c[9], e[2] != c[10], e[3] != c[11],
              e[4] != c[12], e[5] != c[13], e[6] != c[14], e[7] != c[15]);
  }

  function Index(data: bv8, crc: bv32): bv8 {
    (((data as bv32) ^ (crc >> 8)) & 0xFF) as bv8
  }

  lemma IndexList(data: bv8, crc: bv32)
    ensures var d, c := ByteBits(data), Low16(crc);
            ByteBits(Index(data, crc)) ==
            [c[0] != d[0], c[1] != d[1], c[2] != d[2], c[3] != d[3],
             c[4] != d[4], c[5] != d[5], c[6] != d[6], c[7] != d[7]]
  {
  }

  lemma IndexBits(data: bv8, crc: bv32)
    ensures ByteBits(Index(data, crc)) == Xor(Low16(crc)[..8], ByteBits(data))
  {
    IndexList(data, crc);
    XorOfHighByte(Low16(crc), ByteBits(data));
  }

  function Next(entry: bv16, crc: bv32): bv32 {
    (entry as bv32) ^ (crc << 8)
  }

  lemma NextList(entry: bv16, crc: bv32)
    ensures var e, c := WordBits(entry), Low16(crc);
            Low16(Next(entry, crc)) ==
            [e[0] != c[8], e[1] != c[9], e[2] != c[10], e[3] != c[11],
             e[4] != c[12], e[5] != c[13], e[6] != c[14], e[7] != c[15],
             e[8], e[9], e[10], e[11], e[12], e[13], e[14], e[15]]
  {
  }

  lemma NextBits(entry: bv16, crc: bv32)
    ensures Low16(Next(entry, crc)) == Xor(WordBits(entry), Low16(crc)[8..] + Zeros(8))
  {
    NextList(entry, crc);
    XorOfLowByte(WordBits(entry), Low16(crc));
  }

  method TableLookup(i: bv8) returns (entry: bv16)
    ensures WordBits(entry) == Remainder(Zeros(8), ByteBits(i) + Zeros(8))
  {
    TableIsPolynomial(i);
    entry := TableEntry(i);
  }

  lemma TableStep(data: bv8, r: Register, index: bv8, entry: Register, next: Register)
    requires ByteBits(index) == Xor(r[..8], ByteBits(data))
    requires entry == Remainder(Zeros(8), ByteBits(index) + Zeros(8))
    requires next == Xor(entry, r[8..] + Zeros(8))
    ensures next == Remainder(ByteBits(data), r)
  {
    ByteByTable(r, data, index);
  }

  /** `byteCRCCCITT`: the accumulator is 32 bits wide and is never truncated. */
  method ByteCrcCcitt(data: bv8, seed: bv32) returns (crc: bv32)
    ensures Low16(crc) == Remainder(ByteBits(data), Low16(seed))
  {
    var temp := Index(data, seed);
    var entry := TableLookup(temp);
    crc := Next(entry, seed);
    IndexBits(data, seed);
    NextBits(entry, seed);
    TableStep(data, Low16(seed), temp, WordBits(entry), Low16(crc));
  }

  /** The machine word with the given bits. */
  function Word(bits: seq<bool>): bv16 {
    if bits == [] then 0 else (Word(bits[..|bits| - 1]) << 1) | (if bits[|bits| - 1] then 1 else 0)
  }

  lemma WordAppend(w: bv16, bit: bool)
    ensures var r := WordBits(w);
            WordBits((w << 1) | (if bit then 1 else 0)) ==
              [r[1], r[2], r[3], r[4], r[5], r[6], r[7], r[8],
               r[9], r[10], r[11], r[12], r[13], r[14], r[15], bit]
  {
  }

  lemma ListTail(r: Register, bit: bool)
    ensures [r[1], r[2], r[3], r[4], r[5], r[6], r[7], r[8],
             r[9], r[10], r[11], r[12], r[13], r[14], r[15], bit] == r[1..] + [bit]
  {
  }

  lemma WordAppendTail(w: bv16, bit: bool)
    ensures WordBits((w << 1) | (if bit then 1 else 0)) == WordBits(w)[1..] + [bit]
  {
    WordAppend(w, bit);
    ListTail(WordBits(w), bit);
  }

  lemma SuffixStep(r: Register, next: Register, front: seq<bool>, last: bool)
    requires |front| < 16 && r[16 - |front|..] == front
    requires next == r[1..] + [last]
    ensures next[15 - |front|..] == front + [last]
  {
  }

  lemma WordSnoc(front: seq<bool>, last: bool)
    ensures WordBits(Word(front + [last])) == WordBits(Word(front))[1..] + [last]
  {
    assert (front + [last])[..|front + [last]| - 1] == front;
    WordAppendTail(Word(front), last);
  }

  lemma {:induction false} AppendedBits<T>(word: seq<bool> -> T, register: T -> Register, bits: seq<bool>)
    requires forall front, last :: register(word(front + [last])) == register(word(front))[1..] + [last]
    requires |bits| <= 16
    ensures register(word(bits))[16 - |bits|..] == bits
    decreases |bits|
  {
    if bits != [] {
      var front, last := bits[..|bits| - 1], bits[|bits| - 1];
      AppendedBits(word, register, front);
      assert front + [last] == bits;
      SuffixStep(register(word(front)), register(word(front + [last])), front, last);
    }
  }

  lemma WordHasBits(r: Register)
    ensures WordBits(Word(r)) == r
  {
    forall front, last
      ensures WordBits(Word(front + [last])) == WordBits(Word(front))[1..] + [last]
    {
      WordSnoc(front, last);
    }
    AppendedBits(Word, WordBits, r);
    assert WordBits(Word(r))[0..] == WordBits(Word(r));
  }

  /** `CRCCCITT`: one pass over the bytes, the low half of the accumulator returned. The 16-bit seed and
      result are given as their bits. */
  method CrcCcitt(data: seq<bv8>, seed: Register) returns (r: Register)
    ensures r == Crc16(data, seed)
  {
    var crc: bv32 := Word(seed) as bv32;
    WordHasBits(seed);
    assert Low16(crc) == WordBits(Word(seed));
    for count := 0 to |data|
      invariant Low16(crc) == Crc16(data[..count], seed)
    {
      crc := ByteCrcCcitt(data[count], crc);
      CrcSnoc(data[..count], data[count], seed);
      assert data[..count + 1] == data[..count] + [data[count]];
    }
    assert data[..|data|] == data;
    r := Low16(crc);
  }
}
