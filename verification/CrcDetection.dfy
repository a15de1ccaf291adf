/** What the CRC of main/system/crc.c promises: which errors it always detects, and the residue a message
leaves when followed by its own CRC. That it is a polynomial remainder is the subject of Polynomials.dfy. */
module CrcDetection {
  import opened Crc

  // ---------------------------------------------------------------- error detection

  lemma BitStepInjective(a: Register, b: Register, bit: bool)
    requires BitStep(a, bit) == BitStep(b, bit)
    ensures a == b
  {
    var x, y := BitStep(a, bit), BitStep(b, bit);
    assert x[15] == (a[0] != bit) && y[15] == (b[0] != bit);
    forall k | 0 < k < 16
      ensures a[k] == b[k]
    {
      assert x[k - 1] == y[k - 1];
      assert (a[1..] + [false])[k - 1] == a[k];
      assert (b[1..] + [false])[k - 1] == b[k];
    }
  }

  /** On one message no two states ever meet. */
  lemma {:induction false} RemainderInjective(bits: seq<bool>, a: Register, b: Register)
    requires Remainder(bits, a) == Remainder(bits, b)
    ensures a == b
    decreases |bits|
  {
    if bits != [] {
      var head := bits[..|bits| - 1];
      BitStepInjective(Remainder(head, a), Remainder(head, b), bits[|bits| - 1]);
      RemainderInjective(head, a, b);
    }
  }

  /** The state that a step leaves at `t`: the bit fed back is the lowest one, because the generator's lowest
      coefficient is one. */
  function Undo(t: Register, bit: bool): Register {
    [t[15] != bit] + (if t[15] then Xor(t, POLYNOMIAL) else t)[..15]
  }

  lemma UndoneStep(t: Register, bit: bool)
    ensures BitStep(Undo(t, bit), bit) == t
  {
    var r := Undo(t, bit);
    var shifted := r[1..] + [false];
    forall k | 0 <= k < 16
      ensures BitStep(r, bit)[k] == t[k]
    {
      assert shifted[k] == if k == 15 then false else (if t[15] then Xor(t, POLYNOMIAL) else t)[k];
    }
  }

  lemma {:induction false} RemainderOnto(bits: seq<bool>, t: Register) returns (seed: Register)
    ensures Remainder(bits, seed) == t
    decreases |bits|
  {
    if bits == [] {
      seed := t;
    } else {
      var last := |bits| - 1;
      seed := RemainderOnto(bits[..last], Undo(t, bits[last]));
      UndoneStep(t, bits[last]);
    }
  }

  /** On one message the register moves as a bijection: every state is reached from exactly one seed. */
  lemma RemainderBijective(bits: seq<bool>, t: Register)
    ensures exists seed: Register ::
              Remainder(bits, seed) == t && forall other: Register :: Remainder(bits, other) == t ==> other == seed
  {
    var seed := RemainderOnto(bits, t);
    forall other: Register | Remainder(bits, other) == t
      ensures other == seed
    {
      RemainderInjective(bits, other, seed);
    }
  }

  /** Going back over two windows that may differ: the low bits of the two start states agree. */
  lemma {:induction false} WindowStartsAgree(v: seq<bool>, w: seq<bool>, a: Register, b: Register)
    requires |v| == |w| <= 16
    requires Remainder(v, a) == Remainder(w, b)
    ensures a[|v|..] == b[|v|..]
    decreases |v|
  {
    if v != [] {
      var n := |v|;
      RemainderFront(v, a);
      RemainderFront(w, b);
      var a1, b1 := BitStep(a, v[0]), BitStep(b, w[0]);
      WindowStartsAgree(v[1..], w[1..], a1, b1);
      SuffixAt(a1, b1, n - 1, 15);
      assert a1[15] == (a[0] != v[0]) && b1[15] == (b[0] != w[0]);
      forall k | n <= k < 16
        ensures a[k] == b[k]
      {
        SuffixAt(a1, b1, n - 1, k - 1);
        assert (a[1..] + [false])[k - 1] == a[k];
        assert (b[1..] + [false])[k - 1] == b[k];
      }
    }
  }

  lemma SuffixAt(a: Register, b: Register, n: nat, k: nat)
    requires n <= k < 16 && a[n..] == b[n..]
    ensures a[k] == b[k]
  {
    assert a[n..][k - n] == b[n..][k - n];
  }

  /** From one state, two different windows of at most 16 bits lead to two different states. */
  lemma {:induction false} WindowDetected(v: seq<bool>, w: seq<bool>, a: Register)
    requires |v| == |w| <= 16
    requires Remainder(v, a) == Remainder(w, a)
    ensures v == w
    decreases |v|
  {
    if v != [] {
      RemainderFront(v, a);
      RemainderFront(w, a);
      var a1, b1 := BitStep(a, v[0]), BitStep(a, w[0]);
      WindowStartsAgree(v[1..], w[1..], a1, b1);
      SuffixAt(a1, b1, |v| - 1, 15);
      assert v[0] == w[0];
      WindowDetected(v[1..], w[1..], a1);
      assert v == [v[0]] + v[1..] && w == [w[0]] + w[1..];
    }
  }

  /** Every burst error of at most 16 bits is detected, whatever surrounds it and wherever it falls. */
  lemma BurstDetected(before: seq<bool>, v: seq<bool>, w: seq<bool>, after: seq<bool>, seed: Register)
    requires |v| == |w| <= 16
    ensures Remainder(before + v + after, seed) == Remainder(before + w + after, seed) <==> v == w
  {
    RemainderConcat(before + v, after, seed);
    RemainderConcat(before + w, after, seed);
    RemainderConcat(before, v, seed);
    RemainderConcat(before, w, seed);
    if Remainder(before + v + after, seed) == Remainder(before + w + after, seed) {
      RemainderInjective(after, Remainder(before + v, seed), Remainder(before + w, seed));
      WindowDetected(v, w, Remainder(before, seed));
    }
  }

  lemma ByteBitsInjective(a: bv8, b: bv8)
    requires ByteBits(a) == ByteBits(b)
    ensures a == b
  {
    var x, y := ByteBits(a), ByteBits(b);
    assert x[0] == y[0] && x[1] == y[1] && x[2] == y[2] && x[3] == y[3];
    assert x[4] == y[4] && x[5] == y[5] && x[6] == y[6] && x[7] == y[7];
  }

  /** Two messages of one length that differ inside two adjacent bytes only have different CRCs. */
  lemma TwoByteErrorDetected(before: seq<bv8>, a: bv8, b: bv8, c: bv8, d: bv8, after: seq<bv8>, seed: Register)
    ensures Crc16(before + [a, b] + after, seed) == Crc16(before + [c, d] + after, seed) <==> a == c && b == d
  {
    TwoByteBits(before, a, b, after);
    TwoByteBits(before, c, d, after);
    var v, w := ByteBits(a) + ByteBits(b), ByteBits(c) + ByteBits(d);
    BurstDetected(Bits(before), v, w, Bits(after), seed);
    if v == w {
      assert v[..8] == ByteBits(a) && w[..8] == ByteBits(c);
      assert v[8..] == ByteBits(b) && w[8..] == ByteBits(d);
      ByteBitsInjective(a, c);
      ByteBitsInjective(b, d);
    }
  }

  lemma TwoByteBits(before: seq<bv8>, a: bv8, b: bv8, after: seq<bv8>)
    ensures Bits(before + [a, b] + after) == Bits(before) + (ByteBits(a) + ByteBits(b)) + Bits(after)
  {
    BitsConcat(before + [a, b], after);
    BitsConcat(before, [a, b]);
    BitsPair(a, b);
  }

  lemma BitsPair(a: bv8, b: bv8)
    ensures Bits([a, b]) == ByteBits(a) + ByteBits(b)
  {
    assert [a, b][..1] == [a];
    assert [a][..0] == [];
    assert Bits([a]) == Bits([]) + ByteBits(a);
    assert Bits([a]) == ByteBits(a);
  }

  // ---------------------------------------------------------------- odd numbers of errors

  /** Whether an odd number of bits is set. */
  function Parity(bits: seq<bool>): bool {
    if bits == [] then false else Parity(bits[..|bits| - 1]) != bits[|bits| - 1]
  }

  lemma {:induction false} ParityFront(bits: seq<bool>)
    requires bits != []
    ensures Parity(bits) == (bits[0] != Parity(bits[1..]))
    decreases |bits|
  {
    var last := |bits| - 1;
    if last == 0 {
      assert bits[..0] == [] && bits[1..] == [];
    } else {
      ParityFront(bits[..last]);
      assert bits[..last][1..] == bits[1..][..last - 1];
    }
  }

  lemma {:induction false} ParityXor(a: seq<bool>, b: seq<bool>)
    requires |a| == |b|
    ensures Parity(Xor(a, b)) == (Parity(a) != Parity(b))
    decreases |a|
  {
    if a != [] {
      var last := |a| - 1;
      ParityXor(a[..last], b[..last]);
      assert Xor(a, b)[..last] == Xor(a[..last], b[..last]);
    }
  }

  lemma PolynomialIsOdd()
    ensures Parity(POLYNOMIAL)
  {
    var head := POLYNOMIAL[..4];
    ParityZeros(POLYNOMIAL[..3]);
    assert POLYNOMIAL[..4][..3] == POLYNOMIAL[..3];
    ParityOfZeroTail(POLYNOMIAL[..10], 4);
    assert POLYNOMIAL[..10][..4] == POLYNOMIAL[..4];
    assert POLYNOMIAL[..11][..10] == POLYNOMIAL[..10];
    ParityOfZeroTail(POLYNOMIAL[..15], 11);
    assert POLYNOMIAL[..15][..11] == POLYNOMIAL[..11];
  }

  lemma {:induction false} ParityZeros(bits: seq<bool>)
    requires true !in bits
    ensures !Parity(bits)
    decreases |bits|
  {
    if bits != [] {
      ParityZeros(bits[..|bits| - 1]);
      assert bits[|bits| - 1] in bits;
    }
  }

  lemma {:induction false} ParityOfZeroTail(bits: seq<bool>, n: nat)
    requires n <= |bits| && forall k | n <= k < |bits| :: !bits[k]
    ensures Parity(bits) == Parity(bits[..n])
    decreases |bits|
  {
    if n == |bits| {
      assert bits[..n] == bits;
    } else {
      ParityOfZeroTail(bits[..|bits| - 1], n);
      assert bits[..|bits| - 1][..n] == bits[..n];
    }
  }

  /** The generator has an even number of terms, so a step changes the parity by just the message bit. */
  lemma StepParity(r: Register, bit: bool)
    ensures Parity(BitStep(r, bit)) == (Parity(r) != bit)
  {
    var shifted := r[1..] + [false];
    ParityFront(r);
    assert shifted[..15] == r[1..];
    ParityXor(shifted, POLYNOMIAL);
    PolynomialIsOdd();
  }

  lemma {:induction false} RemainderParity(bits: seq<bool>, seed: Register)
    ensures Parity(Remainder(bits, seed)) == (Parity(bits) != Parity(seed))
    decreases |bits|
  {
    if bits != [] {
      var last := |bits| - 1;
      RemainderParity(bits[..last], seed);
      StepParity(Remainder(bits[..last], seed), bits[last]);
    }
  }

  /** In how many bits two messages differ. */
  function Differences(a: seq<bool>, b: seq<bool>): nat
    requires |a| == |b|
  {
    if a == [] then 0
    else
      var last := |a| - 1;
      Differences(a[..last], b[..last]) + if a[last] != b[last] then 1 else 0
  }

  lemma {:induction false} DifferencesParity(a: seq<bool>, b: seq<bool>)
    requires |a| == |b|
    ensures Parity(a) != Parity(b) <==> Differences(a, b) % 2 == 1
    decreases |a|
  {
    if a != [] {
      DifferencesParity(a[..|a| - 1], b[..|a| - 1]);
    }
  }

  /** Every odd number of bit errors is detected, at any length. */
  lemma OddErrorsDetected(a: seq<bv8>, b: seq<bv8>, seed: Register)
    requires |a| == |b| && Differences(Bits(a), Bits(b)) % 2 == 1
    ensures Crc16(a, seed) != Crc16(b, seed)
  {
    DifferencesParity(Bits(a), Bits(b));
    RemainderParity(Bits(a), seed);
    RemainderParity(Bits(b), seed);
  }

  // ---------------------------------------------------------------- residue

  lemma {:induction false} OwnBitsShiftOut(r: Register, k: nat)
    requires k <= 16
    ensures Remainder(r[..k], r) == r[k..] + Zeros(k)
    decreases k
  {
    if k == 0 {
      assert r[..0] == [];
      assert r[0..] + Zeros(0) == r;
    } else {
      OwnBitsShiftOut(r, k - 1);
      assert r[..k][..|r[..k]| - 1] == r[..k - 1];
      var before := r[k - 1..] + Zeros(k - 1);
      assert before[0] == r[k - 1];
      assert before[1..] + [false] == r[k..] + Zeros(k);
    }
  }

  /** A message followed by two bytes leaves the zero register exactly when they are its CRC, high byte first. */
  lemma ResidueIsZero(data: seq<bv8>, high: bv8, low: bv8, seed: Register)
    ensures Crc16(data + [high, low], seed) == ZERO <==> ByteBits(high) + ByteBits(low) == Crc16(data, seed)
  {
    CrcConcat(data, [high, low], seed);
    BitsPair(high, low);
    var r := Crc16(data, seed);
    OwnBitsShiftOut(r, 16);
    assert r[..16] == r;
    assert r[16..] + Zeros(16) == ZERO;
    var t := ByteBits(high) + ByteBits(low);
    if Remainder(t, r) == ZERO {
      WindowDetected(t, r, r);
    }
  }
}
