/** The CRC register as a remainder in GF(2)[x] (section 2 of ITU-T V.41).

A polynomial is the set of exponents whose coefficient is one. The message followed by 16 zero bits, with
the seed added to its front, is congruent to the register modulo x^16 + x^12 + x^5 + 1, and no other
polynomial of degree below 16 is.
*/
module Polynomials {
  import opened Crc

  type Poly = set<nat>

  const GENERATOR: Poly := {16, 12, 5, 0}

  function Add(p: Poly, q: Poly): Poly {
    (p - q) + (q - p)
  }

  function TimesX(p: Poly): Poly {
    set e | e in p :: e + 1
  }

  /** The product of the generator and the polynomial with the given coefficients, highest first. */
  function TimesGenerator(quotient: seq<bool>): Poly {
    if quotient == [] then {}
    else
      var last := |quotient| - 1;
      Add(TimesX(TimesGenerator(quotient[..last])), if quotient[last] then GENERATOR else {})
  }

  function OfRegister(r: Register): Poly {
    set k | 0 <= k < 16 && Coefficient(r, k)
  }

  predicate Coefficient(r: Register, k: int) {
    0 <= k < 16 && r[15 - k]
  }

  /** seed * x^n + message * x^16, where the message has the n given coefficients. */
  function Dividend(bits: seq<bool>, seed: Register): Poly {
    if bits == [] then OfRegister(seed)
    else
      var last := |bits| - 1;
      Add(TimesX(Dividend(bits[..last], seed)), if bits[last] then {16} else {})
  }

  lemma InPoly(r: Register, k: nat)
    ensures k in OfRegister(r) <==> k < 16 && r[15 - k]
  {
  }

  lemma InShifted(p: Poly, k: nat)
    ensures k in TimesX(p) <==> k > 0 && k - 1 in p
  {
    if k > 0 && k - 1 in p {
      assert (k - 1) + 1 in TimesX(p);
    }
  }

  /** One register step is one step of long division. */
  lemma StepDivides(r: Register, bit: bool)
    ensures Add(TimesX(OfRegister(r)), if bit then {16} else {}) ==
            Add(if r[0] != bit then GENERATOR else {}, OfRegister(BitStep(r, bit)))
  {
    var left := Add(TimesX(OfRegister(r)), if bit then {16} else {});
    var next := BitStep(r, bit);
    var right := Add(if r[0] != bit then GENERATOR else {}, OfRegister(next));
    forall k: nat
      ensures k in left <==> k in right
    {
      InShifted(OfRegister(r), k);
      InPoly(next, k);
      if k > 0 {
        InPoly(r, k - 1);
      }
      if 0 < k < 16 {
        assert (r[1..] + [false])[15 - k] == r[16 - k];
      }
    }
  }

  lemma AddRearranged(a: Poly, b: Poly, c: Poly, d: Poly, e: Poly)
    requires Add(b, c) == Add(d, e)
    ensures Add(Add(a, b), c) == Add(Add(a, d), e)
  {
    forall k: nat
      ensures k in Add(Add(a, b), c) <==> k in Add(Add(a, d), e)
    {
      assert k in Add(b, c) <==> k in Add(d, e);
    }
  }

  lemma TimesXOfSum(p: Poly, q: Poly)
    ensures TimesX(Add(p, q)) == Add(TimesX(p), TimesX(q))
  {
    forall k: nat
      ensures k in TimesX(Add(p, q)) <==> k in Add(TimesX(p), TimesX(q))
    {
      InShifted(Add(p, q), k);
      InShifted(p, k);
      InShifted(q, k);
    }
  }

  /** The register is a remainder: dividend = quotient * generator + register, the quotient's coefficients
      being the bits fed back at each step. */
  lemma {:induction false} RegisterIsRemainder(bits: seq<bool>, seed: Register) returns (quotient: seq<bool>)
    ensures |quotient| == |bits|
    ensures Dividend(bits, seed) == Add(TimesGenerator(quotient), OfRegister(Remainder(bits, seed)))
    decreases |bits|
  {
    if bits == [] {
      quotient := [];
    } else {
      var last := |bits| - 1;
      var r := Remainder(bits[..last], seed);
      var front := RegisterIsRemainder(bits[..last], seed);
      var fed := r[0] != bits[last];
      quotient := front + [fed];
      assert quotient[..|quotient| - 1] == front;
      TimesXOfSum(TimesGenerator(front), OfRegister(r));
      StepDivides(r, bits[last]);
      AddRearranged(TimesX(TimesGenerator(front)), TimesX(OfRegister(r)), if bits[last] then {16} else {},
                    if fed then GENERATOR else {}, OfRegister(Remainder(bits, seed)));
    }
  }

  // ---------------------------------------------------------------- the remainder is unique

  lemma AddInterchange(a: Poly, b: Poly, c: Poly, d: Poly)
    ensures Add(Add(a, b), Add(c, d)) == Add(Add(a, c), Add(b, d))
  {
    forall k: nat
      ensures k in Add(Add(a, b), Add(c, d)) <==> k in Add(Add(a, c), Add(b, d))
    {
    }
  }

  lemma {:induction false} TimesGeneratorOfSum(a: seq<bool>, b: seq<bool>)
    requires |a| == |b|
    ensures TimesGenerator(Xor(a, b)) == Add(TimesGenerator(a), TimesGenerator(b))
    decreases |a|
  {
    if a != [] {
      var last := |a| - 1;
      var a0, b0 := a[..last], b[..last];
      TimesGeneratorOfSum(a0, b0);
      assert Xor(a, b)[..last] == Xor(a0, b0);
      TimesXOfSum(TimesGenerator(a0), TimesGenerator(b0));
      AddInterchange(TimesX(TimesGenerator(a0)), TimesX(TimesGenerator(b0)),
                     if a[last] then GENERATOR else {}, if b[last] then GENERATOR else {});
      assert (if a[last] != b[last] then GENERATOR else {}) ==
             Add(if a[last] then GENERATOR else {}, if b[last] then GENERATOR else {});
    }
  }

  /** A product with a non-zero polynomial has degree at least 16. */
  lemma {:induction false} ProductHasHighDegree(quotient: seq<bool>) returns (e: nat)
    requires true in quotient
    ensures e >= 16 && e in TimesGenerator(quotient)
    decreases |quotient|
  {
    var last := |quotient| - 1;
    var front := quotient[..last];
    if true in front {
      e := ProductHasHighDegree(front);
      InShifted(TimesGenerator(front), e + 1);
      e := e + 1;
    } else {
      assert quotient == front + [quotient[last]];
      ZeroQuotient(front);
      assert TimesX({}) == {};
      e := 16;
    }
  }

  lemma {:induction false} ZeroQuotient(quotient: seq<bool>)
    requires true !in quotient
    ensures TimesGenerator(quotient) == {}
    decreases |quotient|
  {
    if quotient != [] {
      ZeroQuotient(quotient[..|quotient| - 1]);
      assert TimesX({}) == {};
      assert quotient[|quotient| - 1] in quotient;
    }
  }

  /** Above degree 15 a register contributes nothing. */
  lemma HighExponent(dividend: Poly, product: Poly, r: Register, e: nat)
    requires dividend == Add(product, OfRegister(r)) && e >= 16
    ensures e in dividend <==> e in product
  {
    InPoly(r, e);
  }

  lemma QuotientIsUnique(dividend: Poly, q: seq<bool>, p: seq<bool>, a: Register, b: Register)
    requires |q| == |p|
    requires dividend == Add(TimesGenerator(q), OfRegister(a)) == Add(TimesGenerator(p), OfRegister(b))
    ensures true !in Xor(q, p)
  {
    TimesGeneratorOfSum(q, p);
    if true in Xor(q, p) {
      var e := ProductHasHighDegree(Xor(q, p));
      HighExponent(dividend, TimesGenerator(q), a, e);
      HighExponent(dividend, TimesGenerator(p), b, e);
      assert false;
    }
  }

  /** Leading zero coefficients do not change a product. */
  lemma {:induction false} LeadingZeros(n: nat, quotient: seq<bool>)
    ensures TimesGenerator(Zeros(n) + quotient) == TimesGenerator(quotient)
    decreases |quotient|
  {
    if quotient == [] {
      ZeroQuotient(Zeros(n));
      assert Zeros(n) + quotient == Zeros(n);
    } else {
      var last := |quotient| - 1;
      LeadingZeros(n, quotient[..last]);
      assert (Zeros(n) + quotient)[..n + last] == Zeros(n) + quotient[..last];
    }
  }

  lemma EqualWhenSumIsZero(p: Poly, q: Poly)
    requires Add(p, q) == {}
    ensures p == q
  {
    forall k: nat
      ensures k in p <==> k in q
    {
      assert k !in Add(p, q);
    }
  }

  lemma Cancel(p: Poly, a: Poly, b: Poly)
    requires Add(p, a) == Add(p, b)
    ensures a == b
  {
    forall k: nat
      ensures k in a <==> k in b
    {
      assert k in Add(p, a) <==> k in Add(p, b);
    }
  }

  lemma OfRegisterInjective(a: Register, b: Register)
    requires OfRegister(a) == OfRegister(b)
    ensures a == b
  {
    forall i | 0 <= i < 16
      ensures a[i] == b[i]
    {
      InPoly(a, 15 - i);
      InPoly(b, 15 - i);
    }
  }

  lemma SameRemainder(dividend: Poly, q: seq<bool>, p: seq<bool>, a: Register, b: Register)
    requires |q| == |p|
    requires dividend == Add(TimesGenerator(q), OfRegister(a)) == Add(TimesGenerator(p), OfRegister(b))
    ensures a == b
  {
    QuotientIsUnique(dividend, q, p, a, b);
    TimesGeneratorOfSum(q, p);
    ZeroQuotient(Xor(q, p));
    EqualWhenSumIsZero(TimesGenerator(q), TimesGenerator(p));
    Cancel(TimesGenerator(q), OfRegister(a), OfRegister(b));
    OfRegisterInjective(a, b);
  }

  /** No other quotient, of any degree, and register make up the dividend: the CRC is the remainder of the
      division. */
  lemma RemainderIsUnique(bits: seq<bool>, seed: Register, quotient: seq<bool>, r: Register)
    ensures Dividend(bits, seed) == Add(TimesGenerator(quotient), OfRegister(r)) ==> r == Remainder(bits, seed)
  {
    if Dividend(bits, seed) == Add(TimesGenerator(quotient), OfRegister(r)) {
      var q := RegisterIsRemainder(bits, seed);
      if |quotient| <= |q| {
        var n := |q| - |quotient|;
        LeadingZeros(n, quotient);
        SameRemainder(Dividend(bits, seed), q, Zeros(n) + quotient, Remainder(bits, seed), r);
      } else {
        var n := |quotient| - |q|;
        LeadingZeros(n, q);
        SameRemainder(Dividend(bits, seed), Zeros(n) + q, quotient, Remainder(bits, seed), r);
      }
    }
  }
}
