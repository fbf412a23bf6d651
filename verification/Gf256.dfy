/** Byte arithmetic of AES: the field GF(2)[x] / (x^8 + x^4 + x^3 + x + 1) of FIPS 197 section 4.2. */
module Gf256 {
  import opened Gf2Poly

  /** b * x: the modulus is taken away when b has a leading coefficient. */
  function XTime(b: bv8): bv8 {
    (b << 1) ^ (0x1b & (0 - (b >> 7)))
  }

  /** acc * x, plus b when the next coefficient of the multiplier is 1 */
  function Horner(acc: bv8, b: bv8, bit: bv8): bv8 {
    XTime(acc) ^ (b & (0 - bit))
  }

  /** a * b, from the most significant coefficient of a down */
  function Mul(a: bv8, b: bv8): bv8 {
    Horner(Horner(Horner(Horner(Horner(Horner(Horner(Horner(0,
      b, a >> 7), b, (a >> 6) & 1), b, (a >> 5) & 1), b, (a >> 4) & 1),
      b, (a >> 3) & 1), b, (a >> 2) & 1), b, (a >> 1) & 1), b, a & 1)
  }

  // ----- bytes as polynomials -----

  /** The coefficient of x^(7 - i) */
  function Bit(x: bv8, i: nat): bool
    requires i < 8
  {
    match i
    case 0 => x & 0x80 != 0
    case 1 => x & 0x40 != 0
    case 2 => x & 0x20 != 0
    case 3 => x & 0x10 != 0
    case 4 => x & 0x08 != 0
    case 5 => x & 0x04 != 0
    case 6 => x & 0x02 != 0
    case _ => x & 0x01 != 0
  }

  function Poly(x: bv8): (p: Bits)
    ensures |p| == 8
  {
    seq(8, i requires 0 <= i < 8 => Bit(x, i))
  }

  /** x^8 + x^4 + x^3 + x + 1 without its leading term */
  const MODULUS: Bits := Poly(0x1b)

  lemma XorHighBit(x: bv8, y: bv8, i: nat)
    requires i < 4
    ensures Bit(x ^ y, i) == (Bit(x, i) != Bit(y, i))
  {
    match i
    case 0 => assert (x ^ y) & 0x80 == (x & 0x80) ^ (y & 0x80);
    case 1 => assert (x ^ y) & 0x40 == (x & 0x40) ^ (y & 0x40);
    case 2 => assert (x ^ y) & 0x20 == (x & 0x20) ^ (y & 0x20);
    case 3 => assert (x ^ y) & 0x10 == (x & 0x10) ^ (y & 0x10);
  }

  lemma XorLowBit(x: bv8, y: bv8, i: nat)
    requires 4 <= i < 8
    ensures Bit(x ^ y, i) == (Bit(x, i) != Bit(y, i))
  {
    match i
    case 4 => assert (x ^ y) & 0x08 == (x & 0x08) ^ (y & 0x08);
    case 5 => assert (x ^ y) & 0x04 == (x & 0x04) ^ (y & 0x04);
    case 6 => assert (x ^ y) & 0x02 == (x & 0x02) ^ (y & 0x02);
    case 7 => assert (x ^ y) & 0x01 == (x & 0x01) ^ (y & 0x01);
  }

  lemma PolyXor(x: bv8, y: bv8)
    ensures Poly(x ^ y) == Xor(Poly(x), Poly(y))
  {
    forall i | 0 <= i < 8
      ensures Poly(x ^ y)[i] == Xor(Poly(x), Poly(y))[i]
    {
      if i < 4 {
        XorHighBit(x, y, i);
      } else {
        XorLowBit(x, y, i);
      }
    }
  }

  lemma PolyInjective(x: bv8, y: bv8)
    requires Poly(x) == Poly(y)
    ensures x == y
  {
    assert forall i :: 0 <= i < 8 ==> Bit(x, i) == Poly(x)[i];
    assert forall i :: 0 <= i < 8 ==> Bit(y, i) == Poly(y)[i];
    assert Bit(x, 0) == Bit(y, 0) && Bit(x, 1) == Bit(y, 1) && Bit(x, 2) == Bit(y, 2) && Bit(x, 3) == Bit(y, 3);
    assert Bit(x, 4) == Bit(y, 4) && Bit(x, 5) == Bit(y, 5) && Bit(x, 6) == Bit(y, 6) && Bit(x, 7) == Bit(y, 7);
  }

  lemma PolyShl(x: bv8)
    ensures Poly(x << 1) == Poly(x)[1..] + [false]
  {}

  lemma PolyZero()
    ensures Poly(0) == Zeros(8)
  {}

  lemma XTimeCases(b: bv8)
    ensures XTime(b) == if b & 0x80 == 0 then b << 1 else (b << 1) ^ 0x1b
  {}

  lemma XTimeIsFeed(b: bv8)
    ensures Poly(XTime(b)) == Feed(MODULUS, Poly(b), false)
  {
    XTimeCases(b);
    PolyShl(b);
    PolyXor(b << 1, 0x1b);
  }

  // ----- Mul is multiplication of polynomials, reduced by the modulus -----

  /** p * x, plus b when the next coefficient of the multiplier is set */
  function ShiftAdd(p: Bits, b: Bits, bit: bool): (r: Bits)
    requires |b| <= |p|
    ensures |r| == |p| + 1
  {
    if bit then Xor(p + [false], Zeros(|p| + 1 - |b|) + b) else p + [false]
  }

  /** The unreduced product of p and the n top coefficients of a */
  function CarryLess(a: bv8, p: Bits, n: nat): (r: Bits)
    requires n <= 8 == |p|
    ensures |r| == 8 + n
  {
    if n == 0 then Zeros(8) else ShiftAdd(CarryLess(a, p, n - 1), p, Bit(a, n - 1))
  }

  /** The product of a and p, reduced by the modulus */
  function Scale(a: bv8, p: Bits): (r: Bits)
    requires |p| == 8
    ensures |r| == 8
  {
    Remainder(MODULUS, CarryLess(a, p, 8))
  }

  /** p * x, reduced */
  function Double(p: Bits): (r: Bits)
    requires |p| == 8
    ensures |r| == 8
  {
    Feed(MODULUS, p, false)
  }

  function Cond(bit: bool, p: Bits): (r: Bits)
    requires |p| == 8
    ensures |r| == 8
  {
    if bit then p else Zeros(8)
  }

  /** The product of p and the n top coefficients of a, reduced */
  function TopScale(a: bv8, p: Bits, n: nat): (r: Bits)
    requires n <= 8 == |p|
    ensures |r| == 8
  {
    Remainder(MODULUS, CarryLess(a, p, n))
  }

  /** Reduction may follow every coefficient. */
  lemma TopScaleStep(a: bv8, p: Bits, n: nat)
    requires n < 8 == |p|
    ensures TopScale(a, p, n + 1) == Xor(Double(TopScale(a, p, n)), Cond(Bit(a, n), p))
  {
    var c := CarryLess(a, p, n);
    RemainderSnoc(MODULUS, c);
    if Bit(a, n) {
      RemainderLinear(MODULUS, c + [false], Zeros(n + 1) + p);
      LeadingZeros(MODULUS, n + 1, p);
    } else {
      XorZeros(Double(TopScale(a, p, n)));
    }
  }

  lemma XorZeros(p: Bits)
    ensures Xor(p, Zeros(|p|)) == p && Xor(Zeros(|p|), p) == p
  {}

  lemma HornerCases(acc: bv8, b: bv8, bit: bv8)
    requires bit <= 1
    ensures Horner(acc, b, bit) == if bit == 1 then XTime(acc) ^ b else XTime(acc)
  {
    assert 0 - bit == if bit == 1 then 0xff else 0;
  }

  /** The next coefficient of the multiplier */
  lemma HornerStep(acc: bv8, a: bv8, b: bv8, bit: bv8, n: nat)
    requires n < 8 && bit <= 1 && (bit == 1 <==> Bit(a, n)) && Poly(acc) == TopScale(a, Poly(b), n)
    ensures Poly(Horner(acc, b, bit)) == TopScale(a, Poly(b), n + 1)
  {
    HornerCases(acc, b, bit);
    XTimeIsFeed(acc);
    TopScaleStep(a, Poly(b), n);
    if bit == 1 {
      PolyXor(XTime(acc), b);
    } else {
      XorZeros(Double(Poly(acc)));
    }
  }

  lemma TwoSteps(acc: bv8, a: bv8, b: bv8, bit: bv8, next: bv8, n: nat)
    requires n < 7 && bit <= 1 && next <= 1 && (bit == 1 <==> Bit(a, n)) && (next == 1 <==> Bit(a, n + 1))
    requires Poly(acc) == TopScale(a, Poly(b), n)
    ensures Poly(Horner(Horner(acc, b, bit), b, next)) == TopScale(a, Poly(b), n + 2)
  {
    HornerStep(acc, a, b, bit, n);
    HornerStep(Horner(acc, b, bit), a, b, next, n + 1);
  }

  lemma HighCoefficients(a: bv8)
    ensures a >> 7 <= 1 && (a >> 7 == 1 <==> Bit(a, 0)) && ((a >> 6) & 1 == 1 <==> Bit(a, 1))
    ensures ((a >> 5) & 1 == 1 <==> Bit(a, 2)) && ((a >> 4) & 1 == 1 <==> Bit(a, 3))
  {}

  lemma LowCoefficients(a: bv8)
    ensures ((a >> 3) & 1 == 1 <==> Bit(a, 4)) && ((a >> 2) & 1 == 1 <==> Bit(a, 5))
    ensures ((a >> 1) & 1 == 1 <==> Bit(a, 6)) && (a & 1 == 1 <==> Bit(a, 7))
  {}

  /** The steps for the four high coefficients */
  function MulHigh(a: bv8, b: bv8): bv8 {
    Horner(Horner(Horner(Horner(0, b, a >> 7), b, (a >> 6) & 1), b, (a >> 5) & 1), b, (a >> 4) & 1)
  }

  lemma MulHighIsTopScale(a: bv8, b: bv8)
    ensures Poly(MulHigh(a, b)) == TopScale(a, Poly(b), 4)
  {
    PolyZero();
    HighCoefficients(a);
    var h := Horner(Horner(0, b, a >> 7), b, (a >> 6) & 1);
    TwoSteps(0, a, b, a >> 7, (a >> 6) & 1, 0);
    TwoSteps(h, a, b, (a >> 5) & 1, (a >> 4) & 1, 2);
  }

  /** The steps for the four low coefficients, from acc on */
  function MulLow(acc: bv8, a: bv8, b: bv8): bv8 {
    Horner(Horner(Horner(Horner(acc, b, (a >> 3) & 1), b, (a >> 2) & 1), b, (a >> 1) & 1), b, a & 1)
  }

  lemma MulLowIsScale(acc: bv8, a: bv8, b: bv8)
    requires Poly(acc) == TopScale(a, Poly(b), 4)
    ensures Poly(MulLow(acc, a, b)) == Scale(a, Poly(b))
  {
    LowCoefficients(a);
    var h := Horner(Horner(acc, b, (a >> 3) & 1), b, (a >> 2) & 1);
    TwoSteps(acc, a, b, (a >> 3) & 1, (a >> 2) & 1, 4);
    TwoSteps(h, a, b, (a >> 1) & 1, a & 1, 6);
  }

  lemma MulSplits(a: bv8, b: bv8)
    ensures Mul(a, b) == MulLow(MulHigh(a, b), a, b)
  {}

  /** Mul multiplies in the field: its result is what the polynomial product leaves modulo the modulus. */
  lemma MulIsScale(a: bv8, b: bv8)
    ensures Poly(Mul(a, b)) == Scale(a, Poly(b))
  {
    MulSplits(a, b);
    MulHighIsTopScale(a, b);
    MulLowIsScale(MulHigh(a, b), a, b);
  }

  lemma ShiftAddAdditive(p: Bits, q: Bits, b: Bits, c: Bits, bit: bool)
    requires |p| == |q| >= |b| == |c|
    ensures ShiftAdd(Xor(p, q), Xor(b, c), bit) == Xor(ShiftAdd(p, b, bit), ShiftAdd(q, c, bit))
  {
    if bit {} else {}
  }

  lemma {:induction false} CarryLessAdditive(a: bv8, p: Bits, q: Bits, n: nat)
    requires n <= 8 == |p| == |q|
    ensures CarryLess(a, Xor(p, q), n) == Xor(CarryLess(a, p, n), CarryLess(a, q, n))
  {
    if n == 0 {
    } else {
      CarryLessAdditive(a, p, q, n - 1);
      ShiftAddAdditive(CarryLess(a, p, n - 1), CarryLess(a, q, n - 1), p, q, Bit(a, n - 1));
    }
  }

  lemma ScaleAdditive(a: bv8, p: Bits, q: Bits)
    requires |p| == |q| == 8
    ensures Scale(a, Xor(p, q)) == Xor(Scale(a, p), Scale(a, q))
  {
    CarryLessAdditive(a, p, q, 8);
    RemainderLinear(MODULUS, CarryLess(a, p, 8), CarryLess(a, q, 8));
  }

  /** The product in the field: the byte left by the polynomial product modulo the modulus */
  ghost function Product(a: bv8, b: bv8): (r: bv8)
    ensures Poly(r) == Scale(a, Poly(b))
  {
    MulIsScale(a, b);
    var r: bv8 :| Poly(r) == Scale(a, Poly(b));
    r
  }

  // ----- multipliers of four coefficients -----

  lemma DoubleXor(p: Bits, q: Bits)
    requires |p| == |q| == 8
    ensures Double(Xor(p, q)) == Xor(Double(p), Double(q))
  {
    FeedLinear(MODULUS, p, q);
  }

  lemma DoubleCond(bit: bool, p: Bits)
    requires |p| == 8
    ensures Double(Cond(bit, p)) == Cond(bit, Double(p))
  {
    if !bit {
      DoubleZeros();
    }
  }

  lemma DoubleZeros()
    ensures Double(Zeros(8)) == Zeros(8)
  {
    FeedZeros(MODULUS);
  }

  /** The four high coefficients contribute nothing when they are zero. */
  lemma HighZero(a: bv8, p: Bits)
    requires |p| == 8 && !Bit(a, 0) && !Bit(a, 1) && !Bit(a, 2) && !Bit(a, 3)
    ensures TopScale(a, p, 4) == Zeros(8)
  {
    DoubleZeros();
    XorZeros(Zeros(8));
    TopScaleStep(a, p, 0);
    TopScaleStep(a, p, 1);
    TopScaleStep(a, p, 2);
    TopScaleStep(a, p, 3);
  }

  /** The sum of two reduced products, doubled once more */
  lemma DoubleSum(s: Bits, bit: bool, p: Bits)
    requires |s| == |p| == 8
    ensures Double(Xor(s, Cond(bit, p))) == Xor(Double(s), Cond(bit, Double(p)))
  {
    DoubleXor(s, Cond(bit, p));
    DoubleCond(bit, p);
  }

  /** The product of p and a multiplier below 16, from p and its first three doublings */
  lemma FourTerms(a: bv8, p: Bits, p1: Bits, p2: Bits, p3: Bits)
    requires |p| == 8 && !Bit(a, 0) && !Bit(a, 1) && !Bit(a, 2) && !Bit(a, 3)
    requires p1 == Double(p) && p2 == Double(p1) && p3 == Double(p2)
    ensures Scale(a, p)
         == Xor(Xor(Xor(Cond(Bit(a, 4), p3), Cond(Bit(a, 5), p2)), Cond(Bit(a, 6), p1)), Cond(Bit(a, 7), p))
  {
    var b4, b5, b6, b7 := Bit(a, 4), Bit(a, 5), Bit(a, 6), Bit(a, 7);
    HighZero(a, p);
    DoubleZeros();
    XorZeros(Cond(b4, p));
    TopScaleStep(a, p, 4);
    assert TopScale(a, p, 5) == Cond(b4, p);
    TopScaleStep(a, p, 5);
    DoubleCond(b4, p);
    assert TopScale(a, p, 6) == Xor(Cond(b4, p1), Cond(b5, p));
    TopScaleStep(a, p, 6);
    DoubleSum(Cond(b4, p1), b5, p);
    DoubleCond(b4, p1);
    assert TopScale(a, p, 7) == Xor(Xor(Cond(b4, p2), Cond(b5, p1)), Cond(b6, p));
    TopScaleStep(a, p, 7);
    DoubleSum(Xor(Cond(b4, p2), Cond(b5, p1)), b6, p);
    DoubleSum(Cond(b4, p2), b5, p1);
    DoubleCond(b4, p2);
  }

  lemma {:induction false} TopScaleDouble(a: bv8, p: Bits, n: nat)
    requires n <= 8 == |p|
    ensures TopScale(a, Double(p), n) == Double(TopScale(a, p, n))
  {
    if n == 0 {
      DoubleZeros();
    } else {
      TopScaleDouble(a, p, n - 1);
      TopScaleStep(a, p, n - 1);
      TopScaleStep(a, Double(p), n - 1);
      DoubleSum(Double(TopScale(a, p, n - 1)), Bit(a, n - 1), p);
    }
  }

  /** Multiplication by a commutes with multiplication by x. */
  lemma ScaleDouble(a: bv8, p: Bits)
    requires |p| == 8
    ensures Scale(a, Double(p)) == Double(Scale(a, p))
  {
    TopScaleDouble(a, p, 8);
  }

  // ----- FFmul: the four low coefficients of a, lowest first -----

  /** The product of p and x^n, reduced */
  function Shifted(p: Bits, n: nat): (r: Bits)
    requires |p| == 8
    ensures |r| == 8
  {
    Remainder(MODULUS, p + Zeros(n))
  }

  lemma ShiftedNext(p: Bits, n: nat)
    requires |p| == 8
    ensures Shifted(p, 0) == p
    ensures Shifted(p, n + 1) == Double(Shifted(p, n))
  {
    assert p + Zeros(0) == p;
    assert p + Zeros(n + 1) == (p + Zeros(n)) + [false];
    RemainderSnoc(MODULUS, p + Zeros(n));
  }

  /** The terms of the n low coefficients of a */
  function LowTerms(a: bv8, p: Bits, n: nat): (r: Bits)
    requires n <= 4 && |p| == 8
    ensures |r| == 8
  {
    if n == 0 then Zeros(8) else Xor(LowTerms(a, p, n - 1), Cond(Bit(a, 8 - n), Shifted(p, n - 1)))
  }

  lemma LowNibble(a: bv8)
    ensures !Bit(a & 0x0f, 0) && !Bit(a & 0x0f, 1) && !Bit(a & 0x0f, 2) && !Bit(a & 0x0f, 3)
    ensures Bit(a & 0x0f, 4) == Bit(a, 4) && Bit(a & 0x0f, 5) == Bit(a, 5)
    ensures Bit(a & 0x0f, 6) == Bit(a, 6) && Bit(a & 0x0f, 7) == Bit(a, 7)
  {}

  /** Four terms make the product by the low four coefficients. */
  lemma LowTermsAreScale(a: bv8, p: Bits)
    requires |p| == 8
    ensures LowTerms(a, p, 4) == Scale(a & 0x0f, p)
  {
    var p1, p2, p3 := Double(p), Double(Double(p)), Double(Double(Double(p)));
    ShiftedNext(p, 0);
    ShiftedNext(p, 1);
    ShiftedNext(p, 2);
    LowNibble(a);
    FourTerms(a & 0x0f, p, p1, p2, p3);
    Reordered(Cond(Bit(a, 4), p3), Cond(Bit(a, 5), p2), Cond(Bit(a, 6), p1), Cond(Bit(a, 7), p));
    assert LowTerms(a, p, 1) == Xor(Zeros(8), Cond(Bit(a, 7), p));
    assert LowTerms(a, p, 2) == Xor(LowTerms(a, p, 1), Cond(Bit(a, 6), p1));
    assert LowTerms(a, p, 3) == Xor(LowTerms(a, p, 2), Cond(Bit(a, 5), p2));
  }

  lemma Reordered(t4: Bits, t5: Bits, t6: Bits, t7: Bits)
    requires |t4| == |t5| == |t6| == |t7| == 8
    ensures Xor(Xor(Xor(Xor(Zeros(8), t7), t6), t5), t4) == Xor(Xor(Xor(t4, t5), t6), t7)
  {}

  /** The test of the second loop of FFmul */
  lemma TestedBit(a: bv8, i: nat)
    requires i < 4
    ensures (a >> i) & 0x01 != 0 <==> Bit(a, 7 - i)
  {
    match i
    case 0 => assert a >> 0 == a;
    case 1 => assert (a >> 1) & 0x01 != 0 <==> a & 0x02 != 0;
    case 2 => assert (a >> 2) & 0x01 != 0 <==> a & 0x04 != 0;
    case 3 => assert (a >> 3) & 0x01 != 0 <==> a & 0x08 != 0;
  }

  /** One pass of the first loop of FFmul */
  method Doubled(x: bv8) returns (y: bv8)
    ensures Poly(y) == Double(Poly(x))
  {
    y := x << 1;
    if x & 0x80 != 0 {
      y := y ^ 0x1b;
    }
    XTimeCases(x);
    XTimeIsFeed(x);
  }

  /** The first loop of FFmul: b times the powers of x */
  method Doubles(b: bv8) returns (bw: array<bv8>)
    ensures fresh(bw) && bw.Length == 4
    ensures forall k :: 0 <= k < 4 ==> Poly(bw[k]) == Remainder(MODULUS, Poly(b) + Zeros(k))
  {
    bw := new bv8[4];
    bw[0] := b;
    ShiftedNext(Poly(b), 0);
    for i := 1 to 4
      invariant forall k :: 0 <= k < i ==> Poly(bw[k]) == Shifted(Poly(b), k)
    {
      bw[i] := Doubled(bw[i - 1]);
      ShiftedNext(Poly(b), i - 1);
    }
  }

  /** One pass of the second loop of FFmul */
  method AddTerm(a: bv8, i: nat, res: bv8, term: bv8, ghost p: Bits) returns (next: bv8)
    requires i < 4 && |p| == 8 && Poly(res) == LowTerms(a, p, i) && Poly(term) == Shifted(p, i)
    ensures Poly(next) == LowTerms(a, p, i + 1)
  {
    next := res;
    TestedBit(a, i);
    if (a >> i) & 0x01 != 0 {
      next := next ^ term;
      PolyXor(res, term);
    } else {
      XorZeros(Poly(res));
    }
  }

  /** The program's multiplication uses only the four low bits of a. */
  method FFmul(a: bv8, b: bv8) returns (res: bv8)
    ensures res == Product(a & 0x0f, b)
  {
    ghost var p := Poly(b);
    var bw := Doubles(b);
    res := 0;
    PolyZero();
    for i := 0 to 4
      invariant Poly(res) == LowTerms(a, p, i)
      invariant forall k :: 0 <= k < 4 ==> Poly(bw[k]) == Shifted(p, k)
    {
      res := AddTerm(a, i, res, bw[i], p);
    }
    LowTermsAreScale(a, p);
    assert Poly(res) == Scale(a & 0x0f, p);
    PolyInjective(res, Product(a & 0x0f, b));
  }
}
