/** The column transformations of AES (FIPS 197 sections 5.1.3 and 5.3.3). */
module ColumnMixing {
  import opened Gf2Poly
  import opened Gf256

  type Poly8 = p: Bits | |p| == 8 witness Zeros(8)

  function Sum(a: Poly8, b: Poly8, c: Poly8, d: Poly8): Poly8 {
    Xor(Xor(Xor(a, b), c), d)
  }

  /** One output byte of a column transformation, as a polynomial: a row of coefficients times a column */
  function Dot(a0: bv8, a1: bv8, a2: bv8, a3: bv8, t0: Poly8, t1: Poly8, t2: Poly8, t3: Poly8): Poly8 {
    Sum(Scale(a0, t0), Scale(a1, t1), Scale(a2, t2), Scale(a3, t3))
  }

  lemma Interchange(a0: Poly8, a1: Poly8, a2: Poly8, a3: Poly8, b0: Poly8, b1: Poly8, b2: Poly8, b3: Poly8)
    ensures Sum(Xor(a0, b0), Xor(a1, b1), Xor(a2, b2), Xor(a3, b3)) == Xor(Sum(a0, a1, a2, a3), Sum(b0, b1, b2, b3))
  {}

  lemma DotAdditive(o0: bv8, o1: bv8, o2: bv8, o3: bv8, x0: Poly8, x1: Poly8, x2: Poly8, x3: Poly8,
                    y0: Poly8, y1: Poly8, y2: Poly8, y3: Poly8)
    ensures Dot(o0, o1, o2, o3, Xor(x0, y0), Xor(x1, y1), Xor(x2, y2), Xor(x3, y3))
         == Xor(Dot(o0, o1, o2, o3, x0, x1, x2, x3), Dot(o0, o1, o2, o3, y0, y1, y2, y3))
  {
    ScaleAdditive(o0, x0, y0);
    ScaleAdditive(o1, x1, y1);
    ScaleAdditive(o2, x2, y2);
    ScaleAdditive(o3, x3, y3);
    Interchange(Scale(o0, x0), Scale(o1, x1), Scale(o2, x2), Scale(o3, x3),
                Scale(o0, y0), Scale(o1, y1), Scale(o2, y2), Scale(o3, y3));
  }

  /** The contributions of the four bytes of a column add up. */
  lemma DotOfDots(o0: bv8, o1: bv8, o2: bv8, o3: bv8, a0: Poly8, a1: Poly8, a2: Poly8, a3: Poly8,
                  b0: Poly8, b1: Poly8, b2: Poly8, b3: Poly8, c0: Poly8, c1: Poly8, c2: Poly8, c3: Poly8,
                  d0: Poly8, d1: Poly8, d2: Poly8, d3: Poly8, m0: Poly8, m1: Poly8, m2: Poly8, m3: Poly8)
    requires m0 == Sum(a0, b0, c0, d0) && m1 == Sum(b1, c1, d1, a1)
    requires m2 == Sum(c2, d2, a2, b2) && m3 == Sum(d3, a3, b3, c3)
    ensures Dot(o0, o1, o2, o3, m0, m1, m2, m3)
         == Sum(Dot(o0, o1, o2, o3, a0, a1, a2, a3), Dot(o0, o1, o2, o3, b0, b1, b2, b3),
                Dot(o0, o1, o2, o3, c0, c1, c2, c3), Dot(o0, o1, o2, o3, d0, d1, d2, d3))
  {
    var e0, e1, e2, e3 := Xor(a0, b0), Xor(a1, b1), Xor(a2, b2), Xor(a3, b3);
    var f0, f1, f2, f3 := Xor(e0, c0), Xor(e1, c1), Xor(e2, c2), Xor(e3, c3);
    DotAdditive(o0, o1, o2, o3, a0, a1, a2, a3, b0, b1, b2, b3);
    DotAdditive(o0, o1, o2, o3, e0, e1, e2, e3, c0, c1, c2, c3);
    DotAdditive(o0, o1, o2, o3, f0, f1, f2, f3, d0, d1, d2, d3);
    assert m1 == Xor(f1, d1) && m2 == Xor(f2, d2) && m3 == Xor(f3, d3);
  }

  // ----- the same on bytes -----

  lemma PolySum(a: bv8, b: bv8, c: bv8, d: bv8, ab: bv8, abc: bv8, z: bv8)
    requires ab == a ^ b && abc == ab ^ c && z == abc ^ d
    ensures Poly(z) == Sum(Poly(a), Poly(b), Poly(c), Poly(d))
  {
    PolyXor(a, b);
    PolyXor(ab, c);
    PolyXor(abc, d);
  }

  /** Output byte 0 of MixColumns on a column; output byte r is that of the column rotated by r. */
  ghost function MixByte(t0: bv8, t1: bv8, t2: bv8, t3: bv8): bv8 {
    Product(0x02, t0) ^ Product(0x03, t1) ^ Product(0x01, t2) ^ Product(0x01, t3)
  }

  /** Output byte 0 of InvMixColumns on a column */
  ghost function InvMixByte(t0: bv8, t1: bv8, t2: bv8, t3: bv8): bv8 {
    Product(0x0e, t0) ^ Product(0x0b, t1) ^ Product(0x0d, t2) ^ Product(0x09, t3)
  }

  lemma MixBytePoly(t0: bv8, t1: bv8, t2: bv8, t3: bv8)
    ensures Poly(MixByte(t0, t1, t2, t3)) == Dot(2, 3, 1, 1, Poly(t0), Poly(t1), Poly(t2), Poly(t3))
  {
    var a, b, c, d := Product(2, t0), Product(3, t1), Product(1, t2), Product(1, t3);
    PolySum(a, b, c, d, a ^ b, a ^ b ^ c, MixByte(t0, t1, t2, t3));
  }

  lemma InvMixBytePoly(t0: bv8, t1: bv8, t2: bv8, t3: bv8)
    ensures Poly(InvMixByte(t0, t1, t2, t3)) == Dot(0x0e, 0x0b, 0x0d, 0x09, Poly(t0), Poly(t1), Poly(t2), Poly(t3))
  {
    var a, b, c, d := Product(0x0e, t0), Product(0x0b, t1), Product(0x0d, t2), Product(0x09, t3);
    PolySum(a, b, c, d, a ^ b, a ^ b ^ c, InvMixByte(t0, t1, t2, t3));
  }

  // ----- the coefficients, in terms of doublings -----

  lemma MixCoefficients(q: Poly8)
    ensures Scale(1, q) == q && Scale(2, q) == Double(q) && Scale(3, q) == Xor(Double(q), q)
  {
    var z := Zeros(8);
    var q1 := Double(q);
    FourTerms(1, q, q1, Double(q1), Double(Double(q1)));
    FourTerms(2, q, q1, Double(q1), Double(Double(q1)));
    FourTerms(3, q, q1, Double(q1), Double(Double(q1)));
    assert Xor(Xor(Xor(z, z), z), q) == q;
    assert Xor(Xor(Xor(z, z), q1), z) == q1;
    assert Xor(Xor(Xor(z, z), q1), q) == Xor(q1, q);
  }

  /** Multiplication by 1, 2 and 3, on bytes */
  lemma Products(t: bv8)
    ensures Product(0x01, t) == t
    ensures Product(0x02, t) == XTime(t)
    ensures Product(0x03, t) == XTime(t) ^ t
  {
    MixCoefficients(Poly(t));
    XTimeIsFeed(t);
    PolyXor(XTime(t), t);
    PolyInjective(Product(0x01, t), t);
    PolyInjective(Product(0x02, t), XTime(t));
    PolyInjective(Product(0x03, t), XTime(t) ^ t);
  }

  /** An output byte of MixColumns, given the doublings of the first two bytes */
  lemma MixByteIs(t0: bv8, t1: bv8, t2: bv8, t3: bv8, d0: bv8, d1: bv8)
    requires d0 == (if t0 & 0x80 == 0 then t0 << 1 else (t0 << 1) ^ 0x1b)
    requires d1 == (if t1 & 0x80 == 0 then t1 << 1 else (t1 << 1) ^ 0x1b)
    ensures MixByte(t0, t1, t2, t3) == d0 ^ (d1 ^ t1) ^ t2 ^ t3
  {
    XTimeCases(t0);
    XTimeCases(t1);
    Products(t0);
    Products(t1);
    Products(t2);
    Products(t3);
  }

  function Three(a: Poly8, b: Poly8, c: Poly8): Poly8 {
    Xor(Xor(a, b), c)
  }

  lemma InvMixCoefficients(q: Poly8, q1: Poly8, q2: Poly8, q3: Poly8)
    requires q1 == Double(q) && q2 == Double(q1) && q3 == Double(q2)
    ensures Scale(0x0e, q) == Three(q3, q2, q1) && Scale(0x0b, q) == Three(q3, q1, q)
    ensures Scale(0x0d, q) == Three(q3, q2, q) && Scale(0x09, q) == Xor(q3, q)
  {
    var z := Zeros(8);
    FourTerms(0x0e, q, q1, q2, q3);
    FourTerms(0x0b, q, q1, q2, q3);
    FourTerms(0x0d, q, q1, q2, q3);
    FourTerms(0x09, q, q1, q2, q3);
    assert Xor(Xor(Xor(q3, q2), q1), z) == Three(q3, q2, q1);
    assert Xor(Xor(Xor(q3, z), q1), q) == Three(q3, q1, q);
    assert Xor(Xor(Xor(q3, q2), z), q) == Three(q3, q2, q);
    assert Xor(Xor(Xor(q3, z), z), q) == Xor(q3, q);
  }

  /** The four products of two rows of coefficients, given p and its doublings: they cancel to 1, 0, 0 and 0. */
  lemma Cancel(p: Poly8, p1: Poly8, p2: Poly8, p3: Poly8, p4: Poly8)
    ensures Sum(Three(p4, p3, p2), Three(p3, p1, p), Three(p3, p2, p), Xor(Xor(p4, p1), Xor(p3, p))) == p
    ensures Sum(Xor(Three(p4, p3, p2), Three(p3, p2, p1)), Three(p4, p2, p1), Three(p3, p2, p), Xor(p3, p)) == Zeros(8)
    ensures Sum(Three(p3, p2, p1), Xor(Three(p4, p2, p1), Three(p3, p1, p)), Three(p4, p3, p1), Xor(p3, p)) == Zeros(8)
    ensures Sum(Three(p3, p2, p1), Three(p3, p1, p), Xor(Three(p4, p3, p1), Three(p3, p2, p)), Xor(p4, p1)) == Zeros(8)
  {}

  lemma DoubleThree(a: Poly8, b: Poly8, c: Poly8)
    ensures Double(Three(a, b, c)) == Three(Double(a), Double(b), Double(c))
  {
    DoubleXor(a, b);
    DoubleXor(Xor(a, b), c);
  }

  /** The same, for the multiples e, b, d and n of p by the four coefficients of InvMixColumns */
  lemma Contributions(p: Poly8, e: Poly8, b: Poly8, d: Poly8, n: Poly8)
    requires e == Scale(0x0e, p) && b == Scale(0x0b, p) && d == Scale(0x0d, p) && n == Scale(0x09, p)
    ensures Sum(Double(e), b, d, Xor(Double(n), n)) == p
    ensures Sum(Xor(Double(e), e), Double(b), d, n) == Zeros(8)
    ensures Sum(e, Xor(Double(b), b), Double(d), n) == Zeros(8)
    ensures Sum(e, b, Xor(Double(d), d), Double(n)) == Zeros(8)
  {
    var p1 := Double(p);
    var p2 := Double(p1);
    var p3 := Double(p2);
    InvMixCoefficients(p, p1, p2, p3);
    DoubleThree(p3, p2, p1);
    DoubleThree(p3, p1, p);
    DoubleThree(p3, p2, p);
    DoubleXor(p3, p);
    Cancel(p, p1, p2, p3, Double(p3));
  }

  /** Multiplying by a multiple of 3 is doubling and adding. */
  lemma ScaleMixed(a: bv8, p: Poly8)
    ensures Scale(a, Scale(1, p)) == Scale(a, p)
    ensures Scale(a, Scale(2, p)) == Double(Scale(a, p))
    ensures Scale(a, Scale(3, p)) == Xor(Double(Scale(a, p)), Scale(a, p))
  {
    MixCoefficients(p);
    ScaleDouble(a, p);
    ScaleAdditive(a, Double(p), p);
  }

  lemma SumOrder(a: Poly8, b: Poly8, c: Poly8, d: Poly8)
    ensures Sum(a, d, c, b) == Sum(a, b, c, d) && Sum(b, a, d, c) == Sum(a, b, c, d)
    ensures Sum(c, b, a, d) == Sum(a, b, c, d) && Sum(d, c, b, a) == Sum(a, b, c, d)
  {}

  // Each input byte reaches each output byte of the composition with a coefficient of 1 or 0.

  lemma InvMixContributions(p: Poly8)
    ensures Dot(0x0e, 0x0b, 0x0d, 0x09, Scale(2, p), Scale(1, p), Scale(1, p), Scale(3, p)) == p
    ensures Dot(0x0e, 0x0b, 0x0d, 0x09, Scale(3, p), Scale(2, p), Scale(1, p), Scale(1, p)) == Zeros(8)
    ensures Dot(0x0e, 0x0b, 0x0d, 0x09, Scale(1, p), Scale(3, p), Scale(2, p), Scale(1, p)) == Zeros(8)
    ensures Dot(0x0e, 0x0b, 0x0d, 0x09, Scale(1, p), Scale(1, p), Scale(3, p), Scale(2, p)) == Zeros(8)
  {
    ScaleMixed(0x0e, p);
    ScaleMixed(0x0b, p);
    ScaleMixed(0x0d, p);
    ScaleMixed(0x09, p);
    Contributions(p, Scale(0x0e, p), Scale(0x0b, p), Scale(0x0d, p), Scale(0x09, p));
  }

  lemma MixContributions(p: Poly8)
    ensures Dot(2, 3, 1, 1, Scale(0x0e, p), Scale(0x09, p), Scale(0x0d, p), Scale(0x0b, p)) == p
    ensures Dot(2, 3, 1, 1, Scale(0x0b, p), Scale(0x0e, p), Scale(0x09, p), Scale(0x0d, p)) == Zeros(8)
    ensures Dot(2, 3, 1, 1, Scale(0x0d, p), Scale(0x0b, p), Scale(0x0e, p), Scale(0x09, p)) == Zeros(8)
    ensures Dot(2, 3, 1, 1, Scale(0x09, p), Scale(0x0d, p), Scale(0x0b, p), Scale(0x0e, p)) == Zeros(8)
  {
    var e, b, d, n := Scale(0x0e, p), Scale(0x0b, p), Scale(0x0d, p), Scale(0x09, p);
    MixCoefficients(e);
    MixCoefficients(b);
    MixCoefficients(d);
    MixCoefficients(n);
    Contributions(p, e, b, d, n);
    SumOrder(Double(e), b, d, Xor(Double(n), n));
    SumOrder(Xor(Double(e), e), Double(b), d, n);
    SumOrder(e, Xor(Double(b), b), Double(d), n);
    SumOrder(e, b, Xor(Double(d), d), Double(n));
  }

  /** A composition whose contributions are p0 and three zeros gives p0. */
  lemma Composed(o0: bv8, o1: bv8, o2: bv8, o3: bv8, a0: Poly8, a1: Poly8, a2: Poly8, a3: Poly8,
                 b0: Poly8, b1: Poly8, b2: Poly8, b3: Poly8, c0: Poly8, c1: Poly8, c2: Poly8, c3: Poly8,
                 d0: Poly8, d1: Poly8, d2: Poly8, d3: Poly8, m0: Poly8, m1: Poly8, m2: Poly8, m3: Poly8, p0: Poly8)
    requires m0 == Sum(a0, b0, c0, d0) && m1 == Sum(b1, c1, d1, a1)
    requires m2 == Sum(c2, d2, a2, b2) && m3 == Sum(d3, a3, b3, c3)
    requires Dot(o0, o1, o2, o3, a0, a1, a2, a3) == p0 && Dot(o0, o1, o2, o3, b0, b1, b2, b3) == Zeros(8)
    requires Dot(o0, o1, o2, o3, c0, c1, c2, c3) == Zeros(8) && Dot(o0, o1, o2, o3, d0, d1, d2, d3) == Zeros(8)
    ensures Dot(o0, o1, o2, o3, m0, m1, m2, m3) == p0
  {
    DotOfDots(o0, o1, o2, o3, a0, a1, a2, a3, b0, b1, b2, b3, c0, c1, c2, c3, d0, d1, d2, d3, m0, m1, m2, m3);
    assert Sum(p0, Zeros(8), Zeros(8), Zeros(8)) == p0;
  }

  lemma InvMixUndoesMixPoly(p0: Poly8, p1: Poly8, p2: Poly8, p3: Poly8, m0: Poly8, m1: Poly8, m2: Poly8, m3: Poly8)
    requires m0 == Dot(2, 3, 1, 1, p0, p1, p2, p3) && m1 == Dot(2, 3, 1, 1, p1, p2, p3, p0)
    requires m2 == Dot(2, 3, 1, 1, p2, p3, p0, p1) && m3 == Dot(2, 3, 1, 1, p3, p0, p1, p2)
    ensures Dot(0x0e, 0x0b, 0x0d, 0x09, m0, m1, m2, m3) == p0
  {
    InvMixContributions(p0);
    InvMixContributions(p1);
    InvMixContributions(p2);
    InvMixContributions(p3);
    Composed(0x0e, 0x0b, 0x0d, 0x09,
      Scale(2, p0), Scale(1, p0), Scale(1, p0), Scale(3, p0),
      Scale(3, p1), Scale(2, p1), Scale(1, p1), Scale(1, p1),
      Scale(1, p2), Scale(3, p2), Scale(2, p2), Scale(1, p2),
      Scale(1, p3), Scale(1, p3), Scale(3, p3), Scale(2, p3), m0, m1, m2, m3, p0);
  }

  /** The first byte of InvMixColumns after MixColumns; the other three follow by rotating the column. */
  lemma InvMixUndoesMix(t0: bv8, t1: bv8, t2: bv8, t3: bv8, m0: bv8, m1: bv8, m2: bv8, m3: bv8)
    requires m0 == MixByte(t0, t1, t2, t3) && m1 == MixByte(t1, t2, t3, t0)
    requires m2 == MixByte(t2, t3, t0, t1) && m3 == MixByte(t3, t0, t1, t2)
    ensures InvMixByte(m0, m1, m2, m3) == t0
  {
    MixBytePoly(t0, t1, t2, t3);
    MixBytePoly(t1, t2, t3, t0);
    MixBytePoly(t2, t3, t0, t1);
    MixBytePoly(t3, t0, t1, t2);
    InvMixBytePoly(m0, m1, m2, m3);
    InvMixUndoesMixPoly(Poly(t0), Poly(t1), Poly(t2), Poly(t3), Poly(m0), Poly(m1), Poly(m2), Poly(m3));
    PolyInjective(InvMixByte(m0, m1, m2, m3), t0);
  }

  lemma MixUndoesInvMixPoly(p0: Poly8, p1: Poly8, p2: Poly8, p3: Poly8, m0: Poly8, m1: Poly8, m2: Poly8, m3: Poly8)
    requires m0 == Dot(0x0e, 0x0b, 0x0d, 0x09, p0, p1, p2, p3) && m1 == Dot(0x0e, 0x0b, 0x0d, 0x09, p1, p2, p3, p0)
    requires m2 == Dot(0x0e, 0x0b, 0x0d, 0x09, p2, p3, p0, p1) && m3 == Dot(0x0e, 0x0b, 0x0d, 0x09, p3, p0, p1, p2)
    ensures Dot(2, 3, 1, 1, m0, m1, m2, m3) == p0
  {
    MixContributions(p0);
    MixContributions(p1);
    MixContributions(p2);
    MixContributions(p3);
    Composed(2, 3, 1, 1,
      Scale(0x0e, p0), Scale(0x09, p0), Scale(0x0d, p0), Scale(0x0b, p0),
      Scale(0x0b, p1), Scale(0x0e, p1), Scale(0x09, p1), Scale(0x0d, p1),
      Scale(0x0d, p2), Scale(0x0b, p2), Scale(0x0e, p2), Scale(0x09, p2),
      Scale(0x09, p3), Scale(0x0d, p3), Scale(0x0b, p3), Scale(0x0e, p3), m0, m1, m2, m3, p0);
  }

  /** The first byte of MixColumns after InvMixColumns; the other three follow by rotating the column. */
  lemma MixUndoesInvMix(t0: bv8, t1: bv8, t2: bv8, t3: bv8, m0: bv8, m1: bv8, m2: bv8, m3: bv8)
    requires m0 == InvMixByte(t0, t1, t2, t3) && m1 == InvMixByte(t1, t2, t3, t0)
    requires m2 == InvMixByte(t2, t3, t0, t1) && m3 == InvMixByte(t3, t0, t1, t2)
    ensures MixByte(m0, m1, m2, m3) == t0
  {
    InvMixBytePoly(t0, t1, t2, t3);
    InvMixBytePoly(t1, t2, t3, t0);
    InvMixBytePoly(t2, t3, t0, t1);
    InvMixBytePoly(t3, t0, t1, t2);
    MixBytePoly(m0, m1, m2, m3);
    MixUndoesInvMixPoly(Poly(t0), Poly(t1), Poly(t2), Poly(t3), Poly(m0), Poly(m1), Poly(m2), Poly(m3));
    PolyInjective(MixByte(m0, m1, m2, m3), t0);
  }
}
