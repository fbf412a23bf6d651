/** Polynomials over GF(2), written as bit strings with the highest-degree coefficient first,
    and division by a polynomial x^w + g, where g has w coefficients. */
module Gf2Poly {

  type Bits = seq<bool>

  function Zeros(n: nat): (z: Bits)
    ensures |z| == n
  {
    seq(n, _ => false)
  }

  function Xor(a: Bits, b: Bits): (r: Bits)
    requires |a| == |b|
    ensures |r| == |a|
  {
    seq(|a|, i requires 0 <= i < |a| => a[i] != b[i])
  }

  /** One row of schoolbook division: clear the leading coefficient of the dividend. */
  function Reduce(g: Bits, d: Bits): (r: Bits)
    requires 0 < |g| < |d|
    ensures |r| == |d| - 1
  {
    if d[0] then Xor(d[1..|g| + 1], g) + d[|g| + 1..] else d[1..]
  }

  /** The remainder of schoolbook long division of d by x^|g| + g. */
  function Remainder(g: Bits, d: Bits): (r: Bits)
    requires 0 < |g| <= |d|
    ensures |r| == |g|
    decreases |d|
  {
    if |d| == |g| then d else Remainder(g, Reduce(g, d))
  }

  /** The shift register: one message bit enters at the top. */
  function Feed(g: Bits, r: Bits, b: bool): (s: Bits)
    requires |r| == |g| > 0
    ensures |s| == |g|
  {
    if r[0] != b then Xor(r[1..] + [false], g) else r[1..] + [false]
  }

  function Serial(g: Bits, r: Bits, m: Bits): (s: Bits)
    requires |r| == |g| > 0
    ensures |s| == |g|
    decreases |m|
  {
    if m == [] then r else Serial(g, Feed(g, r, m[0]), m[1..])
  }

  predicate Odd(a: Bits) {
    a != [] && (a[0] != Odd(a[1..]))
  }

  // ----- one coefficient at a time -----

  lemma XorAt(a: Bits, b: Bits, i: nat)
    requires |a| == |b| && i < |a|
    ensures Xor(a, b)[i] == (a[i] != b[i])
  {}

  lemma ReduceAt(g: Bits, d: Bits, i: nat)
    requires 0 < |g| < |d| && i < |d| - 1
    ensures Reduce(g, d)[i] == (d[i + 1] != (d[0] && i < |g| && g[i]))
  {
    if d[0] && i < |g| {
      XorAt(d[1..|g| + 1], g, i);
    }
  }

  lemma FeedAt(g: Bits, r: Bits, b: bool, i: nat)
    requires |r| == |g| > 0 && i < |g|
    ensures Feed(g, r, b)[i] == ((i + 1 < |r| && r[i + 1]) != (r[0] != b && g[i]))
  {
    if r[0] != b {
      XorAt(r[1..] + [false], g, i);
    }
  }

  lemma FeedLinear(g: Bits, r: Bits, s: Bits)
    requires |r| == |s| == |g| > 0
    ensures Feed(g, Xor(r, s), false) == Xor(Feed(g, r, false), Feed(g, s, false))
  {
    var e, f := Feed(g, Xor(r, s), false), Xor(Feed(g, r, false), Feed(g, s, false));
    XorAt(r, s, 0);
    forall i | 0 <= i < |g|
      ensures e[i] == f[i]
    {
      FeedAt(g, Xor(r, s), false, i);
      FeedAt(g, r, false, i);
      FeedAt(g, s, false, i);
      XorAt(Feed(g, r, false), Feed(g, s, false), i);
      if i + 1 < |g| {
        XorAt(r, s, i + 1);
      }
    }
  }

  lemma FeedZeros(g: Bits)
    requires |g| > 0
    ensures Feed(g, Zeros(|g|), false) == Zeros(|g|)
  {}

  /** The register is the top of the dividend: one division step feeds it. */
  lemma ReduceIsFeed(g: Bits, r: Bits, m: Bits, d: Bits)
    requires |r| == |g| > 0 && m != [] && d == Xor(r + Zeros(|m|), m + Zeros(|g|))
    ensures Reduce(g, d) == Xor(Feed(g, r, m[0]) + Zeros(|m| - 1), m[1..] + Zeros(|g|))
  {
    var e := Xor(Feed(g, r, m[0]) + Zeros(|m| - 1), m[1..] + Zeros(|g|));
    XorAt(r + Zeros(|m|), m + Zeros(|g|), 0);
    forall i | 0 <= i < |e|
      ensures Reduce(g, d)[i] == e[i]
    {
      ReduceAt(g, d, i);
      XorAt(r + Zeros(|m|), m + Zeros(|g|), i + 1);
      XorAt(Feed(g, r, m[0]) + Zeros(|m| - 1), m[1..] + Zeros(|g|), i);
      if i < |g| {
        FeedAt(g, r, m[0], i);
      }
    }
  }

  // ----- the register computes the remainder of message * x^w -----

  lemma {:induction false} SerialIsRemainder(g: Bits, r: Bits, m: Bits)
    requires |r| == |g| > 0
    ensures Serial(g, r, m) == Remainder(g, Xor(r + Zeros(|m|), m + Zeros(|g|)))
    decreases |m|
  {
    var d := Xor(r + Zeros(|m|), m + Zeros(|g|));
    if m == [] {
      assert d == r;
    } else {
      ReduceIsFeed(g, r, m, d);
      SerialIsRemainder(g, Feed(g, r, m[0]), m[1..]);
    }
  }

  lemma {:induction false} SerialConcat(g: Bits, r: Bits, m: Bits, n: Bits)
    requires |r| == |g| > 0
    ensures Serial(g, r, m + n) == Serial(g, Serial(g, r, m), n)
    decreases |m|
  {
    if m == [] {
      assert m + n == n;
    } else {
      assert (m + n)[1..] == m[1..] + n;
      SerialConcat(g, Feed(g, r, m[0]), m[1..], n);
    }
  }

  lemma SerialSnoc(g: Bits, r: Bits, m: Bits, b: bool)
    requires |r| == |g| > 0
    ensures Serial(g, r, m + [b]) == Feed(g, Serial(g, r, m), b)
  {
    SerialConcat(g, r, m, [b]);
    var s := Serial(g, r, m);
    assert Serial(g, s, [b]) == Serial(g, Feed(g, s, b), []);
  }

  // ----- linearity -----

  lemma ReduceLinear(g: Bits, d: Bits, e: Bits)
    requires 0 < |g| < |d| == |e|
    ensures Reduce(g, Xor(d, e)) == Xor(Reduce(g, d), Reduce(g, e))
  {
    var f, h := Reduce(g, Xor(d, e)), Xor(Reduce(g, d), Reduce(g, e));
    XorAt(d, e, 0);
    forall i | 0 <= i < |f|
      ensures f[i] == h[i]
    {
      ReduceAt(g, Xor(d, e), i);
      XorAt(d, e, i + 1);
      ReduceAt(g, d, i);
      ReduceAt(g, e, i);
      XorAt(Reduce(g, d), Reduce(g, e), i);
    }
  }

  lemma {:induction false} RemainderLinear(g: Bits, d: Bits, e: Bits)
    requires 0 < |g| <= |d| == |e|
    ensures Remainder(g, Xor(d, e)) == Xor(Remainder(g, d), Remainder(g, e))
    decreases |d|
  {
    if |d| == |g| {
    } else {
      ReduceLinear(g, d, e);
      RemainderLinear(g, Reduce(g, d), Reduce(g, e));
    }
  }

  lemma {:induction false} LeadingZeros(g: Bits, k: nat, d: Bits)
    requires 0 < |g| <= |d|
    ensures Remainder(g, Zeros(k) + d) == Remainder(g, d)
    decreases k
  {
    if k == 0 {
      assert Zeros(0) + d == d;
    } else {
      assert Reduce(g, Zeros(k) + d) == Zeros(k - 1) + d;
      LeadingZeros(g, k - 1, d);
    }
  }

  lemma XorSelf(a: Bits, b: Bits)
    requires |a| == |b|
    ensures Xor(a, b) == Zeros(|a|) <==> a == b
  {
    if a != b {
      var i :| 0 <= i < |a| && a[i] != b[i];
      assert Xor(a, b)[i];
    }
  }

  lemma SomeBitSet(r: Bits)
    requires r != Zeros(|r|)
    ensures exists i :: 0 <= i < |r| && r[i]
  {}

  lemma ReduceShifts(g: Bits, r: Bits, k: nat)
    requires |r| == |g| > 0 && k > 0
    ensures Reduce(g, r + Zeros(k)) == Feed(g, r, false) + Zeros(k - 1)
  {
    var d, e := Reduce(g, r + Zeros(k)), Feed(g, r, false) + Zeros(k - 1);
    forall i | 0 <= i < |d|
      ensures d[i] == e[i]
    {
      ReduceAt(g, r + Zeros(k), i);
      if i < |g| {
        FeedAt(g, r, false, i);
      }
    }
  }

  lemma FeedNonzero(g: Bits, r: Bits)
    requires |r| == |g| > 0 && g[|g| - 1] && r != Zeros(|r|)
    ensures Feed(g, r, false) != Zeros(|g|)
  {
    SomeBitSet(r);
    var i :| 0 <= i < |r| && r[i];
    var j := if r[0] then |g| - 1 else i - 1;
    FeedAt(g, r, false, j);
    assert Feed(g, r, false)[j];
  }

  /** A nonzero register never shifts to zero: the low coefficient of g is 1. */
  lemma {:induction false} NonzeroRemainder(g: Bits, r: Bits, k: nat)
    requires |r| == |g| > 0 && g[|g| - 1]
    requires r != Zeros(|r|)
    ensures Remainder(g, r + Zeros(k)) != Zeros(|g|)
    decreases k
  {
    if k == 0 {
      assert r + Zeros(0) == r;
    } else {
      ReduceShifts(g, r, k);
      FeedNonzero(g, r);
      NonzeroRemainder(g, Feed(g, r, false), k - 1);
    }
  }

  lemma ReduceSnoc(g: Bits, d: Bits)
    requires 0 < |g| < |d|
    ensures Reduce(g, d + [false]) == Reduce(g, d) + [false]
  {
    var e, f := Reduce(g, d + [false]), Reduce(g, d) + [false];
    forall i | 0 <= i < |e|
      ensures e[i] == f[i]
    {
      ReduceAt(g, d + [false], i);
      if i < |d| - 1 {
        ReduceAt(g, d, i);
      }
    }
  }

  /** Appending a zero coefficient to the dividend multiplies the remainder by x. */
  lemma {:induction false} RemainderSnoc(g: Bits, d: Bits)
    requires 0 < |g| <= |d|
    ensures Remainder(g, d + [false]) == Feed(g, Remainder(g, d), false)
    decreases |d|
  {
    if |d| == |g| {
      ReduceShifts(g, d, 1);
      assert d + Zeros(1) == d + [false];
      assert Feed(g, d, false) + Zeros(0) == Feed(g, d, false);
    } else {
      ReduceSnoc(g, d);
      RemainderSnoc(g, Reduce(g, d));
    }
  }

  // ----- parity -----

  lemma {:induction false} OddXor(a: Bits, b: Bits)
    requires |a| == |b|
    ensures Odd(Xor(a, b)) == (Odd(a) != Odd(b))
    decreases |a|
  {
    if a == [] {
    } else {
      assert Xor(a, b)[1..] == Xor(a[1..], b[1..]);
      OddXor(a[1..], b[1..]);
    }
  }

  lemma {:induction false} OddConcat(a: Bits, b: Bits)
    ensures Odd(a + b) == (Odd(a) != Odd(b))
    decreases |a|
  {
    if a == [] {
      assert a + b == b;
    } else {
      assert (a + b)[1..] == a[1..] + b;
      OddConcat(a[1..], b);
    }
  }

  lemma {:induction false} OddZeros(n: nat)
    ensures !Odd(Zeros(n))
    decreases n
  {
    if n == 0 {
    } else {
      assert Zeros(n)[1..] == Zeros(n - 1);
      OddZeros(n - 1);
    }
  }

  lemma {:induction false} RemainderParity(g: Bits, d: Bits)
    requires 0 < |g| <= |d|
    requires Odd(g)
    ensures Odd(Remainder(g, d)) == Odd(d)
    decreases |d|
  {
    if |d| == |g| {
    } else {
      var head, tail := d[1..|g| + 1], d[|g| + 1..];
      assert d[1..] == head + tail;
      OddConcat(head, tail);
      if d[0] {
        OddXor(head, g);
        OddConcat(Xor(head, g), tail);
      }
      RemainderParity(g, Reduce(g, d));
    }
  }

  // ----- the cyclic redundancy check -----

  /** The checksum of m: the remainder of m * x^w. */
  function Crc(g: Bits, m: Bits): (c: Bits)
    requires 0 < |g|
    ensures |c| == |g|
  {
    Remainder(g, m + Zeros(|g|))
  }

  lemma SerialIsCrc(g: Bits, m: Bits)
    requires 0 < |g|
    ensures Serial(g, Zeros(|g|), m) == Crc(g, m)
  {
    SerialIsRemainder(g, Zeros(|g|), m);
    assert Xor(Zeros(|g|) + Zeros(|m|), m + Zeros(|g|)) == m + Zeros(|g|);
  }

  /** The checksum of the message 1 is the polynomial. */
  lemma {:induction false} UnitMessage(g: Bits, k: nat)
    requires 0 < |g|
    ensures Crc(g, Zeros(k) + [true]) == g
  {
    var d := [true] + Zeros(|g|);
    assert (Zeros(k) + [true]) + Zeros(|g|) == Zeros(k) + d;
    LeadingZeros(g, k, d);
    forall i | 0 <= i < |g|
      ensures Reduce(g, d)[i] == g[i]
    {
      ReduceAt(g, d, i);
    }
    assert Reduce(g, d) == g;
  }

  lemma CrcLinear(g: Bits, m: Bits, n: Bits)
    requires 0 < |g| && |m| == |n|
    ensures Crc(g, Xor(m, n)) == Xor(Crc(g, m), Crc(g, n))
  {
    RemainderLinear(g, m + Zeros(|g|), n + Zeros(|g|));
    assert Xor(m + Zeros(|g|), n + Zeros(|g|)) == Xor(m, n) + Zeros(|g|);
  }

  lemma CrcParity(g: Bits, m: Bits)
    requires 0 < |g| && Odd(g)
    ensures Odd(Crc(g, m)) == Odd(m)
  {
    RemainderParity(g, m + Zeros(|g|));
    OddConcat(m, Zeros(|g|));
    OddZeros(|g|);
  }

  /** Every burst of at most w wrong bits changes the checksum. */
  lemma BurstDetected(g: Bits, m: Bits, n: Bits, i: nat)
    requires 0 < |g| && g[|g| - 1]
    requires |m| == |n| && i <= |m|
    requires m[..i] == n[..i]
    requires forall k :: i + |g| <= k < |m| ==> m[k] == n[k]
    requires m != n
    ensures Crc(g, m) != Crc(g, n)
  {
    var w := |g|;
    var d := Xor(m, n) + Zeros(w);
    var e := d[i..i + w];
    var k := |d| - (i + w);
    assert forall j :: 0 <= j < i ==> m[..i][j] == n[..i][j];
    assert d == Zeros(i) + (e + Zeros(k));
    assert e != Zeros(w) by {
      var j :| 0 <= j < |m| && m[j] != n[j];
      assert d[j] && i <= j < i + w;
      assert e[j - i];
    }
    LeadingZeros(g, i, e + Zeros(k));
    NonzeroRemainder(g, e, k);
    CrcLinear(g, m, n);
    XorSelf(Crc(g, m), Crc(g, n));
  }

  /** A message followed by a w-bit trailer checks to zero exactly when the trailer is its checksum. */
  lemma TrailerTheorem(g: Bits, m: Bits, t: Bits)
    requires 0 < |g| == |t| && g[|g| - 1]
    ensures Crc(g, m + t) == Zeros(|g|) <==> t == Crc(g, m)
  {
    var w := |g|;
    var r := Crc(g, m);
    assert Crc(g, m + t) == Serial(g, r, t) by {
      SerialIsCrc(g, m + t);
      SerialConcat(g, Zeros(w), m, t);
      SerialIsCrc(g, m);
    }
    var e := Xor(r, t);
    assert Crc(g, m + t) == Crc(g, e) by {
      SerialIsRemainder(g, r, t);
      assert Xor(r + Zeros(w), t + Zeros(w)) == e + Zeros(w);
    }
    XorSelf(r, t);
    if r != t {
      NonzeroRemainder(g, e, w);
    } else {
      LeadingZeros(g, w, Zeros(w));
    }
  }

  lemma SplitRegister(r: Bits, m: Bits)
    requires |m| <= |r|
    ensures Xor(r + Zeros(|m|), m + Zeros(|r|))
         == Xor(Zeros(|m|) + (r[|m|..] + Zeros(|m|)), Xor(r[..|m|], m) + Zeros(|r|))
  {
    var k := |m|;
    var a, b := Xor(r + Zeros(k), m + Zeros(|r|)), Xor(Zeros(k) + (r[k..] + Zeros(k)), Xor(r[..k], m) + Zeros(|r|));
    forall i | 0 <= i < |a| ensures a[i] == b[i] {
      if i < k {} else {}
    }
  }

  /** Feeding a group of k <= w message bits costs one table look-up. */
  lemma {:induction false} TableStep(g: Bits, r: Bits, m: Bits)
    requires |r| == |g| >= |m|
    requires 0 < |g|
    ensures Serial(g, r, m) == Xor(r[|m|..] + Zeros(|m|), Crc(g, Xor(r[..|m|], m)))
  {
    var k := |m|;
    var low := r[k..] + Zeros(k);
    SerialIsRemainder(g, r, m);
    SplitRegister(r, m);
    RemainderLinear(g, Zeros(k) + low, Xor(r[..k], m) + Zeros(|g|));
    LeadingZeros(g, k, low);
  }

  // ----- the remainder is the one that division leaves -----

  /** p plus b times the multiple of x^|g| + g whose leading term sits just above p. */
  function AddMultiple(g: Bits, b: bool, p: Bits): (r: Bits)
    requires |g| <= |p|
    ensures |r| == |p| + 1
  {
    [b] + (if b then Xor(p[..|g|], g) + p[|g|..] else p)
  }

  /** The product of q and x^|g| + g. */
  function Multiple(g: Bits, q: Bits): (p: Bits)
    ensures |p| == |q| + |g|
    decreases |q|
  {
    if q == [] then Zeros(|g|) else AddMultiple(g, q[0], Multiple(g, q[1..]))
  }

  lemma AddMultipleAt(g: Bits, b: bool, p: Bits, i: nat)
    requires |g| <= |p| && 0 < i <= |p|
    ensures AddMultiple(g, b, p)[i] == (p[i - 1] != (b && i - 1 < |g| && g[i - 1]))
  {
    if b && i - 1 < |g| {
      XorAt(p[..|g|], g, i - 1);
    }
  }

  lemma ReduceUndoesAdd(g: Bits, b: bool, p: Bits)
    requires 0 < |g| <= |p|
    ensures Reduce(g, AddMultiple(g, b, p)) == p
  {
    var d := AddMultiple(g, b, p);
    forall i | 0 <= i < |p|
      ensures Reduce(g, d)[i] == p[i]
    {
      ReduceAt(g, d, i);
      AddMultipleAt(g, b, p, i + 1);
    }
  }

  lemma AddUndoesReduce(g: Bits, d: Bits, p: Bits, e: Bits)
    requires 0 < |g| < |d| == |p| + 1 && |p| == |e|
    requires Reduce(g, d) == Xor(p, e)
    ensures d == Xor(AddMultiple(g, d[0], p), [false] + e)
  {
    var f := Xor(AddMultiple(g, d[0], p), [false] + e);
    forall i | 0 <= i < |d|
      ensures d[i] == f[i]
    {
      XorAt(AddMultiple(g, d[0], p), [false] + e, i);
      if i > 0 {
        ReduceAt(g, d, i - 1);
        XorAt(p, e, i - 1);
        AddMultipleAt(g, d[0], p, i);
      }
    }
  }

  lemma {:induction false} MultipleHasNoRemainder(g: Bits, q: Bits)
    requires 0 < |g|
    ensures Remainder(g, Multiple(g, q)) == Zeros(|g|)
    decreases |q|
  {
    if q == [] {
    } else {
      ReduceUndoesAdd(g, q[0], Multiple(g, q[1..]));
      MultipleHasNoRemainder(g, q[1..]);
    }
  }

  lemma MultipleCons(g: Bits, b: bool, q: Bits)
    ensures Multiple(g, [b] + q) == AddMultiple(g, b, Multiple(g, q))
  {
    assert ([b] + q)[1..] == q;
  }

  lemma NoQuotient(g: Bits, d: Bits)
    requires |g| == |d|
    ensures d == Xor(Multiple(g, []), Zeros(0) + d)
  {
    forall i | 0 <= i < |d|
      ensures d[i] == Xor(Multiple(g, []), Zeros(0) + d)[i]
    {
      XorAt(Zeros(|g|), Zeros(0) + d, i);
    }
  }

  lemma QuotientCons(g: Bits, d: Bits, q: Bits, r: Bits)
    requires 0 < |g| == |r| && |q| + |g| + 1 == |d|
    requires Reduce(g, d) == Xor(Multiple(g, q), Zeros(|q|) + r)
    ensures d == Xor(Multiple(g, [d[0]] + q), Zeros(|q| + 1) + r)
  {
    MultipleCons(g, d[0], q);
    ZerosCons(|q|, r);
    AddUndoesReduce(g, d, Multiple(g, q), Zeros(|q|) + r);
  }

  lemma ZerosCons(n: nat, r: Bits)
    ensures [false] + (Zeros(n) + r) == Zeros(n + 1) + r
  {}

  lemma {:induction false} Quotient(g: Bits, d: Bits) returns (q: Bits)
    requires 0 < |g| <= |d|
    ensures |q| == |d| - |g|
    ensures d == Xor(Multiple(g, q), Zeros(|q|) + Remainder(g, d))
    decreases |d|
  {
    if |d| == |g| {
      q := [];
      NoQuotient(g, d);
    } else {
      q := Quotient(g, Reduce(g, d));
      QuotientCons(g, d, q, Remainder(g, d));
      q := [d[0]] + q;
    }
  }

  /** r is the remainder of d exactly when d = q * (x^w + g) + r for some q. */
  lemma {:induction false} RemainderIsResidue(g: Bits, d: Bits, r: Bits)
    requires 0 < |g| == |r| && |g| <= |d|
    ensures r == Remainder(g, d)
        <==> exists q: Bits :: |q| == |d| - |g| && d == Xor(Multiple(g, q), Zeros(|q|) + r)
  {
    if r == Remainder(g, d) {
      var q := Quotient(g, d);
    }
    if q: Bits :| |q| == |d| - |g| && d == Xor(Multiple(g, q), Zeros(|q|) + r) {
      RemainderLinear(g, Multiple(g, q), Zeros(|q|) + r);
      MultipleHasNoRemainder(g, q);
      LeadingZeros(g, |q|, r);
    }
  }
}
