/** The pseudo-random delays of boot/common/simulation_key.c. */
module SimulationKey {
  import opened MachineInt

  const A := 25173
  const C := 13849
  const PERIOD := 65536

  function Next(r: nat): (n: nat)
    ensures n < PERIOD
  {
    (A * r + C) % PERIOD
  }

  /** The state after k draws */
  function Iterate(r: nat, k: nat): nat {
    if k == 0 then r else Next(Iterate(r, k - 1))
  }

  /** The draws in the numbers of the source */
  lemma Draws(r: nat, k: nat)
    ensures Iterate(r, 0) == r
    ensures Iterate(r, k + 1) == (25173 * Iterate(r, k) + 13849) % 65536
  {}

  /** 1 + A + ... + A^(k - 1) */
  function Geometric(k: nat): nat {
    if k == 0 then 0 else A * Geometric(k - 1) + 1
  }

  function Power(k: nat): nat {
    if k == 0 then 1 else A * Power(k - 1)
  }

  /** 2^m divides x */
  predicate Divides(m: nat, x: nat) {
    m == 0 || (x % 2 == 0 && Divides(m - 1, x / 2))
  }

  // ----- divisibility by powers of two -----

  lemma HalveMod(x: nat, p: nat)
    requires p > 0
    ensures x % (2 * p) == 0 <==> x % 2 == 0 && (x / 2) % p == 0
  {
    if x % (2 * p) == 0 {
      var q := x / (2 * p);
      assert x == 2 * p * q == 2 * (p * q);
      assert x / 2 == p * q;
      MultipleMod(p, q);
    }
    if x % 2 == 0 && (x / 2) % p == 0 {
      var q := x / 2 / p;
      assert x / 2 == p * q;
      assert x == 2 * (p * q) == (2 * p) * q;
      MultipleMod(2 * p, q);
    }
  }

  lemma MultipleMod(p: nat, q: nat)
    requires p > 0
    ensures (p * q) % p == 0
  {
    var d, m := (p * q) / p, (p * q) % p;
    assert p * (q - d) == m;
    Multiples(p, q - d);
  }

  lemma {:induction false} DividesIsMod(m: nat, x: nat)
    ensures Divides(m, x) <==> x % Pow2(m) == 0
  {
    if m == 0 {
    } else {
      DividesIsMod(m - 1, x / 2);
      HalveMod(x, Pow2(m - 1));
    }
  }

  lemma OddProduct(x: nat, o: nat)
    requires o % 2 == 1
    ensures (x * o) % 2 == x % 2
    ensures x % 2 == 0 ==> (x * o) / 2 == (x / 2) * o
  {
    var h := o / 2;
    assert o == 2 * h + 1;
    assert x * o == 2 * (x * h) + x;
    if x % 2 == 0 {
      var y := x / 2;
      assert x * o == 2 * (y * o);
    }
  }

  /** An odd factor does not change which powers of two divide. */
  lemma {:induction false} OddFactor(m: nat, x: nat, o: nat)
    requires o % 2 == 1
    ensures Divides(m, x * o) <==> Divides(m, x)
    decreases m
  {
    if m == 0 {
    } else {
      OddProduct(x, o);
      if x % 2 == 0 {
        OddFactor(m - 1, x / 2, o);
      }
    }
  }

  // ----- the geometric sums -----

  /** The powers of A are 1 modulo 4. */
  lemma {:induction false} PowerMod4(k: nat) returns (q: nat)
    ensures Power(k) == 4 * q + 1
  {
    q := 0;
    if k > 0 {
      q := PowerMod4(k - 1);
      q := A * q + 6293;
    }
  }

  lemma AddEven(x: nat, t: nat)
    ensures (x + 2 * t) % 2 == x % 2
  {}

  lemma {:induction false} GeometricIsCount(k: nat) returns (q: nat)
    ensures Geometric(k) == k + 2 * q
  {
    if k == 0 {
      q := 0;
    } else {
      q := GeometricIsCount(k - 1);
      q := 12586 * (k - 1) + 25173 * q;
    }
  }

  lemma GeometricParity(k: nat)
    ensures Geometric(k) % 2 == k % 2
  {
    var q := GeometricIsCount(k);
    AddEven(k, q);
  }

  lemma NextSum(g: nat, p: nat, x: nat)
    ensures A * (g + p * x) + 1 == (A * g + 1) + (A * p) * x
  {}

  lemma {:induction false} GeometricSum(j: nat, k: nat)
    ensures Geometric(j + k) == Geometric(j) + Power(j) * Geometric(k)
    decreases j
  {
    if j == 0 {
    } else {
      GeometricSum(j - 1, k);
      NextSum(Geometric(j - 1), Power(j - 1), Geometric(k));
    }
  }

  /** An even number of terms is twice half of them, times an odd number. */
  lemma {:induction false} GeometricDouble(j: nat) returns (h: nat)
    ensures h % 2 == 1
    ensures Geometric(j + j) == 2 * (Geometric(j) * h)
  {
    GeometricSum(j, j);
    h := HalfSuccessor(j);
    Regroup(Geometric(j), Power(j), h);
  }

  lemma {:induction false} HalfSuccessor(j: nat) returns (h: nat)
    ensures h % 2 == 1 && Power(j) == 2 * h - 1
  {
    var q := PowerMod4(j);
    h := 2 * q + 1;
    AddEven(1, q);
  }

  lemma Regroup(g: nat, p: nat, h: nat)
    requires p == 2 * h - 1
    ensures g + p * g == 2 * (g * h)
  {}

  /** The power of two in 1 + A + ... + A^(k - 1) is that in k: A is 1 modulo 4. */
  lemma {:induction false} GeometricValuation(m: nat, k: nat)
    ensures Divides(m, Geometric(k)) <==> Divides(m, k)
    decreases m
  {
    if m == 0 {
    } else {
      GeometricParity(k);
      if k % 2 == 0 {
        var j := k / 2;
        assert k == j + j;
        var h := GeometricDouble(j);
        OddFactor(m - 1, Geometric(j), h);
        GeometricValuation(m - 1, j);
      }
    }
  }

  // ----- the period -----

  lemma {:induction false} OneTermMore(k: nat, d: nat, e: nat)
    requires k > 0 && e == Geometric(k - 1) * d
    ensures A * e + d == Geometric(k) * d
  {
    var g := Geometric(k - 1);
    assert (A * g + 1) * d == A * (g * d) + d;
  }

  lemma NextOffset(r: nat, d: nat, e: nat)
    requires d == (A - 1) * r + C
    ensures A * (r + e) + C == r + (A * e + d)
  {}

  lemma DropMultiple(y: nat, t: nat)
    ensures (y + PERIOD * t) % PERIOD == y % PERIOD
  {}

  lemma ModStep(x: nat)
    ensures (A * (x % PERIOD) + C) % PERIOD == (A * x + C) % PERIOD
  {
    DropMultiple(A * (x % PERIOD) + C, A * (x / PERIOD));
  }

  /** One draw more */
  lemma NextForm(r: nat, d: nat, e: nat)
    requires d == (A - 1) * r + C
    ensures (A * ((r + e) % PERIOD) + C) % PERIOD == (r + (A * e + d)) % PERIOD
  {
    ModStep(r + e);
    NextOffset(r, d, e);
  }

  lemma {:induction false} OffsetForm(r: nat, d: nat, k: nat) returns (e: nat)
    requires r < PERIOD && d == (A - 1) * r + C
    ensures e == Geometric(k) * d && Iterate(r, k) == (r + e) % PERIOD
  {
    if k == 0 {
      e := 0;
    } else {
      e := OffsetForm(r, d, k - 1);
      NextForm(r, d, e);
      OneTermMore(k, d, e);
      e := A * e + d;
    }
  }

  lemma {:induction false} ClosedForm(r: nat, k: nat)
    requires r < PERIOD
    ensures Iterate(r, k) == (r + Geometric(k) * ((A - 1) * r + C)) % PERIOD
  {
    var e := OffsetForm(r, (A - 1) * r + C, k);
  }

  lemma SameResidue(x: nat, y: nat)
    requires x < PERIOD
    ensures (x + y) % PERIOD == x <==> y % PERIOD == 0
  {}

  /** From any state the generator returns to that state exactly after every multiple of 65536 draws. */
  lemma {:induction false} FullPeriod(r: nat, k: nat)
    requires r < PERIOD
    ensures Iterate(r, k) == r <==> k % PERIOD == 0
  {
    var d := (A - 1) * r + C;
    ClosedForm(r, k);
    SameResidue(r, Geometric(k) * d);
    StepIsOdd(r, d);
    Divisibility(Geometric(k), d, k);
  }

  lemma StepIsOdd(r: nat, d: nat)
    requires d == (A - 1) * r + C
    ensures d % 2 == 1
  {
    assert d == 2 * (12586 * r + 6924) + 1;
  }

  lemma Divisibility(g: nat, d: nat, k: nat)
    requires g == Geometric(k) && d % 2 == 1
    ensures (g * d) % PERIOD == 0 <==> k % PERIOD == 0
  {
    Pow2At16();
    DividesIsMod(16, g * d);
    OddFactor(16, g, d);
    GeometricValuation(16, k);
    DividesIsMod(16, k);
  }

  lemma Pow2At16()
    ensures Pow2(16) == PERIOD
  {
    assert Pow2(8) == 256;
  }

  // ----- every state is visited -----

  lemma {:induction false} IterateBound(r: nat, k: nat)
    requires r < PERIOD
    ensures Iterate(r, k) < PERIOD
  {}

  lemma {:induction false} IterateFrom(r: nat, j: nat, k: nat)
    ensures Iterate(r, j + k) == Iterate(Iterate(r, j), k)
    decreases k
  {
    if k == 0 {
    } else {
      IterateFrom(r, j, k - 1);
    }
  }

  /** Within one period no state repeats. */
  lemma {:induction false} NoRepeat(r: nat, j: nat, k: nat)
    requires r < PERIOD && j < k < j + PERIOD
    ensures Iterate(r, j) != Iterate(r, k)
  {
    IterateBound(r, j);
    IterateFrom(r, j, k - j);
    FullPeriod(Iterate(r, j), k - j);
  }

  /** The states seen in draws 1 to n */
  ghost function Seen(r: nat, n: nat): set<nat> {
    set k | 1 <= k <= n :: Iterate(r, k)
  }

  lemma {:induction false} SeenSize(r: nat, n: nat)
    requires r < PERIOD && n <= PERIOD
    ensures |Seen(r, n)| == n
  {
    if n == 0 {
      assert Seen(r, 0) == {};
    } else {
      SeenSize(r, n - 1);
      assert Seen(r, n) == Seen(r, n - 1) + {Iterate(r, n)};
      forall k | 1 <= k <= n - 1
        ensures Iterate(r, k) != Iterate(r, n)
      {
        NoRepeat(r, k, n);
      }
    }
  }

  ghost function Below(n: nat): set<nat> {
    if n == 0 then {} else Below(n - 1) + {n - 1}
  }

  lemma {:induction false} BelowSize(n: nat)
    ensures |Below(n)| == n
    ensures forall v: nat :: v in Below(n) <==> v < n
  {
    if n == 0 {
    } else {
      BelowSize(n - 1);
    }
  }

  lemma SubsetOfSameSize(a: set<nat>, b: set<nat>)
    requires a <= b && |a| == |b|
    ensures a == b
  {
    assert b == a + (b - a);
    assert |b - a| == 0;
  }

  /** Every sixteen-bit value comes up within 65536 draws, whatever the state. */
  lemma {:induction false} EveryValueDrawn(r: nat, v: nat) returns (k: nat)
    requires r < PERIOD && v < PERIOD
    ensures 1 <= k <= PERIOD && Iterate(r, k) == v
  {
    var all := Below(PERIOD);
    BelowSize(PERIOD);
    SeenSize(r, PERIOD);
    assert Seen(r, PERIOD) <= all by {
      forall k | 1 <= k <= PERIOD
        ensures Iterate(r, k) < PERIOD
      {
        IterateBound(r, k);
      }
    }
    SubsetOfSameSize(Seen(r, PERIOD), all);
    assert v in Seen(r, PERIOD);
    k :| 1 <= k <= PERIOD && Iterate(r, k) == v;
  }

  // ----- the rejection loop -----

  /** max + 1 as a word */
  function Modulus(max: nat): nat
    requires max < WORD
  {
    if max + 1 < WORD then max + 1 else 0
  }

  /** Draw k from state r passes the test of random(max, min); a draw modulo zero does not. */
  predicate Accepted(r: nat, k: nat, max: nat, min: nat)
    requires max < WORD
  {
    Modulus(max) != 0 && Iterate(r, k) % Modulus(max) >= min
  }

  lemma AcceptedIs(r: nat, k: nat, max: nat, min: nat)
    requires max < 0x1_0000_0000
    ensures Accepted(r, k, max, min) <==> max + 1 < 0x1_0000_0000 && Iterate(r, k) % (max + 1) >= min
  {}

  lemma AcceptedBounds(r: nat, k: nat, max: nat, min: nat)
    requires r < PERIOD && max < WORD && Accepted(r, k, max, min)
    ensures max + 1 < WORD && min <= max && min < PERIOD
  {
    IterateBound(r, k);
    ModAtMost(Iterate(r, k), max + 1);
  }

  lemma SmallMod(x: nat, m: nat)
    requires x < m
    ensures x % m == x
  {}

  /** A draw that passes, within one period */
  lemma SomeDrawAccepted(r: nat, max: nat, min: nat) returns (k: nat)
    requires r < PERIOD && max + 1 < WORD && min <= max && min < PERIOD
    ensures 1 <= k <= PERIOD && Accepted(r, k, max, min)
  {
    var v := if max < PERIOD then max else PERIOD - 1;
    k := EveryValueDrawn(r, v);
    SmallMod(v, max + 1);
  }

  /** From every state, the loop of random(max, min) reaches a value that passes exactly when max + 1 does not wrap
      to zero and min is at most max and below 65536. */
  lemma LoopEndsIff(r: nat, max: nat, min: nat)
    requires r < PERIOD && max < WORD
    ensures (exists k :: k >= 1 && Accepted(r, k, max, min)) <==> max + 1 < WORD && min <= max && min < PERIOD
  {
    if k :| k >= 1 && Accepted(r, k, max, min) {
      AcceptedBounds(r, k, max, min);
    }
    if max + 1 < WORD && min <= max && min < PERIOD {
      var k := SomeDrawAccepted(r, max, min);
    }
  }

  /** For the largest max the modulus is zero, so that no draw passes even with min = 0. */
  lemma LargestMaxFails(r: nat, k: nat)
    ensures !Accepted(r, k, WORD - 1, 0)
  {}

  lemma ModAtMost(x: nat, m: nat)
    requires m > 0
    ensures x % m <= x && x % m < m
  {}

  lemma NoOverflow(r: nat)
    requires r < PERIOD
    ensures A * r + C < WORD
  {}

  class Generator {
    /** The static variable r of random_fun */
    var r: nat

    ghost predicate Valid()
      reads this
    {
      r < PERIOD
    }

    constructor ()
      ensures Valid() && r == 0
    {
      r := 0;
    }

    method RandomFun() returns (v: nat)
      requires Valid()
      modifies this
      ensures Valid() && r == Next(old(r)) && v == r
      ensures v == (25173 * old(r) + 13849) % 65536
    {
      NoOverflow(r);
      r := (25173 * r + 13849) % WORD % 65536;
      v := r;
    }

    /** random(max, min): draws until the value is at least min. The result is that of the first accepted draw,
        which comes within one period. max + 1 must not wrap to zero, and the loop must be one that ends. */
    method Random(max: nat, min: nat) returns (tmp: nat)
      requires Valid() && max + 1 < WORD
      requires min <= max && min < PERIOD
      modifies this
      ensures Valid() && min <= tmp <= max
      ensures tmp == r % (max + 1)
      ensures exists k :: 1 <= k <= PERIOD && r == Iterate(old(r), k) && Accepted(old(r), k, max, min)
                       && forall j :: 1 <= j < k ==> !Accepted(old(r), j, max, min)
    {
      ghost var start := r;
      ghost var last := SomeDrawAccepted(r, max, min);
      var v := RandomFun();
      tmp := v % (max + 1);
      ghost var k := 1;
      while tmp < min
        invariant Valid() && 1 <= k <= last && r == Iterate(start, k) && tmp == r % (max + 1)
        invariant forall j :: 1 <= j < k ==> !Accepted(start, j, max, min)
        decreases last - k
      {
        v := RandomFun();
        tmp := v % (max + 1);
        k := k + 1;
      }
      assert Accepted(start, k, max, min);
    }
  }
}
