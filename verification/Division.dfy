/** The 64-by-32 division macros of boot/common/jz_serial.c, register by register. */
module Division {
  import opened MachineInt

  /** The dividend bits below the one shifted out stay at the top of the register. */
  lemma RestStep(rest: nat, s: nat, tmp: nat) returns (rest': nat)
    requires s < 32 && tmp == rest * Pow2(s) && tmp < WORD
    ensures tmp * 2 % WORD == rest' * Pow2(s + 1)
  {
    var b, p, q := tmp / 0x8000_0000, Pow2(s), Pow2(31 - s);
    Pow2Sum(s + 1, 31 - s);
    Pow2At32();
    assert b == 0 || b == 1;
    assert tmp * 2 % WORD == 2 * tmp - b * WORD;
    RestBit(rest, b, p, q, tmp);
    rest' := rest - b * q;
  }

  lemma RestBit(rest: nat, b: nat, p: nat, q: nat, tmp: nat)
    requires b == 0 || b == 1
    requires tmp == rest * p && (2 * p) * q == WORD && 2 * tmp - b * WORD >= 0 && p > 0
    ensures rest - b * q >= 0 && (rest - b * q) * (2 * p) == 2 * tmp - b * WORD
  {
    assert (rest - b * q) * (2 * p) == 2 * (rest * p) - b * ((2 * p) * q);
    Multiples(2 * p, rest - b * q);
  }

  /** The conditional subtraction at labels 1 to 3; cf is the 33rd bit of the partial remainder. */
  lemma SubtractPass(quot: nat, base: nat, cf: nat, mod: nat, p: nat)
    requires cf <= 1 && mod < WORD && cf * WORD + mod < 2 * base && base < WORD && p <= WORD
    requires if p == 1 then quot == 0 && cf * WORD + mod < base else quot + 2 <= p
    ensures var sub := cf != 0 || base <= mod;
      var mod', quot' := if sub then (mod - base) % WORD else mod, if sub then (quot + 1) % WORD else quot;
      mod' < base && quot' + 1 <= p && quot' * base + mod' == quot * base + (cf * WORD + mod)
  {
    assert (quot + 1) * base == quot * base + base;
  }

  /** A register that holds 32 shifted-in zeros is empty. */
  lemma Finish(n: nat, total: nat, tmp: nat, rest: nat)
    requires tmp == rest * Pow2(32) && tmp < WORD
    requires n * Pow2(32) == total * WORD + tmp
    ensures n == total
  {
    Pow2At32();
    Multiples(WORD, rest);
  }

  /** The registers after the shift at label 0, from those at label 3 */
  lemma ShiftPass(quot: nat, base: nat, mod: nat, tmp: nat, rest: nat, s: nat) returns (rest': nat)
    requires s < 32 && mod < base < WORD && tmp < WORD && tmp == rest * Pow2(s) && quot + 1 <= Pow2(s)
    ensures var b, cf := tmp / 0x8000_0000, mod / 0x8000_0000;
      var mod', tmp', quot' := mod * 2 % WORD + b, tmp * 2 % WORD, quot * 2 % WORD;
      && cf <= 1 && mod' < WORD && tmp' == rest' * Pow2(s + 1)
      && cf * WORD + mod' < 2 * base && quot' + 2 <= Pow2(s + 1)
      && quot' * base + (cf * WORD + mod') == 2 * (quot * base + mod) + b
      && tmp' == 2 * tmp - b * WORD
  {
    var b := tmp / 0x8000_0000;
    Pow2Bound(s + 1);
    rest' := RestStep(rest, s, tmp);
    DoubleProduct(quot, base);
    ShiftedOut(tmp);
    ShiftedOut(mod);
    NothingShiftedOut(quot);
  }

  /** The bit that a left shift by one drops */
  lemma ShiftedOut(x: nat)
    requires x < WORD
    ensures x / 0x8000_0000 <= 1 && x / 0x8000_0000 * WORD + x * 2 % WORD == 2 * x
  {}

  lemma NothingShiftedOut(x: nat)
    requires 2 * x < WORD
    ensures x * 2 % WORD == 2 * x
  {}

  /** Shifting the dividend by one bit doubles the part already divided and brings in the bit b. */
  lemma ShiftStep(n: nat, total: nat, tmp: nat, p: nat, b: nat)
    requires n * p == total * WORD + tmp
    ensures n * (2 * p) == (2 * total + b) * WORD + (2 * tmp - b * WORD)
  {
    assert n * (2 * p) == 2 * (n * p);
  }

  /** do_div64_32: divides high * 2^32 + low by base, one bit of low at a time. */
  method DoDiv6432(high: nat, low: nat, base: nat) returns (res: nat, mod: nat)
    requires high < base < WORD && low < WORD
    ensures res < WORD && mod < base
    ensures high * WORD + low == res * base + mod
  {
    ghost var n: nat, s: nat, rest: nat := high * WORD + low, 0, low;
    ghost var total: nat := high;
    var tmp: nat, quot: nat, cf: nat, i: nat := low, 0, 0, 33;
    var tmp2: nat;
    mod := high;
    while true
      invariant 1 <= i <= 33 && s == 33 - i
      invariant cf <= 1 && mod < WORD && tmp < WORD && tmp == rest * Pow2(s)
      invariant cf * WORD + mod < 2 * base
      invariant if Pow2(s) == 1 then quot == 0 && cf * WORD + mod < base else quot + 2 <= Pow2(s)
      invariant total == quot * base + (cf * WORD + mod)
      invariant n * Pow2(s) == total * WORD + tmp
      decreases i
    {
      Pow2Bound(s);
      SubtractPass(quot, base, cf, mod, Pow2(s));
      // label 1
      tmp2 := if mod < base then 1 else 0;
      i := i - 1;
      if cf != 0 || tmp2 == 0 {
        // label 2
        mod := (mod - base) % WORD;
        quot := (quot + 1) % WORD;
      }
      // label 3
      tmp2 := tmp / 0x8000_0000;
      if i == 0 {
        Finish(n, total, tmp, rest);
        break;
      }
      // label 0
      ShiftStep(n, total, tmp, Pow2(s), tmp2);
      rest := ShiftPass(quot, base, mod, tmp, rest, s);
      s, total := s + 1, 2 * total + tmp2;
      cf := mod / 0x8000_0000;
      mod := mod * 2 % WORD + tmp2;
      tmp := tmp * 2 % WORD;
      quot := quot * 2 % WORD;
    }
    res := quot;
  }

  lemma Pow2Bound(s: nat)
    requires s <= 32
    ensures Pow2(s) <= WORD
  {
    Pow2Sum(s, 32 - s);
    Pow2At32();
    assert Pow2(s) * Pow2(32 - s) >= Pow2(s) * 1;
  }

  /** do_div: turns the 64-bit n into its quotient and yields the remainder. */
  method DoDiv(n: nat, base: nat) returns (q: nat, r: nat)
    requires n < WORD * WORD && 0 < base < WORD
    ensures n == q * base + r && r < base
    ensures q < WORD * WORD
  {
    var high, low := n / WORD, n % WORD;
    var upper := high;
    if high != 0 {
      upper, high := high % base, high / base;
    }
    ghost var h, u, l := high, upper, low;
    low, r := DoDiv6432(upper, low, base);
    q := high * WORD + low;
    assert n / WORD == h * base + u;
    Recombine(n, h, u, l, low, base, r);
  }

  lemma Recombine(n: nat, h: nat, u: nat, l: nat, low: nat, base: nat, r: nat)
    requires n == (h * base + u) * WORD + l
    requires u * WORD + l == low * base + r
    ensures n == (h * WORD + low) * base + r
  {
    assert (h * base) * WORD == (h * WORD) * base;
  }
}
