/** Numbers as a 32-bit machine holds them */
module MachineInt {

  const WORD := 0x1_0000_0000

  function Pow2(n: nat): (p: nat)
    ensures p > 0
  {
    if n == 0 then 1 else 2 * Pow2(n - 1)
  }

  /** An unsigned int stored in an int */
  function Signed(n: nat): int
    requires n < WORD
  {
    if n < 0x8000_0000 then n else n - WORD
  }

  /** The int that is n modulo 2^32 */
  lemma SignedIs(n: nat)
    requires n < 0x1_0000_0000
    ensures -0x8000_0000 <= Signed(n) < 0x8000_0000 && (Signed(n) - n) % 0x1_0000_0000 == 0
  {}

  lemma Pow2At32()
    ensures Pow2(32) == WORD
  {
    assert Pow2(8) == 256;
    assert Pow2(16) == 65536;
    assert Pow2(24) == 16777216;
  }

  lemma QuotientRemainder(n: nat, base: nat)
    requires base > 0
    ensures n == n / base * base + n % base && n % base < base
  {}

  lemma Multiples(p: nat, x: int)
    requires p > 0
    ensures x >= 1 ==> x * p >= p
    ensures x <= -1 ==> x * p + p <= 0
  {}

  lemma Distribute(a: int, b: int, p: int)
    ensures (a + b) * p == a * p + b * p
    ensures (a - b) * p == a * p - b * p
  {}

  lemma DoubleProduct(x: nat, y: nat)
    ensures (2 * x) * y == 2 * (x * y)
  {}

  lemma {:induction false} Pow2Sum(a: nat, b: nat)
    ensures Pow2(a + b) == Pow2(a) * Pow2(b)
    decreases a
  {
    if a == 0 {
    } else {
      Pow2Sum(a - 1, b);
      DoubleProduct(Pow2(a - 1), Pow2(b));
    }
  }

  /** The pair is the quotient and the remainder. */
  lemma DivisionUnique(n: nat, base: nat, q: nat, r: nat)
    requires base > 0 && n == q * base + r && r < base
    ensures q == n / base && r == n % base
  {
    var d := n / base - q;
    assert d * base == r - n % base;
    Multiples(base, d);
  }
}
