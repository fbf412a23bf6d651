/** Unsigned 32-bit masks on numbers */
module Bitwise {
  import opened MachineInt

  /** x & y */
  function And(x: nat, y: nat): (z: nat)
    ensures z <= x && z <= y
  {
    if x == 0 then 0 else 2 * And(x / 2, y / 2) + (if x % 2 == 1 && y % 2 == 1 then 1 else 0)
  }

  /** ~m */
  function Not(m: nat): nat
    requires m < WORD
  {
    WORD - 1 - m
  }

  /** A sum of two unsigned words, as a word */
  function Wrapped(x: nat): nat
    requires x < 2 * WORD
  {
    if x < WORD then x else x - WORD
  }

  /** Bit k of n */
  predicate BitOf(n: nat, k: nat) {
    if k == 0 then n % 2 == 1 else BitOf(n / 2, k - 1)
  }

  lemma {:induction false} DoubleBits(n: nat, k: nat)
    ensures BitOf(2 * n, k) <==> k > 0 && BitOf(n, k - 1)
    ensures BitOf(2 * n + 1, k) <==> k == 0 || BitOf(n, k - 1)
  {
    assert 2 * n / 2 == n && (2 * n + 1) / 2 == n;
  }

  lemma {:induction false} FourBits(n: nat, k: nat)
    ensures BitOf(n, k + 4) == BitOf(n / 16, k)
  {
    assert n / 2 / 2 / 2 / 2 == n / 16;
    assert BitOf(n, k + 4) == BitOf(n / 2, k + 3) == BitOf(n / 2 / 2, k + 2) == BitOf(n / 2 / 2 / 2, k + 1);
  }

  lemma {:induction false} NoBits(k: nat)
    ensures !BitOf(0, k)
  {
    if k == 0 {
    } else {
      NoBits(k - 1);
    }
  }

  /** And works bit by bit. */
  lemma {:induction false} AndBits(x: nat, y: nat, k: nat)
    ensures BitOf(And(x, y), k) <==> BitOf(x, k) && BitOf(y, k)
    decreases k
  {
    if x == 0 {
      NoBits(k);
    } else if k > 0 {
      assert And(x, y) / 2 == And(x / 2, y / 2);
      AndBits(x / 2, y / 2, k - 1);
    }
  }

  /** And so does the complement of an n-bit number. */
  lemma {:induction false} NotBits(m: nat, n: nat, k: nat)
    requires m < Pow2(n) && k < n
    ensures BitOf(Pow2(n) - 1 - m, k) <==> !BitOf(m, k)
    decreases n
  {
    if k == 0 {
    } else {
      assert (Pow2(n) - 1 - m) / 2 == Pow2(n - 1) - 1 - m / 2;
      NotBits(m / 2, n - 1, k - 1);
    }
  }

  lemma WrappedIs(x: nat)
    requires x < 2 * WORD
    ensures Wrapped(x) == x % 0x1_0000_0000
  {}

  /** A masked sum of two words, bit by bit */
  lemma {:induction false} MaskBits(x: nat, m: nat, k: nat)
    requires x < 2 * WORD && m < WORD && k < 32
    ensures BitOf(And(Wrapped(x), Not(m)), k) <==> BitOf(x % 0x1_0000_0000, k) && !BitOf(m, k)
  {
    WrappedIs(x);
    Pow2At32();
    AndBits(Wrapped(x), Not(m), k);
    NotBits(m, 32, k);
  }

  /** Bit k is what is left of division by 2^k, modulo 2. */
  lemma {:induction false} BitOfIs(n: nat, k: nat)
    ensures BitOf(n, k) <==> n / Pow2(k) % 2 == 1
  {
    if k == 0 {
    } else {
      BitOfIs(n / 2, k - 1);
      HalfQuotient(n, Pow2(k - 1));
    }
  }

  lemma HalfQuotient(n: nat, p: nat)
    requires p > 0
    ensures n / 2 / p == n / (2 * p)
  {
    var q, r := n / 2 / p, n / 2 % p;
    assert n / 2 == q * p + r;
    assert n == q * (2 * p) + (2 * r + n % 2) by {
      assert q * (2 * p) == 2 * (q * p);
    }
    DivisionUnique(n, 2 * p, q, 2 * r + n % 2);
  }

  lemma {:induction false} AndOnes(x: nat, n: nat)
    requires x < Pow2(n)
    ensures And(x, Pow2(n) - 1) == x
  {
    if x == 0 {
    } else {
      AndOnes(x / 2, n - 1);
      assert (Pow2(n) - 1) / 2 == Pow2(n - 1) - 1;
    }
  }

  /** Clearing the low k bits of an n-bit number */
  lemma {:induction false} ClearLow(q: nat, r: nat, k: nat, n: nat, mask: nat)
    requires k <= n && r < Pow2(k) && q * Pow2(k) + r < Pow2(n) && mask == Pow2(n) - Pow2(k)
    ensures And(q * Pow2(k) + r, mask) == q * Pow2(k)
  {
    if k == 0 {
      AndOnes(q, n);
    } else {
      var half := q * Pow2(k - 1);
      assert q * Pow2(k) == 2 * half;
      ClearLow(q, r / 2, k - 1, n - 1, mask / 2);
      assert (2 * half + r) / 2 == half + r / 2;
    }
  }

  lemma {:induction false} ClearLowWord(q: nat, r: nat, page: nat, k: nat, multiple: nat)
    requires k <= 32 && page == Pow2(k) <= WORD && r < page && multiple == q * page && multiple + r < WORD
    ensures And(multiple + r, Not(page - 1)) == multiple
  {
    Pow2At32();
    ClearLow(q, r, k, 32, Not(page - 1));
  }

  lemma {:induction false} Less(q: nat, whole: nat, page: nat)
    requires page > 0 && q * page >= whole * page
    ensures q >= whole && (q - whole) * page == q * page - whole * page
  {
    Multiples(page, whole - q);
    Distribute(whole, q, page);
    Distribute(q, whole, page);
  }

  lemma {:induction false} WholeWord(page: nat, k: nat) returns (whole: nat)
    requires k <= 32 && page == Pow2(k)
    ensures whole * page == WORD
  {
    whole := Pow2(32 - k);
    Pow2Sum(32 - k, k);
    Pow2At32();
  }

  lemma {:induction false} WrapAbove(q: nat, whole: nat, r: nat, page: nat)
    requires r < page && q * page + r >= whole * page
    ensures q * page >= whole * page
  {
    Multiples(page, whole - q);
    Distribute(whole, q, page);
  }

  lemma {:induction false} ClearLowWrapped(q: nat, r: nat, page: nat, k: nat, multiple: nat)
    requires k <= 32 && page == Pow2(k) <= WORD && r < page && multiple == q * page
    requires WORD <= multiple + r < 2 * WORD
    ensures WORD <= multiple && And(multiple + r - WORD, Not(page - 1)) == multiple - WORD
  {
    var whole := WholeWord(page, k);
    WrapAbove(q, whole, r, page);
    Less(q, whole, page);
    ClearLowWord(q - whole, r, page, k, multiple - WORD);
  }

  /** Masking with the complement of 2^k - 1, after wrapping to a word, rounds down to a multiple of 2^k. */
  lemma {:induction false} MaskIsFloor(q: nat, r: nat, page: nat, k: nat, multiple: nat)
    requires k <= 32 && page == Pow2(k) <= WORD && r < page && multiple == q * page && multiple + r < 2 * WORD
    ensures And(Wrapped(multiple + r), Not(page - 1)) == Wrapped(multiple)
  {
    if multiple + r < WORD {
      ClearLowWord(q, r, page, k, multiple);
    } else {
      ClearLowWrapped(q, r, page, k, multiple);
    }
  }
}
