/** Unsigned machine words as fixed-length bit strings, most significant bit first,
    with the C operators the checksum code applies to them. */
module WordBits {
  import opened Gf2Poly
  import opened MachineInt

  type Byte = b: Bits | |b| == 8 witness Zeros(8)
  type Word16 = b: Bits | |b| == 16 witness Zeros(16)
  type Word32 = b: Bits | |b| == 32 witness Zeros(32)

  /** w << k, in the width of w */
  function Shl(w: Bits, k: nat): (r: Bits)
    requires k <= |w|
    ensures |r| == |w|
  {
    w[k..] + Zeros(k)
  }

  /** w >> k */
  function Shr(w: Bits, k: nat): (r: Bits)
    requires k <= |w|
    ensures |r| == |w|
  {
    Zeros(k) + w[..|w| - k]
  }

  /** Conversion to n bits: zero extension, or truncation to the low bits. */
  function Resize(w: Bits, n: nat): (r: Bits)
    ensures |r| == n
  {
    if n >= |w| then Zeros(n - |w|) + w else w[|w| - n..]
  }

  function Value(w: Bits): nat
    decreases |w|
  {
    if w == [] then 0 else 2 * Value(w[..|w| - 1]) + (if w[|w| - 1] then 1 else 0)
  }

  function FromNat(n: nat, width: nat): (w: Bits)
    ensures |w| == width
    decreases width
  {
    if width == 0 then [] else FromNat(n / 2, width - 1) + [n % 2 == 1]
  }

  lemma {:induction false} FromNatOfValue(w: Bits)
    ensures FromNat(Value(w), |w|) == w
    decreases |w|
  {
    if w == [] {
    } else {
      FromNatOfValue(w[..|w| - 1]);
    }
  }

  lemma {:induction false} ValueBound(w: Bits)
    ensures Value(w) < Pow2(|w|)
    decreases |w|
  {
    if w == [] {
    } else {
      ValueBound(w[..|w| - 1]);
    }
  }

  lemma {:induction false} ValueOfFromNat(n: nat, width: nat)
    requires n < Pow2(width)
    ensures Value(FromNat(n, width)) == n
    decreases width
  {
    if width == 0 {
    } else {
      ValueOfFromNat(n / 2, width - 1);
    }
  }

  /** The low k bits of n do not depend on how wide n is written. */
  lemma {:induction false} LowBits(n: nat, width: nat, k: nat)
    requires k <= width
    ensures FromNat(n, width)[width - k..] == FromNat(n, k)
    decreases k
  {
    if k == 0 {
    } else {
      LowBits(n / 2, width - 1, k - 1);
    }
  }

  lemma ByteIndex(b: Byte)
    ensures Value(b) < 256
  {
    ValueBound(b);
    assert Pow2(8) == 2 * 2 * 2 * 2 * 2 * 2 * 2 * 2;
  }
}
