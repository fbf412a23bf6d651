/** The size computation of boot/common/libimg.c for a boot image. */
module BootImage {
  import opened MachineInt
  import opened Bitwise

  /** (size + page_mask) & ~page_mask, with page_mask = page_size - 1 */
  function Padded(size: nat, pageSize: nat): nat
    requires size < WORD && 0 < pageSize < WORD
  {
    And(Wrapped(size + (pageSize - 1)), Not(pageSize - 1))
  }

  /** calculate_size: the words are added as ints. */
  function CalculateSize(kernelSize: nat, ramdiskSize: nat, pageSize: nat): int
    requires kernelSize < WORD && ramdiskSize < WORD && 0 < pageSize < WORD
  {
    Signed(Wrapped(Padded(kernelSize, pageSize) + Padded(ramdiskSize, pageSize)))
  }

  /** The number of pages that include/boot_img.h gives for a part of the image */
  function Pages(size: nat, pageSize: nat): nat
    requires pageSize > 0
  {
    (size + pageSize - 1) / pageSize
  }

  /** They hold the part and are fewer than one page too many. */
  lemma PagesCover(size: nat, pageSize: nat)
    requires pageSize > 0
    ensures size <= Pages(size, pageSize) * pageSize < size + pageSize
  {
    QuotientRemainder(size + pageSize - 1, pageSize);
  }

  /** For every page size the mask clears the bits of pageSize - 1 from the wrapped sum. */
  lemma {:induction false} PaddedBits(size: nat, pageSize: nat, k: nat)
    requires size < 0x1_0000_0000 && 0 < pageSize < 0x1_0000_0000 && k < 32
    ensures BitOf(Padded(size, pageSize), k)
       <==> BitOf((size + pageSize - 1) % 0x1_0000_0000, k) && !BitOf(pageSize - 1, k)
  {
    MaskBits(size + pageSize - 1, pageSize - 1, k);
  }

  /** The two parts are added as ints, for every page size. */
  lemma {:induction false} CalculateSizeIsSum(kernelSize: nat, ramdiskSize: nat, pageSize: nat)
    requires kernelSize < 0x1_0000_0000 && ramdiskSize < 0x1_0000_0000 && 0 < pageSize < 0x1_0000_0000
    ensures var size := CalculateSize(kernelSize, ramdiskSize, pageSize);
      && -0x8000_0000 <= size < 0x8000_0000
      && (size - Padded(kernelSize, pageSize) - Padded(ramdiskSize, pageSize)) % 0x1_0000_0000 == 0
  {}

  predicate IsPow2(p: nat) {
    exists k: nat :: k < 32 && p == Pow2(k)
  }

  lemma {:induction false} PaddedIsMultiple(size: nat, pageSize: nat, k: nat, q: nat, r: nat, multiple: nat)
    requires size < WORD && k < 32 && 0 < pageSize == Pow2(k) < WORD
    requires size + pageSize - 1 == multiple + r && r < pageSize && multiple == q * pageSize
    ensures multiple < 2 * WORD && Padded(size, pageSize) == Wrapped(multiple)
  {
    MaskIsFloor(q, r, pageSize, k, multiple);
  }

  /** The masks give the documented pages, up to the width of a word. */
  lemma {:induction false} PaddedIsPages(size: nat, pageSize: nat)
    requires size < WORD && 0 < pageSize < WORD && IsPow2(pageSize)
    ensures Pages(size, pageSize) * pageSize < 2 * WORD
    ensures Padded(size, pageSize) == Wrapped(Pages(size, pageSize) * pageSize)
  {
    var k: nat :| k < 32 && pageSize == Pow2(k);
    var x := size + pageSize - 1;
    QuotientRemainder(x, pageSize);
    PaddedIsMultiple(size, pageSize, k, x / pageSize, x % pageSize, x / pageSize * pageSize);
  }

  /** The size is that of the documented n + m pages exactly when it fits in an int. */
  lemma {:induction false} CalculateSizeCorrectIff(kernelSize: nat, ramdiskSize: nat, pageSize: nat)
    requires kernelSize < WORD && ramdiskSize < WORD && 0 < pageSize < WORD && IsPow2(pageSize)
    ensures var size := (Pages(kernelSize, pageSize) + Pages(ramdiskSize, pageSize)) * pageSize;
      CalculateSize(kernelSize, ramdiskSize, pageSize) == size <==> size < WORD / 2
  {
    var n, m := Pages(kernelSize, pageSize), Pages(ramdiskSize, pageSize);
    PaddedIsPages(kernelSize, pageSize);
    PaddedIsPages(ramdiskSize, pageSize);
    Distribute(n, m, pageSize);
    SumIff(Padded(kernelSize, pageSize), Padded(ramdiskSize, pageSize), n * pageSize, m * pageSize);
  }

  lemma {:induction false} SumIff(a: nat, b: nat, x: nat, y: nat)
    requires x < 2 * WORD && y < 2 * WORD && a == Wrapped(x) && b == Wrapped(y)
    ensures Signed(Wrapped(a + b)) == x + y <==> x + y < WORD / 2
  {}

  // ----- page sizes that are not powers of two -----

  lemma {:induction false} Disjoint(h: nat, n: nat)
    requires h < Pow2(n)
    ensures And(h, Pow2(n) - 1 - h) == 0
  {
    if h == 0 {
    } else {
      Disjoint(h / 2, n - 1);
      assert (Pow2(n) - 1 - h) / 2 == Pow2(n - 1) - 1 - h / 2;
    }
  }

  /** Only powers of two survive the mask for their own page. */
  lemma {:induction false} OwnMask(p: nat, n: nat) returns (k: nat)
    requires 0 < p < Pow2(n) && And(p, Pow2(n) - p) == p
    ensures k < n && p == Pow2(k)
  {
    assert (p / 2) * 2 <= p;
    if p % 2 == 0 {
      assert (Pow2(n) - p) / 2 == Pow2(n - 1) - p / 2;
      k := OwnMask(p / 2, n - 1);
      k := k + 1;
    } else {
      assert (Pow2(n) - p) / 2 == Pow2(n - 1) - 1 - p / 2;
      Disjoint(p / 2, n - 1);
      k := 0;
    }
  }

  lemma {:induction false} OnlyPowers(pageSize: nat)
    requires 0 < pageSize < WORD && Padded(1, pageSize) == Pages(1, pageSize) * pageSize
    ensures IsPow2(pageSize)
  {
    OnePage(pageSize);
    PaddedByte(pageSize, Not(pageSize - 1));
    Pow2At32();
    var k := OwnMask(pageSize, 32);
  }

  lemma OnePage(pageSize: nat)
    requires pageSize > 0
    ensures Pages(1, pageSize) * pageSize == pageSize
  {
    DivisionUnique(pageSize, pageSize, 1, 0);
  }

  lemma PaddedByte(pageSize: nat, mask: nat)
    requires 0 < pageSize < WORD && mask == WORD - pageSize
    ensures Padded(1, pageSize) == And(pageSize, mask)
  {}

  ghost predicate PadsAsDocumented(pageSize: nat)
    requires 0 < pageSize < WORD
  {
    forall size: nat :: size + pageSize - 1 < WORD ==> Padded(size, pageSize) == Pages(size, pageSize) * pageSize
  }

  /** Padding meets the documentation, for every size that does not wrap,
      exactly when the page size is a power of two. */
  lemma {:induction false} PageSizeIff(pageSize: nat)
    requires 0 < pageSize < WORD
    ensures PadsAsDocumented(pageSize) <==> IsPow2(pageSize)
  {
    if IsPow2(pageSize) {
      forall size: nat | size + pageSize - 1 < WORD
        ensures Padded(size, pageSize) == Pages(size, pageSize) * pageSize
      {
        PaddedIsPages(size, pageSize);
        QuotientRemainder(size + pageSize - 1, pageSize);
      }
    } else if PadsAsDocumented(pageSize) {
      OnlyPowers(pageSize);
    }
  }

  // ----- where the documentation is not met -----

  /** A kernel of 2^31 bytes in pages of 2048 comes out negative. */
  lemma SizeTurnsNegative()
    ensures Pages(0x8000_0000, 0x800) * 0x800 == 0x8000_0000
    ensures CalculateSize(0x8000_0000, 0, 0x800) == -0x8000_0000
  {
    assert Pow2(11) == 0x800;
    PaddedIsPages(0x8000_0000, 0x800);
    PaddedIsPages(0, 0x800);
  }

  /** One byte in pages of 3 is padded to 1. */
  lemma OddPageSize()
    ensures Padded(1, 3) == 1 && Pages(1, 3) * 3 == 3
  {}
}
