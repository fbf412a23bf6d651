/** The image lookup of boot/common/xbootimg.c. */
module XbootImage {
  import opened MachineInt
  import opened Bitwise

  /** An image descriptor, with sizes in bytes and the offset in pages */
  datatype Desc = Desc(offset: nat, size: nat, flag: nat)

  /** The result: the bytes asked of the boot medium and the stated size of the image */
  datatype Lookup = NotFound | Found(offset: nat, readSize: nat, imageSize: nat)

  ghost predicate Words(descs: seq<Desc>) {
    forall i :: 0 <= i < |descs| ==> descs[i].offset < WORD && descs[i].size < WORD && descs[i].flag < WORD
  }

  /** (image_size + XBOOT_PAGE_SIZE) & ~(XBOOT_PAGE_SIZE - 1) */
  function ReadSize(size: nat, pageSize: nat): nat
    requires size < WORD && 0 < pageSize < WORD
  {
    And(Wrapped(size + pageSize), Not(pageSize - 1))
  }

  lemma SumWraps(x: nat, y: nat)
    ensures (x % WORD + y % WORD) % WORD == (x + y) % WORD
  {}

  /** The offset in bytes, added up in the width of a word */
  lemma OffsetSum(base: nat, offset: nat, pageSize: nat, sum: nat)
    requires sum == (base * pageSize % WORD + offset * pageSize % WORD) % WORD
    ensures sum == (base + offset) * pageSize % 0x1_0000_0000
  {
    SumWraps(base * pageSize, offset * pageSize);
    Distribute(base, offset, pageSize);
  }

  /** get_image, for a header with imageCount descriptors; what it finds is the image of the first that matches, k. */
  method GetImage(descs: seq<Desc>, imageCount: nat, flag: nat, base: nat, pageSize: nat)
      returns (r: Lookup, ghost k: nat)
    requires Words(descs) && imageCount < WORD && Signed(imageCount) <= |descs|
    requires 0 < pageSize < WORD
    ensures r == NotFound <==> forall i :: 0 <= i < Signed(imageCount) ==> descs[i].flag != flag
    ensures r.Found? ==> k < Signed(imageCount) && descs[k].flag == flag
    ensures r.Found? ==> forall j :: 0 <= j < k ==> descs[j].flag != flag
    ensures r.Found? ==> r.offset == (base + descs[k].offset) * pageSize % 0x1_0000_0000
    ensures r.Found? ==> r.readSize == ReadSize(descs[k].size, pageSize) && r.imageSize == descs[k].size
  {
    var maxDes := Signed(imageCount);
    var i := 0;
    while i < maxDes
      invariant i == 0 || 0 <= i <= maxDes
      invariant forall j :: 0 <= j < i ==> descs[j].flag != flag
    {
      var desc := descs[i];
      if desc.flag == flag {
        var imageOffset := (base * pageSize % WORD + desc.offset * pageSize % WORD) % WORD;
        OffsetSum(base, desc.offset, pageSize, imageOffset);
        r, k := Found(imageOffset, ReadSize(desc.size, pageSize), desc.size), i;
        return;
      }
      i := i + 1;
    }
    r, k := NotFound, 0;
  }

  lemma {:induction false} ReadIsMultiple(size: nat, pageSize: nat, k: nat, q: nat, r: nat, multiple: nat)
    requires size < WORD && k < 32 && 0 < pageSize == Pow2(k) < WORD
    requires size == multiple + r && r < pageSize && multiple == q * pageSize
    ensures ReadSize(size, pageSize) == Wrapped(multiple + pageSize)
    ensures size < ReadSize(size, pageSize) <= size + pageSize <==> size < WORD - pageSize
  {
    MaskIsFloor(q + 1, r, pageSize, k, multiple + pageSize);
  }

  lemma Divide(size: nat, pageSize: nat) returns (q: nat, r: nat)
    requires pageSize > 0
    ensures size == q * pageSize + r && r < pageSize && q == size / pageSize
  {
    q, r := size / pageSize, size % pageSize;
    QuotientRemainder(size, pageSize);
  }

  /** What is read is the whole pages of the image and one page more, in the width of a word. */
  lemma {:induction false} ReadIsPages(size: nat, pageSize: nat, k: nat)
    requires size < WORD && k < 32 && 0 < pageSize == Pow2(k) < WORD
    ensures size / pageSize * pageSize <= size
    ensures ReadSize(size, pageSize) == Wrapped(size / pageSize * pageSize + pageSize)
  {
    var q, r := Divide(size, pageSize);
    ReadIsMultiple(size, pageSize, k, q, r, q * pageSize);
  }

  /** It is above the size by at most a page, unless the sum wraps. */
  lemma {:induction false} ReadCoversIff(size: nat, pageSize: nat, k: nat)
    requires size < WORD && k < 32 && 0 < pageSize == Pow2(k) < WORD
    ensures size < ReadSize(size, pageSize) <= size + pageSize <==> size < WORD - pageSize
  {
    var q, r := Divide(size, pageSize);
    ReadIsMultiple(size, pageSize, k, q, r, q * pageSize);
  }

  /** For every page size the mask clears the bits of pageSize - 1 from the wrapped sum. */
  lemma {:induction false} ReadSizeBits(size: nat, pageSize: nat, k: nat)
    requires size < 0x1_0000_0000 && 0 < pageSize < 0x1_0000_0000 && k < 32
    ensures BitOf(ReadSize(size, pageSize), k)
       <==> BitOf((size + pageSize) % 0x1_0000_0000, k) && !BitOf(pageSize - 1, k)
  {
    MaskBits(size + pageSize, pageSize - 1, k);
  }

  /** At the largest sizes nothing is read. */
  lemma ReadWraps()
    ensures ReadSize(0xffff_fe00, 512) == 0
  {}
}
