/** The address map that boot/common/tlb.c sets up, read by the rules of a MIPS32 TLB. */
module Tlb {

  /** The four registers that one indexed TLB write stores */
  datatype Entry = Entry(mask: bv32, hi: bv32, lo0: bv32, lo1: bv32)

  // ----- the processor's side -----

  /** The address bits inside one page of an entry: PageMask covers the pair of pages. */
  function PageBits(mask: bv32): bv32 {
    (mask | 0x1fff) >> 1
  }

  /** The virtual page pair numbers agree outside the mask and both pages are global. */
  predicate Matches(e: Entry, va: bv32) {
    e.hi & 0xffff_e000 & !e.mask == va & 0xffff_e000 & !e.mask && e.lo0 & e.lo1 & 1 == 1
  }

  /** The EntryLo of the even or the odd page, by the first address bit above the page */
  function Selected(e: Entry, va: bv32): bv32 {
    if va & (PageBits(e.mask) + 1) == 0 then e.lo0 else e.lo1
  }

  /** The page frame in bits 29 to 6 of EntryLo, joined to the address bits inside the page */
  function Physical(e: Entry, va: bv32): bv32 {
    (((Selected(e, va) & 0x3fff_ffc0) << 6) & !PageBits(e.mask)) | (va & PageBits(e.mask))
  }

  /** Cacheable (C = 3), writable (D), valid (V), global (G) */
  predicate CachedWritable(lo: bv32) {
    lo & 0x3f == 0x1f
  }

  lemma CachedWritableIs(lo: bv32)
    ensures CachedWritable(lo) <==> (lo >> 3) & 7 == 3 && lo & 4 != 0 && lo & 2 != 0 && lo & 1 != 0
  {}

  // ----- the program's side -----

  /** The register values after one more pass: the next pair of 16 MB pages */
  function Advanced(e: Entry): Entry {
    Entry(e.mask, e.hi + 0x0200_0000, e.lo0 + (0x0200_0000 >> 6), e.lo1 + (0x0200_0000 >> 6))
  }

  /** What pass k writes */
  function Written(k: nat): Entry {
    if k == 0 then
      var flags: bv32 := (3 << 3) + (1 << 2) + (1 << 1) + 1;
      Entry(0x01ff_e000, 0xc000_0000, (0x2000_0000 >> 6) | flags, (0x2100_0000 >> 6) | flags)
    else Advanced(Written(k - 1))
  }

  /** The TLB as SetupTlb leaves it */
  ghost predicate IsSetUp(tlb: seq<Entry>) {
    |tlb| == 32 && forall k :: 0 <= k < 32 ==> tlb[k] == Written(k)
  }

  /** The additions at the end of a pass */
  method NextPages(ghost mask: bv32, hi: bv32, lo0: bv32, lo1: bv32)
      returns (nextHi: bv32, nextLo0: bv32, nextLo1: bv32)
    ensures Entry(mask, nextHi, nextLo0, nextLo1) == Advanced(Entry(mask, hi, lo0, lo1))
  {
    nextHi := hi + 0x0200_0000;
    nextLo0 := lo0 + (0x0200_0000 >> 6);
    nextLo1 := lo1 + (0x0200_0000 >> 6);
  }

  /** setup_tlb */
  method SetupTlb(tlb: array<Entry>)
    requires tlb.Length == 32
    modifies tlb
    ensures IsSetUp(tlb[..])
  {
    var pagemask: bv32 := 0x01ff_e000;
    var entrylo0: bv32 := (0x2000_0000 >> 6) | ((3 << 3) + (1 << 2) + (1 << 1) + 1);
    var entrylo1: bv32 := (0x2100_0000 >> 6) | ((3 << 3) + (1 << 2) + (1 << 1) + 1);
    var entryhi: bv32 := 0xc000_0000;
    for i := 0 to 32
      invariant Entry(pagemask, entryhi, entrylo0, entrylo1) == Written(i)
      invariant forall k :: 0 <= k < i ==> tlb[k] == Written(k)
    {
      tlb[i] := Entry(pagemask, entryhi, entrylo0, entrylo1);
      entryhi, entrylo0, entrylo1 := NextPages(pagemask, entryhi, entrylo0, entrylo1);
    }
  }

  // ----- the map -----

  /** The entry for page pair w of the upper quarter of the address space */
  function Programmed(w: bv32): Entry {
    Entry(0x01ff_e000, 0xc000_0000 + (w << 25), 0x0080_001f + (w << 19), 0x0084_001f + (w << 19))
  }

  lemma ProgrammedStep(w: bv32)
    requires w < 32
    ensures Programmed(w + 1) == Advanced(Programmed(w))
  {}

  /** Pass k writes the entry of page pair k. */
  lemma {:induction false} WrittenIsProgrammed(k: nat, w: bv32)
    requires k <= 32 && k == w as int
    ensures Written(k) == Programmed(w)
    ensures Written(k) == Entry(0x01ff_e000, 0xc000_0000 + (w << 25), 0x0080_001f + (w << 19), 0x0084_001f + (w << 19))
  {
    if k == 0 {
    } else {
      WrittenIsProgrammed(k - 1, w - 1);
      ProgrammedStep(w - 1);
    }
  }

  /** An entry matches exactly the 32 MB of its page pair. */
  lemma MatchesIff(w: bv32, va: bv32)
    requires w < 32
    ensures Matches(Programmed(w), va) <==> va >= 0xc000_0000 && w == (va >> 25) - 96
  {}

  /** A matching address goes 0xa0000000 down, through a page with the intended flags. */
  lemma MatchTranslates(w: bv32, va: bv32)
    requires w < 32 && Matches(Programmed(w), va)
    ensures Physical(Programmed(w), va) == va - 0xa000_0000
    ensures CachedWritable(Selected(Programmed(w), va))
  {}

  /** The entries that an address hits */
  ghost function Hits(tlb: seq<Entry>, va: bv32): set<nat> {
    set k: nat | k < |tlb| && Matches(tlb[k], va)
  }

  /** The entry for an address of the upper quarter of the address space */
  function Slot(va: bv32): nat
    requires va >= 0xc000_0000
  {
    ((va >> 25) - 96) as nat
  }

  lemma NextWord(w: bv32)
    requires w < 31
    ensures w + 1 < 32 && (w + 1) as nat == w as nat + 1
  {}

  lemma {:induction false} AsWord(k: nat) returns (w: bv32)
    requires k < 32
    ensures w < 32 && w as nat == k
  {
    if k == 0 {
      w := 0;
    } else {
      w := AsWord(k - 1);
      NextWord(w);
      w := w + 1;
    }
  }

  lemma SlotIff(k: nat, w: bv32, va: bv32)
    requires w as nat == k && va >= 0xc000_0000
    ensures k == Slot(va) <==> w == (va >> 25) - 96
  {}

  lemma WrittenMatchesIff(k: nat, w: bv32, va: bv32)
    requires k < 32 && w < 32 && w as nat == k
    ensures Matches(Written(k), va) <==> va >= 0xc000_0000 && k == Slot(va)
  {
    WrittenIsProgrammed(k, w);
    MatchesIff(w, va);
    if va >= 0xc000_0000 {
      SlotIff(k, w, va);
    }
  }

  /** Every address from 0xc0000000 on hits exactly one entry, and no other address hits any. */
  lemma HitsOnce(tlb: seq<Entry>, va: bv32)
    requires IsSetUp(tlb)
    ensures va >= 0xc000_0000 ==> Slot(va) < 32 && Hits(tlb, va) == {Slot(va)}
    ensures va < 0xc000_0000 ==> Hits(tlb, va) == {}
  {
    forall k: nat | k < 32
      ensures Matches(tlb[k], va) <==> va >= 0xc000_0000 && k == Slot(va)
    {
      var w := AsWord(k);
      WrittenMatchesIff(k, w, va);
    }
  }

  /** The hit goes 0xa0000000 down, through a page with the intended flags. */
  lemma HitTranslates(tlb: seq<Entry>, va: bv32, k: nat)
    requires IsSetUp(tlb) && k in Hits(tlb, va)
    ensures Physical(tlb[k], va) == va - 0xa000_0000
    ensures CachedWritable(Selected(tlb[k], va))
  {
    var w := AsWord(k);
    WrittenIsProgrammed(k, w);
    MatchTranslates(w, va);
  }

  /** The physical addresses that the entries give an address */
  ghost function Images(tlb: seq<Entry>, va: bv32): set<bv32> {
    set k | k in Hits(tlb, va) :: Physical(tlb[k], va)
  }

  lemma ImageIsBelow(tlb: seq<Entry>, va: bv32)
    requires IsSetUp(tlb)
    ensures Images(tlb, va) == if va >= 0xc000_0000 then {va - 0xa000_0000} else {}
  {
    HitsOnce(tlb, va);
    if va >= 0xc000_0000 {
      var k := Slot(va);
      assert k in Hits(tlb, va);
      HitTranslates(tlb, va, k);
    }
  }

  lemma Window(pa: bv32)
    ensures pa + 0xa000_0000 >= 0xc000_0000 <==> 0x2000_0000 <= pa <= 0x5fff_ffff
  {}

  lemma Offset(x: bv32)
    ensures x - 0xa000_0000 + 0xa000_0000 == x && x + 0xa000_0000 - 0xa000_0000 == x
  {}

  lemma Above(va: bv32, pa: bv32)
    requires pa == va - 0xa000_0000
    ensures va == pa + 0xa000_0000
  {
    Offset(va);
  }

  /** So physical addresses lie in 0x20000000 to 0x5fffffff, and each comes from one address only. */
  lemma OneToOne(tlb: seq<Entry>, va: bv32, pa: bv32)
    requires IsSetUp(tlb) && pa in Images(tlb, va)
    ensures 0x2000_0000 <= pa <= 0x5fff_ffff && va == pa + 0xa000_0000
  {
    ImageIsBelow(tlb, va);
    Above(va, pa);
    Window(pa);
  }

  lemma Source(pa: bv32) returns (va: bv32)
    requires 0x2000_0000 <= pa <= 0x5fff_ffff
    ensures va >= 0xc000_0000 && pa == va - 0xa000_0000
  {
    va := pa + 0xa000_0000;
    Window(pa);
    Offset(pa);
  }

  /** And every physical address of that range is reached. */
  lemma Onto(tlb: seq<Entry>, pa: bv32) returns (va: bv32)
    requires IsSetUp(tlb) && 0x2000_0000 <= pa <= 0x5fff_ffff
    ensures pa in Images(tlb, va)
  {
    va := Source(pa);
    ImageIsBelow(tlb, va);
  }
}
