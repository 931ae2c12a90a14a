/** The pages of 64-bit addresses: the four table indices that the shifts of vmm.cpp cut out of an
    address, against page numbers, the private window and the heap. */
module PageAddresses {
  import opened Machine
  import opened PageTables
  import opened EntryWords
  import opened CloneSteps
  import opened PageRanges
  import opened HeapFrames
  import opened HeapPages

  const RESERVED_LOW: bv64 := 0x20_0000
  const RESERVED_HIGH: bv64 := 0x100_0000

  lemma IndicesBelow(virt: bv64)
    ensures BelowTable(Pml4Index(virt)) && BelowTable(PdptIndex(virt)) && BelowTable(PdIndex(virt)) && BelowTable(PtIndex(virt))
  {
  }

  function IndexOf(i: bv64): (r: Index)
    requires BelowTable(i)
    ensures r == WordValue(i)
  {
    SmallValue(i);
    WordValue(i)
  }

  /** The page in which an address lies. */
  function PageOfWord(virt: bv64): Page {
    IndicesBelow(virt);
    Page(IndexOf(Pml4Index(virt)), IndexOf(PdptIndex(virt)), IndexOf(PdIndex(virt)), IndexOf(PtIndex(virt)))
  }

  // ---- words below small bounds ----

  function Eighth(w: bv64): bv64 { w >> 3 }
  function TableUp(w: bv64): bv64 { w >> 9 }
  function LowThree(w: bv64): bv64 { w & 7 }
  function LowNine(w: bv64): bv64 { w & 0x1FF }

  lemma ThreeHalves(w: bv64)
    ensures Half(Half(Half(w))) == Eighth(w)
  {
  }

  lemma NineHalvesUp(w: bv64)
    ensures Eighth(Eighth(Eighth(w))) == TableUp(w)
  {
  }

  function AboveThree(w: bv64): bv64 { w & 0xFFFF_FFFF_FFFF_FFF8 }

  lemma RestJoined(w: bv64)
    ensures Joined(AboveThree(w), LowThree(w), w)
  {
    RestDisjoint(w);
    RestWhole(w);
  }

  lemma RestDisjoint(w: bv64)
    ensures (w & 0xFFFF_FFFF_FFFF_FFF8) & (w & 7) == 0
  {
  }

  lemma RestWhole(w: bv64)
    ensures w == (w & 0xFFFF_FFFF_FFFF_FFF8) | (w & 7)
  {
  }

  lemma RestBits(w: bv64)
    ensures Clear(AboveThree(w), 7) && Eighth(AboveThree(w)) == Eighth(w)
  {
  }

  lemma RestBelow(w: bv64)
    ensures LowThree(w) < 8
  {
  }

  lemma ThreeGone(w: bv64)
    requires w < 8
    ensures Eighth(w) == 0
  {
  }

  lemma ValueBelowEight(w: bv64)
    requires w < 8
    ensures WordValue(w) < 8
  {
    ThreeGone(w);
    ThreeHalves(w);
    hide Half, Odd, Eighth;
    HalfValue(w);
    HalfValue(Half(w));
    HalfValue(Half(Half(w)));
  }

  /** Moving down by three places divides by eight. */
  lemma ValueEighth(w: bv64)
    ensures WordValue(w) == 8 * WordValue(Eighth(w)) + WordValue(LowThree(w)) && WordValue(LowThree(w)) < 8
  {
    hide Half, Odd, WordValue, Eighth, LowThree, AboveThree, Joined, Clear, Steps;
    RestJoined(w);
    RestBits(w);
    RestBelow(w);
    Masks();
    ValueJoined(AboveThree(w), LowThree(w), w);
    HalfEvens(AboveThree(w), 7, 3, 1, 0);
    ThreeHalves(AboveThree(w));
    ValueBelowEight(LowThree(w));
  }

  lemma TableAndRest(w: bv64)
    ensures LowThree(LowNine(w)) == LowThree(w)
    ensures LowThree(Eighth(LowNine(w))) == LowThree(Eighth(w))
    ensures Eighth(Eighth(LowNine(w))) == LowThree(Eighth(Eighth(w)))
  {
  }

  /** Moving down by nine places divides by 512. */
  lemma ValueTable(w: bv64)
    ensures WordValue(w) == 512 * WordValue(TableUp(w)) + WordValue(LowNine(w)) && WordValue(LowNine(w)) < 512
  {
    NineHalvesUp(w);
    TableAndRest(w);
    hide WordValue, Eighth, LowThree, TableUp, LowNine;
    ValueEighth(w);
    ValueEighth(Eighth(w));
    ValueEighth(Eighth(Eighth(w)));
    ValueEighth(LowNine(w));
    ValueEighth(Eighth(LowNine(w)));
  }

  // ---- addresses and page numbers ----

  lemma IndexShifts(virt: bv64)
    ensures var p := Eighth(TableUp(virt));
      && LowNine(p) == PtIndex(virt) && LowNine(TableUp(p)) == PdIndex(virt)
      && LowNine(TableUp(TableUp(p))) == PdptIndex(virt) && LowNine(TableUp(TableUp(TableUp(p)))) == Pml4Index(virt)
  {
  }

  lemma ByPage(v: nat, q: nat, r: nat)
    requires v == 4096 * q + r && r < 4096
    ensures v / 4096 == q
  {
  }

  lemma ByTable(v: nat, q: nat, r: nat)
    requires v == 512 * q + r && r < 512
    ensures v / 512 == q && v % 512 == r
  {
  }

  lemma PageNumber(virt: bv64)
    ensures WordValue(virt) / PAGE_SIZE == WordValue(Eighth(TableUp(virt)))
  {
    hide WordValue, Eighth, LowThree, TableUp, LowNine;
    var t := TableUp(virt);
    ValueTable(virt);
    ValueEighth(t);
    ByPage(WordValue(virt), WordValue(Eighth(t)), 512 * WordValue(LowThree(t)) + WordValue(LowNine(virt)));
  }

  /** The indices that the shifts cut out are those of the page number: no matter whether an operation
      is handed a word or a number, it works on the same page. */
  lemma PageOfAddress(virt: bv64)
    ensures PageOfWord(virt) == PageOf(WordValue(virt) / PAGE_SIZE)
  {
    IndexShifts(virt);
    IndicesBelow(virt);
    hide WordValue, Eighth, LowThree, TableUp, LowNine, Pml4Index, PdptIndex, PdIndex, PtIndex, BelowTable;
    var p := Eighth(TableUp(virt));
    PageNumber(virt);
    ValueTable(p);
    ByTable(WordValue(p), WordValue(TableUp(p)), WordValue(LowNine(p)));
    ValueTable(TableUp(p));
    ByTable(WordValue(TableUp(p)), WordValue(TableUp(TableUp(p))), WordValue(LowNine(TableUp(p))));
    ValueTable(TableUp(TableUp(p)));
    ByTable(WordValue(TableUp(TableUp(p))), WordValue(TableUp(TableUp(TableUp(p)))), WordValue(LowNine(TableUp(TableUp(p)))));
    ValueTable(TableUp(TableUp(TableUp(p))));
    var u := TableUp(TableUp(TableUp(p)));
    ByTable(WordValue(u), WordValue(TableUp(u)), WordValue(LowNine(u)));
  }

  /** Bits 47:12 decide the page. */
  lemma SamePage(a: bv64, b: bv64)
    ensures PageOfWord(a) == PageOfWord(b) <==> a & 0xFFFF_FFFF_F000 == b & 0xFFFF_FFFF_F000
  {
    IndicesBelow(a);
    IndicesBelow(b);
    if a & 0xFFFF_FFFF_F000 == b & 0xFFFF_FFFF_F000 { SameIndices(a, b); }
    hide WordValue, Pml4Index, PdptIndex, PdIndex, PtIndex, BelowTable;
    if PageOfWord(a) == PageOfWord(b) {
      ValueInjective(Pml4Index(a), Pml4Index(b));
      ValueInjective(PdptIndex(a), PdptIndex(b));
      ValueInjective(PdIndex(a), PdIndex(b));
      ValueInjective(PtIndex(a), PtIndex(b));
      SamePageBits(a, b);
    }
  }

  lemma SameIndices(a: bv64, b: bv64)
    requires a & 0xFFFF_FFFF_F000 == b & 0xFFFF_FFFF_F000
    ensures Pml4Index(a) == Pml4Index(b) && PdptIndex(a) == PdptIndex(b) && PdIndex(a) == PdIndex(b) && PtIndex(a) == PtIndex(b)
  {
    SameField(a, b, 39);
    SameField(a, b, 30);
    SameField(a, b, 21);
    SameField(a, b, 12);
  }

  lemma SameField(a: bv64, b: bv64, k: bv64)
    requires a & 0xFFFF_FFFF_F000 == b & 0xFFFF_FFFF_F000 && (k == 12 || k == 21 || k == 30 || k == 39)
    ensures (a >> k) & 0x1FF == (b >> k) & 0x1FF
  {
  }

  lemma SamePageBits(a: bv64, b: bv64)
    requires Pml4Index(a) == Pml4Index(b) && PdptIndex(a) == PdptIndex(b) && PdIndex(a) == PdIndex(b) && PtIndex(a) == PtIndex(b)
    ensures a & 0xFFFF_FFFF_F000 == b & 0xFFFF_FFFF_F000
  {
    BitsOfIndices(a);
    BitsOfIndices(b);
    hide Pml4Index, PdptIndex, PdIndex, PtIndex;
  }

  lemma BitsOfIndices(a: bv64)
    ensures a & 0xFFFF_FFFF_F000 == (Pml4Index(a) << 39) | (PdptIndex(a) << 30) | (PdIndex(a) << 21) | (PtIndex(a) << 12)
  {
  }

  // ---- every page has an address ----

  function Twice(w: bv64, odd: bool): bv64 { (w << 1) | (if odd then 1 else 0) }

  lemma TwiceBack(w: bv64, odd: bool)
    requires w < 256
    ensures Half(Twice(w, odd)) == w && (Odd(Twice(w, odd)) <==> odd) && BelowTable(Twice(w, odd))
  {
  }

  lemma ShortWord(w: bv64)
    requires Half(Half(Eighth(Eighth(w)))) == 0
    ensures w < 256
  {
  }

  /** A word for a value below 256 is below 256. */
  lemma SmallWord(w: bv64)
    requires WordValue(w) < 256
    ensures w < 256
  {
    var b := Eighth(Eighth(w));
    ValueEighth(w);
    ValueEighth(Eighth(w));
    hide Half, Odd, Eighth;
    HalfValue(b);
    HalfValue(Half(b));
    ValueZero(Half(Half(b)));
    ShortWord(w);
  }

  /** The word for an index. */
  lemma {:induction false} WordFor(n: Index) returns (w: bv64)
    ensures WordValue(w) == n && BelowTable(w)
    decreases n
  {
    if n == 0 {
      w := 0;
    } else {
      var h := WordFor(n / 2);
      SmallWord(h);
      w := Twice(h, n % 2 == 1);
      TwiceBack(h, n % 2 == 1);
      hide Half, Odd, Twice, BelowTable;
      HalfValue(w);
    }
  }

  /** The address clone_pt rebuilds from the indices of a page lies at the start of that page. */
  lemma EveryPage(pg: Page) returns (virt: bv64)
    ensures PageOfWord(virt) == pg && virt & 0xFFF == 0
  {
    var i4 := WordFor(pg.i4);
    var i3 := WordFor(pg.i3);
    var i2 := WordFor(pg.i2);
    var i1 := WordFor(pg.i1);
    virt := (i4 << 39) | (i3 << 30) | (i2 << 21) | (i1 << 12);
    RebuiltAddress(i4, i3, i2, i1);
    hide WordValue;
  }

  // ---- the private pages ----

  /** The rule of vmm.cpp for what a space owns: in PML4 slot 0 the window of 2 MiB to 16 MiB, and all
      other slots but those of the heap and of the physmap. */
  predicate PrivateAddress(virt: bv64) {
    if Pml4Index(virt) == 0 then RESERVED_LOW <= virt & 0xFFFF_FFFF_FFFF < RESERVED_HIGH
    else Pml4Index(virt) != Pml4Index(HEAP_BASE) && Pml4Index(virt) != Pml4Index(PHYSMAP_BASE)
  }

  lemma SlotWords()
    ensures WordValue(0x100) == HEAP_SLOT && WordValue(0x180) == PHYSMAP_SLOT && WordValue(0) == 0
  {
    assert Half(0x180) == 0xC0 && Half(0xC0) == 0x60 && Half(0x60) == 0x30 && Half(0x30) == 0x18 && Half(0x18) == 0xC
      && Half(0xC) == 6 && Half(6) == 3 && Half(3) == 1;
    assert Half(0x100) == 0x80 && Half(0x80) == 0x40 && Half(0x40) == 0x20 && Half(0x20) == 0x10 && Half(0x10) == 8
      && Half(8) == 4 && Half(4) == 2 && Half(2) == 1 && Half(1) == 0;
    hide Half;
    HalfValue(8);
    HalfValue(0x80);
    HalfValue(0xC);
    HalfValue(0xC0);
    assert WordValue(1) == 1;
    assert WordValue(3) == 3;
    assert WordValue(0xC) == 12;
    assert WordValue(8) == 8;
  }

  lemma SlotIndices()
    ensures Pml4Index(HEAP_BASE) == 0x100 && Pml4Index(PHYSMAP_BASE) == 0x180
  {
  }

  lemma WindowBits(virt: bv64)
    requires Pml4Index(virt) == 0
    ensures RESERVED_LOW <= virt & 0xFFFF_FFFF_FFFF < RESERVED_HIGH <==>
      PdptIndex(virt) == 0 && Eighth(PdIndex(virt)) == 0 && PdIndex(virt) != 0
  {
  }

  lemma ValueWindow(i: bv64)
    ensures 1 <= WordValue(i) < 8 <==> Eighth(i) == 0 && i != 0
  {
    SlotWords();
    ValueEighth(i);
    hide Half, Odd, Eighth, LowThree, WordValue;
    if 1 <= WordValue(i) < 8 { ValueZero(Eighth(i)); }
    if WordValue(i) == 0 { ValueZero(i); }
  }

  lemma ValueIs(i: bv64, j: bv64)
    ensures WordValue(i) == WordValue(j) <==> i == j
  {
    hide WordValue;
    if WordValue(i) == WordValue(j) { ValueInjective(i, j); }
  }

  /** A page is private exactly when its addresses are. */
  lemma PrivateAddresses(virt: bv64)
    ensures Private(PageOfWord(virt)) <==> PrivateAddress(virt)
  {
    IndicesBelow(virt);
    SlotWords();
    SlotIndices();
    hide WordValue, Pml4Index, PdptIndex, PdIndex, PtIndex, BelowTable, Eighth;
    ValueIs(Pml4Index(virt), 0);
    ValueIs(Pml4Index(virt), 0x100);
    ValueIs(Pml4Index(virt), 0x180);
    ValueIs(PdptIndex(virt), 0);
    ValueWindow(PdIndex(virt));
    if Pml4Index(virt) == 0 { WindowBits(virt); }
  }

  // ---- the heap ----

  lemma HeapBits(virt: bv64)
    requires HEAP_BASE <= virt <= HEAP_BASE + 0xFFFF_FFFF
    ensures var d := virt - HEAP_BASE;
      && PdptIndex(d) == PdptIndex(virt) && PdIndex(d) == PdIndex(virt) && PtIndex(d) == PtIndex(virt)
      && Half(Half(TableUp(TableUp(Eighth(TableUp(d)))))) == 0
  {
  }

  /** Heap addresses run through the pages of the heap in order. */
  lemma HeapAddress(virt: bv64)
    requires HEAP_BASE <= virt <= HEAP_BASE + 0xFFFF_FFFF
    ensures var k := WordValue(virt - HEAP_BASE) / PAGE_SIZE; k < HEAP_PAGES && PageOfWord(virt) == HeapPage(k)
  {
    HeapSlotIndex(virt);
    HeapBits(virt);
    SlotWords();
    hide WordValue, Half, Odd, Eighth, LowThree, TableUp, LowNine, Pml4Index, PdptIndex, PdIndex, PtIndex;
    var d := virt - HEAP_BASE;
    var p := Eighth(TableUp(d));
    PageNumber(d);
    ValueTable(p);
    ValueTable(TableUp(p));
    HalfValue(TableUp(TableUp(p)));
    HalfValue(Half(TableUp(TableUp(p))));
    PageOfAddress(d);
    IndicesBelow(virt);
    IndicesBelow(d);
    hide BelowTable;
    HeapNumber(WordValue(p), WordValue(TableUp(p)), WordValue(LowNine(p)), WordValue(TableUp(TableUp(p))), WordValue(LowNine(TableUp(p))));
  }

  lemma HeapNumber(k: nat, q: nat, r1: nat, q2: nat, r2: nat)
    requires k == 512 * q + r1 && r1 < 512 && q == 512 * q2 + r2 && r2 < 512 && q2 < 4
    ensures k < HEAP_PAGES && HeapPage(k) == Page(HEAP_SLOT, PageOf(k).i3, PageOf(k).i2, PageOf(k).i1)
  {
    ByTable(k, q, r1);
    ByTable(q, q2, r2);
    assert k / PER_DIRECTORY == q2;
  }

  // ---- the physmap ----

  lemma PhysmapBits(phys: bv64)
    requires phys < 0x80_0000_0000
    ensures var virt := PHYSMAP_BASE + phys;
      && PdptIndex(phys) == PdptIndex(virt) && PdIndex(phys) == PdIndex(virt) && PtIndex(phys) == PtIndex(virt)
  {
  }

  /** phys_to_virt: the physmap's page for a physical address has the indices of its frame number. */
  lemma PhysmapAddress(phys: bv64)
    requires phys < 0x80_0000_0000
    ensures var pg := PageOf(WordValue(phys) / PAGE_SIZE);
      PageOfWord(PHYSMAP_BASE + phys) == Page(PHYSMAP_SLOT, pg.i3, pg.i2, pg.i1)
  {
    PhysmapSlotIndex(phys);
    PhysmapBits(phys);
    SlotWords();
    PageOfAddress(phys);
    hide WordValue, Half, Odd, Pml4Index, PdptIndex, PdIndex, PtIndex;
  }

  // ---- the address that a walk gives ----

  function Offset(x: bv64): bv64 { x & 0xFFF }

  /** A word is the number of its page and the offset in it. */
  lemma ValuePage(x: bv64)
    ensures WordValue(x) == 4096 * WordValue(Eighth(TableUp(x))) + WordValue(Offset(x)) && WordValue(Offset(x)) < 4096
  {
    LowShift(x);
    SlotWords();
    hide WordValue, Half, Odd, Eighth, LowThree, TableUp, LowNine, Offset;
    ValueTable(x);
    ValueEighth(TableUp(x));
    ValueTable(Offset(x));
    ValueEighth(TableUp(Offset(x)));
  }

  lemma LowShift(x: bv64)
    ensures Eighth(TableUp(Offset(x))) == 0 && LowNine(Offset(x)) == LowNine(x) && LowThree(TableUp(Offset(x))) == LowThree(TableUp(x))
  {
  }

  /** What virt_to_phys adds up for a page of 4 KiB, of 2 MiB and of 1 GiB. */
  function SmallSum(entry: bv64, virt: bv64): bv64 { (entry & PHYS_MASK) + (virt & 0xFFF) }
  function LargeSum(entry: bv64, virt: bv64): bv64 { (entry & 0x000F_FFFF_FFE0_0000) + (virt & 0x1F_FFFF) }
  function HugeSum(entry: bv64, virt: bv64): bv64 { (entry & 0x000F_FFFF_C000_0000) + (virt & 0x3FFF_FFFF) }

  /** Words without a common bit are added by joining them. */
  lemma SmallJoins(a: bv64, b: bv64)
    requires a & 0xFFF == 0 && b <= 0xFFF
    ensures a + b == a | b
  {
  }

  lemma LargeJoins(a: bv64, b: bv64)
    requires a & 0x1F_FFFF == 0 && b <= 0x1F_FFFF
    ensures a + b == a | b
  {
  }

  lemma HugeJoins(a: bv64, b: bv64)
    requires a & 0x3FFF_FFFF == 0 && b <= 0x3FFF_FFFF
    ensures a + b == a | b
  {
  }

  lemma SmallBits(entry: bv64, virt: bv64)
    ensures Eighth(TableUp(SmallSum(entry, virt))) == FrameBits(entry) && Offset(SmallSum(entry, virt)) == Offset(virt)
  {
    SmallJoins(entry & PHYS_MASK, virt & 0xFFF);
    SmallFields(entry, virt);
  }

  lemma SmallFields(entry: bv64, virt: bv64)
    ensures var r := (entry & PHYS_MASK) | (virt & 0xFFF); (r >> 9) >> 3 == FrameBits(entry) && r & 0xFFF == virt & 0xFFF
  {
  }

  function LargeJoin(entry: bv64, virt: bv64): bv64 { (entry & 0x000F_FFFF_FFE0_0000) | (virt & 0x1F_FFFF) }
  function HugeJoin(entry: bv64, virt: bv64): bv64 { (entry & 0x000F_FFFF_C000_0000) | (virt & 0x3FFF_FFFF) }

  lemma LargeIsJoin(entry: bv64, virt: bv64)
    ensures LargeSum(entry, virt) == LargeJoin(entry, virt)
  {
    LargeJoins(entry & 0x000F_FFFF_FFE0_0000, virt & 0x1F_FFFF);
  }

  lemma HugeIsJoin(entry: bv64, virt: bv64)
    ensures HugeSum(entry, virt) == HugeJoin(entry, virt)
  {
    HugeJoins(entry & 0x000F_FFFF_C000_0000, virt & 0x3FFF_FFFF);
  }

  lemma LargeBits(entry: bv64, virt: bv64)
    ensures var p := Eighth(TableUp(LargeSum(entry, virt)));
      TableUp(p) == TableUp(FrameBits(entry)) && LowNine(p) == PtIndex(virt) && Offset(LargeSum(entry, virt)) == Offset(virt)
  {
    hide LargeSum, LargeJoin, Eighth, TableUp, LowNine, PtIndex, Offset, FrameBits;
    LargeIsJoin(entry, virt);
    LargeFields(entry, virt);
  }

  lemma LargeFields(entry: bv64, virt: bv64)
    ensures var p := Eighth(TableUp(LargeJoin(entry, virt)));
      TableUp(p) == TableUp(FrameBits(entry)) && LowNine(p) == PtIndex(virt) && Offset(LargeJoin(entry, virt)) == Offset(virt)
  {
    hide LargeJoin, Eighth, TableUp, LowNine, PtIndex, Offset, FrameBits;
    LargeTop(entry, virt);
    LargeLow(entry, virt);
    LargeOffset(entry, virt);
  }

  function Top21(x: bv64): bv64 { x >> 21 }
  function Top30(x: bv64): bv64 { x >> 30 }

  /** Moving down distributes over joining, and what is below bit 21 goes. */
  lemma TopOfBoth21(a: bv64, b: bv64)
    requires b <= 0x1F_FFFF
    ensures Top21(a | b) == Top21(a)
  {
  }

  lemma TopOfBoth30(a: bv64, b: bv64)
    requires b <= 0x3FFF_FFFF
    ensures Top30(a | b) == Top30(a)
  {
  }

  lemma Steps21(x: bv64)
    ensures TableUp(Eighth(TableUp(x))) == Top21(x)
  {
  }

  lemma Steps30(x: bv64)
    ensures TableUp(TableUp(Eighth(TableUp(x)))) == Top30(x)
  {
  }

  lemma EntryTop(entry: bv64)
    ensures Top21(entry & 0x000F_FFFF_FFE0_0000) == TableUp(FrameBits(entry))
    ensures Top30(entry & 0x000F_FFFF_C000_0000) == TableUp(TableUp(FrameBits(entry)))
  {
  }

  lemma LargeTop(entry: bv64, virt: bv64)
    ensures TableUp(Eighth(TableUp(LargeJoin(entry, virt)))) == TableUp(FrameBits(entry))
  {
    Steps21(LargeJoin(entry, virt));
    hide Eighth, TableUp, FrameBits, Top21;
    EntryTop(entry);
    TopOfBoth21(entry & 0x000F_FFFF_FFE0_0000, virt & 0x1F_FFFF);
  }

  lemma LargeLow(entry: bv64, virt: bv64)
    ensures LowNine(Eighth(TableUp(LargeJoin(entry, virt)))) == PtIndex(virt)
  {
  }

  lemma LargeOffset(entry: bv64, virt: bv64)
    ensures Offset(LargeJoin(entry, virt)) == Offset(virt)
  {
  }

  lemma HugeBits(entry: bv64, virt: bv64)
    ensures var p := Eighth(TableUp(HugeSum(entry, virt)));
      && TableUp(TableUp(p)) == TableUp(TableUp(FrameBits(entry))) && LowNine(TableUp(p)) == PdIndex(virt) && LowNine(p) == PtIndex(virt)
      && Offset(HugeSum(entry, virt)) == Offset(virt)
  {
    hide HugeSum, HugeJoin, Eighth, TableUp, LowNine, PtIndex, PdIndex, Offset, FrameBits;
    HugeIsJoin(entry, virt);
    HugeFields(entry, virt);
  }

  lemma HugeFields(entry: bv64, virt: bv64)
    ensures var p := Eighth(TableUp(HugeJoin(entry, virt)));
      && TableUp(TableUp(p)) == TableUp(TableUp(FrameBits(entry))) && LowNine(TableUp(p)) == PdIndex(virt) && LowNine(p) == PtIndex(virt)
      && Offset(HugeJoin(entry, virt)) == Offset(virt)
  {
    hide HugeJoin, Eighth, TableUp, LowNine, PtIndex, PdIndex, Offset, FrameBits;
    HugeTop(entry, virt);
    HugeMiddle(entry, virt);
    HugeLow(entry, virt);
    HugeOffset(entry, virt);
  }

  lemma HugeTop(entry: bv64, virt: bv64)
    ensures TableUp(TableUp(Eighth(TableUp(HugeJoin(entry, virt))))) == TableUp(TableUp(FrameBits(entry)))
  {
    Steps30(HugeJoin(entry, virt));
    hide Eighth, TableUp, FrameBits, Top30;
    EntryTop(entry);
    TopOfBoth30(entry & 0x000F_FFFF_C000_0000, virt & 0x3FFF_FFFF);
  }

  lemma HugeMiddle(entry: bv64, virt: bv64)
    ensures LowNine(TableUp(Eighth(TableUp(HugeJoin(entry, virt))))) == PdIndex(virt)
  {
  }

  lemma HugeLow(entry: bv64, virt: bv64)
    ensures LowNine(Eighth(TableUp(HugeJoin(entry, virt)))) == PtIndex(virt)
  {
  }

  lemma HugeOffset(entry: bv64, virt: bv64)
    ensures Offset(HugeJoin(entry, virt)) == Offset(virt)
  {
  }

  lemma PageIndices(virt: bv64)
    ensures PageOfWord(virt).i1 == WordValue(PtIndex(virt)) && PageOfWord(virt).i2 == WordValue(PdIndex(virt))
  {
    IndicesBelow(virt);
  }

  lemma FrameIs(entry: bv64)
    ensures Decode(entry).frame == WordValue(FrameBits(entry))
  {
    hide WordValue, FrameBits, Has, LowBits, HighBits;
  }

  lemma LargeFrame(e: Entry, q: nat, low: nat, i1: Index)
    requires e.frame == 512 * q + low && low < 512
    ensures Piece2M(e, i1).frame == 512 * q + i1
  {
  }

  lemma HugeFrame(e: Entry, q: nat, mid: nat, low: nat, i2: Index, i1: Index)
    requires e.frame == 512 * (512 * q + mid) + low && mid < 512 && low < 512
    ensures Piece1G(e, i2, i1).frame == 512 * (512 * q + i2) + i1
  {
    assert e.frame % 0x4_0000 == 512 * mid + low;
  }

  /** The sums are the addresses of the byte on the page that the walk finds: the frame of the entry, or
      the piece of a larger page that the indices select, and the offset. */
  lemma SmallAddress(entry: bv64, virt: bv64)
    ensures WordValue(SmallSum(entry, virt)) == Decode(entry).frame * PAGE_SIZE + WordValue(Offset(virt))
  {
    SmallBits(entry, virt);
    FrameIs(entry);
    hide WordValue, FrameBits, Decode, SmallSum, Eighth, TableUp, Offset;
    ValuePage(SmallSum(entry, virt));
  }

  lemma LargeAddress(entry: bv64, virt: bv64)
    ensures WordValue(LargeSum(entry, virt)) == Piece2M(Decode(entry), PageOfWord(virt).i1).frame * PAGE_SIZE + WordValue(Offset(virt))
  {
    LargeBits(entry, virt);
    FrameIs(entry);
    PageIndices(virt);
    hide WordValue, FrameBits, Decode, LargeSum, Eighth, TableUp, LowNine, Offset, PageOfWord, Piece2M, PtIndex, PdIndex;
    ValuePage(LargeSum(entry, virt));
    ValueTable(Eighth(TableUp(LargeSum(entry, virt))));
    var f := FrameBits(entry);
    ValueTable(f);
    LargeFrame(Decode(entry), WordValue(TableUp(f)), WordValue(LowNine(f)), PageOfWord(virt).i1);
  }

  lemma HugeAddress(entry: bv64, virt: bv64)
    ensures var pg := PageOfWord(virt);
      WordValue(HugeSum(entry, virt)) == Piece1G(Decode(entry), pg.i2, pg.i1).frame * PAGE_SIZE + WordValue(Offset(virt))
  {
    HugeBits(entry, virt);
    FrameIs(entry);
    PageIndices(virt);
    hide WordValue, FrameBits, Decode, HugeSum, Eighth, TableUp, LowNine, Offset, PageOfWord, Piece1G, PtIndex, PdIndex;
    var p, f := Eighth(TableUp(HugeSum(entry, virt))), FrameBits(entry);
    ValuePage(HugeSum(entry, virt));
    ValueTable(p);
    ValueTable(TableUp(p));
    ValueTable(f);
    ValueTable(TableUp(f));
    HugeFrame(Decode(entry), WordValue(TableUp(TableUp(f))), WordValue(LowNine(TableUp(f))), WordValue(LowNine(f)), PageOfWord(virt).i2, PageOfWord(virt).i1);
  }
}
