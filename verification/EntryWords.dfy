/** The 64-bit words behind the decoded entries of PageTables: masks, indices and flag merging on
    machine words do what the field-wise operations there assume. */
module EntryWords {
  import opened PageTables
  import opened PageTableSteps
  import opened SpaceSteps
  import opened CloneSteps

  const PHYS_MASK: bv64 := 0x000F_FFFF_FFFF_F000
  const PRESENT: bv64 := 1
  const WRITABLE: bv64 := 2
  const USER: bv64 := 4
  const HUGE_PAGE: bv64 := 0x80
  const NO_EXECUTE: bv64 := 0x8000_0000_0000_0000
  const HEAP_BASE: bv64 := 0xFFFF_8000_0000_0000
  const PHYSMAP_BASE: bv64 := 0xFFFF_C000_0000_0000

  function PhysOf(entry: bv64): bv64 { entry & PHYS_MASK }
  function FlagsOf(entry: bv64): bv64 { entry & !PHYS_MASK }

  function Pml4Index(virt: bv64): bv64 { (virt >> 39) & 0x1FF }
  function PdptIndex(virt: bv64): bv64 { (virt >> 30) & 0x1FF }
  function PdIndex(virt: bv64): bv64 { (virt >> 21) & 0x1FF }
  function PtIndex(virt: bv64): bv64 { (virt >> 12) & 0x1FF }

  /** A word is its address part and its flag part, and nothing else. */
  lemma WordIsParts(entry: bv64)
    ensures PhysOf(entry) | FlagsOf(entry) == entry && PhysOf(entry) & FlagsOf(entry) == 0
  {
  }

  /** Storing phys | flags keeps both readable. */
  lemma StoredWord(phys: bv64, flags: bv64)
    requires phys & PHYS_MASK == phys && flags & PHYS_MASK == 0
    ensures PhysOf(phys | flags) == phys && FlagsOf(phys | flags) == flags
  {
  }

  /** Widening sets the asked bits among user and writable and disturbs no other bit. */
  lemma WidenedWord(entry: bv64, flags: bv64)
    ensures var e' := entry | (flags & (USER | WRITABLE));
      && PhysOf(e') == PhysOf(entry)
      && e' & !(USER | WRITABLE) == entry & !(USER | WRITABLE)
      && e' & USER == (entry | flags) & USER && e' & WRITABLE == (entry | flags) & WRITABLE
  {
  }

  /** What split_huge_page stores for piece i. */
  function PieceWord(entry: bv64, i: bv64): bv64 {
    ((entry & 0x000F_FFFF_FFE0_0000) + i * 0x1000) | ((entry & 0xFFF) & !(HUGE_PAGE | 0x1000))
  }

  /** Piece i maps the i-th 4 KiB of the large page, keeps the low flags but the size bit, and
      loses bits 63:52. */
  lemma PieceFields(entry: bv64, i: bv64)
    requires i < 512
    ensures PhysOf(PieceWord(entry, i)) == (entry & 0x000F_FFFF_FFE0_0000) | (i << 12)
    ensures PieceWord(entry, i) & 0xFFF == entry & 0xFFF & !HUGE_PAGE
    ensures PieceWord(entry, i) >> 52 == 0
  {
    Shifted(i);
    var base := entry & 0x000F_FFFF_FFE0_0000;
    Disjoint(base, i << 12);
    assert i * 0x1000 == i << 12;
  }

  lemma Shifted(i: bv64)
    requires i < 512
    ensures i * 0x1000 == i << 12 && (i << 12) & !0x1F_F000 == 0
  {
  }

  lemma Disjoint(base: bv64, low: bv64)
    requires base & !0x000F_FFFF_FFE0_0000 == 0 && low & !0x1F_F000 == 0
    ensures base + low == base | low
  {
  }

  /** The address clone_pt rebuilds from four indices has exactly those indices and offset 0. */
  lemma RebuiltAddress(i4: bv64, i3: bv64, i2: bv64, i1: bv64)
    requires i4 < 512 && i3 < 512 && i2 < 512 && i1 < 512
    ensures var virt := (i4 << 39) | (i3 << 30) | (i2 << 21) | (i1 << 12);
      && Pml4Index(virt) == i4 && PdptIndex(virt) == i3 && PdIndex(virt) == i2 && PtIndex(virt) == i1
      && virt & 0xFFF == 0
  {
  }

  /** Two canonical addresses with the same indices and offset are the same address. */
  lemma IndicesDetermine(a: bv64, b: bv64)
    requires Pml4Index(a) == Pml4Index(b) && PdptIndex(a) == PdptIndex(b) && PdIndex(a) == PdIndex(b) && PtIndex(a) == PtIndex(b)
    requires a & 0xFFF == b & 0xFFF && a >> 48 == b >> 48
    ensures a == b
  {
  }

  /** Everything in the heap's 4 GiB has PML4 index 256. */
  lemma HeapSlotIndex(virt: bv64)
    requires HEAP_BASE <= virt <= HEAP_BASE + 0xFFFF_FFFF
    ensures Pml4Index(virt) == 256
  {
  }

  lemma PhysmapSlotIndex(phys: bv64)
    requires phys < 0x80_0000_0000
    ensures Pml4Index(PHYSMAP_BASE + phys) == 384
  {
  }

  /** The window test on addresses is the test on directory indices 1 to 7. */
  lemma WindowIndices(pdIdx: bv64)
    requires pdIdx < 512
    ensures !(pdIdx << 21 < 0x20_0000 || pdIdx << 21 >= 0x100_0000) <==> 1 <= pdIdx < 8
  {
  }

  // ---- the numbers that words stand for ----

  function Half(w: bv64): bv64 { w >> 1 }
  predicate Odd(w: bv64) { w & 1 == 1 }

  function WordValue(w: bv64): nat {
    if w == 0 then 0 else 2 * WordValue(Half(w)) + (if Odd(w) then 1 else 0)
  }

  lemma HalfValue(a: bv64)
    ensures WordValue(a) == 2 * WordValue(Half(a)) + (if Odd(a) then 1 else 0)
  {
  }

  lemma {:induction false} ValueZero(a: bv64)
    requires WordValue(a) == 0
    ensures a == 0
    decreases a
  {
    if a != 0 {
      HalfOrOdd(a);
      if Half(a) != 0 { ValueZero(Half(a)); }
    }
  }

  lemma HalfOrOdd(a: bv64)
    requires a != 0
    ensures a >> 1 != 0 || a & 1 == 1
  {
  }

  lemma Halves(a: bv64, b: bv64)
    requires Half(a) == Half(b) && Odd(a) == Odd(b)
    ensures a == b
  {
  }

  /** No two words stand for the same number. */
  lemma {:induction false} ValueInjective(a: bv64, b: bv64)
    requires WordValue(a) == WordValue(b)
    ensures a == b
    decreases WordValue(a)
  {
    hide Half, Odd;
    if WordValue(a) == 0 {
      ValueZero(a);
      ValueZero(b);
    } else {
      HalfValue(a);
      HalfValue(b);
      ValueInjective(Half(a), Half(b));
      Halves(a, b);
    }
  }

  /** c has the bits of a and those of b, which have none in common. */
  predicate Joined(a: bv64, b: bv64, c: bv64) { a & b == 0 && c == a | b }

  lemma HalfApart(a: bv64, b: bv64)
    requires a & b == 0
    ensures Half(a) & Half(b) == 0
  {
  }

  lemma HalfJoin(a: bv64, b: bv64)
    ensures Half(a | b) == Half(a) | Half(b)
  {
  }

  lemma OddBoth(a: bv64, b: bv64)
    requires a & b == 0
    ensures (a | b) & 1 == 1 <==> a & 1 == 1 || b & 1 == 1
    ensures !(a & 1 == 1 && b & 1 == 1)
  {
  }

  lemma ZeroBoth(a: bv64, b: bv64)
    requires a | b == 0
    ensures a == 0 && b == 0
  {
  }

  lemma JoinedHalves(a: bv64, b: bv64, c: bv64)
    requires Joined(a, b, c)
    ensures Joined(Half(a), Half(b), Half(c))
  {
    hide Half;
    HalfJoin(a, b);
    HalfApart(a, b);
  }

  lemma JoinedOdd(a: bv64, b: bv64, c: bv64)
    requires Joined(a, b, c)
    ensures (Odd(c) <==> Odd(a) || Odd(b)) && !(Odd(a) && Odd(b))
  {
    OddBoth(a, b);
  }

  lemma JoinedZero(a: bv64, b: bv64)
    requires Joined(a, b, 0)
    ensures a == 0 && b == 0
  {
    ZeroBoth(a, b);
  }

  lemma {:induction false} ValueJoined(a: bv64, b: bv64, c: bv64)
    requires Joined(a, b, c)
    ensures WordValue(c) == WordValue(a) + WordValue(b)
    decreases WordValue(c)
  {
    hide Half, Odd, Joined;
    if WordValue(c) == 0 {
      ValueZero(c);
      JoinedZero(a, b);
    } else {
      JoinedHalves(a, b, c);
      JoinedOdd(a, b, c);
      HalfValue(a);
      HalfValue(b);
      HalfValue(c);
      ValueJoined(Half(a), Half(b), Half(c));
    }
  }

  /** No bit of the mask is set. */
  predicate Clear(a: bv64, mask: bv64) { a & mask == 0 }

  /** Mask `half` is the odd mask `mask` moved down by one place. */
  predicate Steps(mask: bv64, half: bv64) { mask & 1 == 1 && half == mask >> 1 }

  lemma EvenBits(a: bv64, mask: bv64)
    requires a & mask == 0 && mask & 1 == 1
    ensures !(a & 1 == 1) && (a >> 1) & (mask >> 1) == 0
  {
  }

  lemma EvenStep(a: bv64, mask: bv64, half: bv64)
    requires Clear(a, mask) && Steps(mask, half)
    ensures !Odd(a) && Clear(Half(a), half)
  {
    EvenBits(a, mask);
  }

  lemma HalfEven(a: bv64, mask: bv64, half: bv64)
    requires Clear(a, mask) && Steps(mask, half)
    ensures WordValue(a) == 2 * WordValue(Half(a)) && Clear(Half(a), half)
  {
    EvenStep(a, mask, half);
    hide Clear, Half, Odd, Steps;
    HalfValue(a);
  }

  lemma Masks()
    ensures Steps(0x1FF, 0xFF) && Steps(0xFF, 0x7F) && Steps(0x7F, 0x3F) && Steps(0x3F, 0x1F) && Steps(0x1F, 0xF)
    ensures Steps(0xF, 7) && Steps(7, 3) && Steps(3, 1) && Steps(1, 0)
  {
  }

  lemma HalfEvens(a: bv64, m: bv64, m1: bv64, m2: bv64, m3: bv64)
    requires Clear(a, m) && Steps(m, m1) && Steps(m1, m2) && Steps(m2, m3)
    ensures WordValue(a) == 8 * WordValue(Half(Half(Half(a)))) && Clear(Half(Half(Half(a))), m3)
  {
    hide Clear, Half, Odd, WordValue, Steps;
    HalfEven(a, m, m1);
    HalfEven(Half(a), m1, m2);
    HalfEven(Half(Half(a)), m2, m3);
  }

  /** Without the lowest nine bits it is a multiple of 512. */
  lemma TimesTable(a: bv64) returns (q: nat)
    requires Clear(a, 0x1FF)
    ensures WordValue(a) == 512 * q
  {
    hide Clear, Half, Odd, WordValue, Steps;
    Masks();
    var b := Half(Half(Half(a)));
    var c := Half(Half(Half(b)));
    HalfEvens(a, 0x1FF, 0xFF, 0x7F, 0x3F);
    HalfEvens(b, 0x3F, 0x1F, 0xF, 7);
    HalfEvens(c, 7, 3, 1, 0);
    q := WordValue(Half(Half(Half(c))));
  }

  predicate BelowTable(a: bv64) { a < 512 }

  lemma NineHalves(a: bv64)
    requires BelowTable(a)
    ensures Half(Half(Half(Half(Half(Half(Half(Half(Half(a))))))))) == 0
  {
  }

  lemma SmallValue(a: bv64)
    requires BelowTable(a)
    ensures WordValue(a) < 512
  {
    hide Half, Odd, BelowTable;
    NineHalves(a);
    var a1 := Half(a);
    var a2 := Half(a1);
    var a3 := Half(a2);
    var a4 := Half(a3);
    var a5 := Half(a4);
    var a6 := Half(a5);
    var a7 := Half(a6);
    var a8 := Half(a7);
    HalfValue(a);
    HalfValue(a1);
    HalfValue(a2);
    HalfValue(a3);
    HalfValue(a4);
    HalfValue(a5);
    HalfValue(a6);
    HalfValue(a7);
    HalfValue(a8);
  }

  // ---- decoded entries ----

  predicate Has(w: bv64, bit: bv64) { w & bit != 0 }
  function FrameBits(w: bv64): bv64 { PhysOf(w) >> 12 }
  function LowBits(w: bv64): bv64 { w & 0xF78 }
  function HighBits(w: bv64): bv64 { (w >> 52) & 0x7FF }

  /** The flags that a word holds, and the entry. */
  function DecodeFlags(w: bv64): Flags {
    Flags(Has(w, PRESENT), Has(w, WRITABLE), Has(w, USER), Has(w, HUGE_PAGE), Has(w, NO_EXECUTE), WordValue(LowBits(w)), WordValue(HighBits(w)))
  }

  function Decode(w: bv64): Entry {
    Entry(WordValue(FrameBits(w)), DecodeFlags(w))
  }

  /** The bits as the processor reads them: present 0, writable 1, user 2, page size 7, no execute 63, and
      the frame in 51:12. */
  lemma DecodeBits(w: bv64)
    ensures var e := Decode(w);
      && e.fl.present == (w & 1 == 1) && e.fl.writable == ((w >> 1) & 1 == 1) && e.fl.user == ((w >> 2) & 1 == 1)
      && e.fl.huge == ((w >> 7) & 1 == 1) && e.fl.nx == (w >> 63 == 1) && e.frame == WordValue((w >> 12) & 0xFF_FFFF_FFFF)
  {
    EntryBits(w);
    FrameField(w);
    hide WordValue, Has, LowBits, HighBits, FrameBits;
  }

  lemma EntryBits(w: bv64)
    ensures Has(w, PRESENT) == (w & 1 == 1) && Has(w, WRITABLE) == ((w >> 1) & 1 == 1) && Has(w, USER) == ((w >> 2) & 1 == 1)
    ensures Has(w, HUGE_PAGE) == ((w >> 7) & 1 == 1) && Has(w, NO_EXECUTE) == (w >> 63 == 1)
  {
  }

  lemma FrameField(w: bv64)
    ensures FrameBits(w) == (w >> 12) & 0xFF_FFFF_FFFF
  {
  }

  predicate SameBits(a: bv64, b: bv64) {
    && Has(a, PRESENT) == Has(b, PRESENT) && Has(a, WRITABLE) == Has(b, WRITABLE) && Has(a, USER) == Has(b, USER)
    && Has(a, HUGE_PAGE) == Has(b, HUGE_PAGE) && Has(a, NO_EXECUTE) == Has(b, NO_EXECUTE)
    && LowBits(a) == LowBits(b) && HighBits(a) == HighBits(b)
  }

  lemma SameFlags(a: bv64, b: bv64)
    requires SameBits(a, b)
    ensures FlagsOf(a) == FlagsOf(b)
  {
  }

  lemma SameWord(a: bv64, b: bv64)
    requires PhysOf(a) == PhysOf(b) && FlagsOf(a) == FlagsOf(b)
    ensures a == b
  {
    WordIsParts(a);
    WordIsParts(b);
  }

  lemma SamePhys(a: bv64, b: bv64)
    requires FrameBits(a) == FrameBits(b)
    ensures PhysOf(a) == PhysOf(b)
  {
  }

  /** No bit of a word is lost in the entry. */
  lemma DecodeInjective(a: bv64, b: bv64)
    requires Decode(a) == Decode(b)
    ensures a == b
  {
    hide WordValue, Has, FrameBits, LowBits, HighBits, PhysOf, FlagsOf;
    ValueInjective(FrameBits(a), FrameBits(b));
    ValueInjective(LowBits(a), LowBits(b));
    ValueInjective(HighBits(a), HighBits(b));
    SamePhys(a, b);
    SameFlags(a, b);
    SameWord(a, b);
  }

  // ---- the stores ----

  /** A word made of an address and of flags. */
  predicate Stored(phys: bv64, flags: bv64, w: bv64) {
    phys & PHYS_MASK == phys && flags & PHYS_MASK == 0 && w == phys | flags
  }

  lemma StoredFlag(phys: bv64, flags: bv64, bit: bv64)
    requires phys & PHYS_MASK == phys && bit & PHYS_MASK == 0
    ensures (phys | flags) & bit == flags & bit
  {
  }

  lemma StoredHas(phys: bv64, flags: bv64, w: bv64, bit: bv64)
    requires Stored(phys, flags, w) && bit & PHYS_MASK == 0
    ensures Has(w, bit) == Has(flags, bit)
  {
    StoredFlag(phys, flags, bit);
  }

  lemma StoredFrame(phys: bv64, flags: bv64, w: bv64)
    requires Stored(phys, flags, w)
    ensures FrameBits(w) == FrameBits(phys)
  {
    hide FrameBits;
    StoredPhys(phys, flags);
    SameFrameBits(w, phys);
  }

  lemma SameFrameBits(a: bv64, b: bv64)
    requires PhysOf(a) == PhysOf(b)
    ensures FrameBits(a) == FrameBits(b)
  {
    hide PhysOf;
  }

  lemma StoredPhys(phys: bv64, flags: bv64)
    requires flags & PHYS_MASK == 0
    ensures (phys | flags) & PHYS_MASK == phys & PHYS_MASK
  {
  }

  lemma StoredLow(phys: bv64, flags: bv64, w: bv64)
    requires Stored(phys, flags, w)
    ensures LowBits(w) == LowBits(flags)
  {
    StoredFlag(phys, flags, 0xF78);
  }

  lemma StoredTop(phys: bv64, flags: bv64)
    requires phys & PHYS_MASK == phys
    ensures ((phys | flags) >> 52) & 0x7FF == (flags >> 52) & 0x7FF
  {
  }

  lemma StoredHigh(phys: bv64, flags: bv64, w: bv64)
    requires Stored(phys, flags, w)
    ensures HighBits(w) == HighBits(flags)
  {
    StoredTop(phys, flags);
  }

  /** map_into's store: the frame of the address, the flags of the flag word. */
  lemma DecodeStored(phys: bv64, flags: bv64, w: bv64)
    requires Stored(phys, flags, w)
    ensures Decode(w) == Entry(Decode(phys).frame, DecodeFlags(flags))
  {
    hide WordValue, Has, FrameBits, LowBits, HighBits, Stored;
    StoredFrame(phys, flags, w);
    StoredLow(phys, flags, w);
    StoredHigh(phys, flags, w);
    StoredHas(phys, flags, w, PRESENT);
    StoredHas(phys, flags, w, WRITABLE);
    StoredHas(phys, flags, w, USER);
    StoredHas(phys, flags, w, HUGE_PAGE);
    StoredHas(phys, flags, w, NO_EXECUTE);
  }

  /** An entry with the asked bits among user and writable set. */
  predicate Merged(entry: bv64, flags: bv64, w: bv64) { w == entry | (flags & (USER | WRITABLE)) }

  lemma MergedFlag(entry: bv64, flags: bv64, bits: bv64)
    requires bits & (USER | WRITABLE) == 0
    ensures (entry | (flags & (USER | WRITABLE))) & bits == entry & bits
  {
  }

  lemma MergedHas(entry: bv64, flags: bv64, w: bv64, bit: bv64)
    requires Merged(entry, flags, w) && bit & (USER | WRITABLE) == 0
    ensures Has(w, bit) == Has(entry, bit)
  {
    MergedFlag(entry, flags, bit);
  }

  lemma MergedFrame(entry: bv64, flags: bv64, w: bv64)
    requires Merged(entry, flags, w)
    ensures FrameBits(w) == FrameBits(entry)
  {
    hide FrameBits;
    MergedFlag(entry, flags, PHYS_MASK);
    SameFrameBits(w, entry);
  }

  lemma MergedLow(entry: bv64, flags: bv64, w: bv64)
    requires Merged(entry, flags, w)
    ensures LowBits(w) == LowBits(entry)
  {
    MergedFlag(entry, flags, 0xF78);
  }

  lemma MergedTop(entry: bv64, flags: bv64)
    ensures ((entry | (flags & (USER | WRITABLE))) >> 52) & 0x7FF == (entry >> 52) & 0x7FF
  {
  }

  lemma MergedHigh(entry: bv64, flags: bv64, w: bv64)
    requires Merged(entry, flags, w)
    ensures HighBits(w) == HighBits(entry)
  {
    MergedTop(entry, flags);
  }

  lemma MergedAsked(entry: bv64, flags: bv64, w: bv64)
    requires Merged(entry, flags, w)
    ensures Has(w, WRITABLE) == (Has(entry, WRITABLE) || Has(flags, WRITABLE))
    ensures Has(w, USER) == (Has(entry, USER) || Has(flags, USER))
  {
  }

  /** ensure_table's store into a present entry. */
  lemma DecodeWidened(entry: bv64, flags: bv64, w: bv64)
    requires Merged(entry, flags, w)
    ensures Decode(w) == Widened(Decode(entry), Has(flags, WRITABLE), Has(flags, USER))
  {
    hide WordValue, Has, FrameBits, LowBits, HighBits, Merged;
    MergedFrame(entry, flags, w);
    MergedLow(entry, flags, w);
    MergedHigh(entry, flags, w);
    MergedHas(entry, flags, w, PRESENT);
    MergedHas(entry, flags, w, HUGE_PAGE);
    MergedHas(entry, flags, w, NO_EXECUTE);
    MergedAsked(entry, flags, w);
  }

  function ClonedOf(entry: bv64): bv64 { entry & (PRESENT | WRITABLE | USER | NO_EXECUTE) }

  lemma ClonedBits(entry: bv64)
    ensures var fl := ClonedOf(entry);
      && fl & PHYS_MASK == 0 && LowBits(fl) == 0 && HighBits(fl) == 0 && !Has(fl, HUGE_PAGE)
      && Has(fl, PRESENT) == Has(entry, PRESENT) && Has(fl, WRITABLE) == Has(entry, WRITABLE)
      && Has(fl, USER) == Has(entry, USER) && Has(fl, NO_EXECUTE) == Has(entry, NO_EXECUTE)
  {
  }

  lemma ClonedStored(phys: bv64, entry: bv64, w: bv64)
    requires phys & PHYS_MASK == phys && w == phys | ClonedOf(entry)
    ensures Stored(phys, ClonedOf(entry), w)
  {
    ClonedBits(entry);
  }

  lemma ZeroValue()
    ensures WordValue(0) == 0
  {
  }

  /** clone_leaf's store: the fresh frame, and of the flags only the four that CloneFlags keeps. */
  lemma DecodeCloned(phys: bv64, entry: bv64, w: bv64)
    requires phys & PHYS_MASK == phys && w == phys | ClonedOf(entry)
    ensures Decode(w) == Entry(Decode(phys).frame, CloneFlags(Decode(entry).fl))
  {
    hide WordValue, Has, FrameBits, LowBits, HighBits, ClonedOf, Stored;
    ClonedStored(phys, entry, w);
    ClonedBits(entry);
    ZeroValue();
    DecodeStored(phys, ClonedOf(entry), w);
  }

  lemma PieceBits(entry: bv64, i: bv64)
    requires BelowTable(i)
    ensures var w := PieceWord(entry, i);
      && Has(w, PRESENT) == Has(entry, PRESENT) && Has(w, WRITABLE) == Has(entry, WRITABLE) && Has(w, USER) == Has(entry, USER)
      && !Has(w, HUGE_PAGE) && !Has(w, NO_EXECUTE) && LowBits(w) == LowBits(entry) && HighBits(w) == 0
  {
    PieceFields(entry, i);
    hide PieceWord;
    FieldBits(entry, PieceWord(entry, i));
  }

  lemma FieldBits(entry: bv64, w: bv64)
    requires w & 0xFFF == entry & 0xFFF & !HUGE_PAGE && w >> 52 == 0
    ensures Has(w, PRESENT) == Has(entry, PRESENT) && Has(w, WRITABLE) == Has(entry, WRITABLE) && Has(w, USER) == Has(entry, USER)
    ensures !Has(w, HUGE_PAGE) && !Has(w, NO_EXECUTE) && LowBits(w) == LowBits(entry) && HighBits(w) == 0
  {
  }

  /** The frame number's bits from 9 up, and the nine below. */
  function UpBits(entry: bv64): bv64 { (entry & 0x000F_FFFF_FFE0_0000) >> 12 }
  function TableBits(entry: bv64): bv64 { (entry >> 12) & 0x1FF }

  lemma FrameJoined(entry: bv64)
    ensures Joined(UpBits(entry), TableBits(entry), FrameBits(entry))
  {
    FrameRaw(entry);
  }

  lemma FrameRaw(entry: bv64)
    ensures ((entry & 0x000F_FFFF_FFE0_0000) >> 12) & ((entry >> 12) & 0x1FF) == 0
    ensures (entry & 0x000F_FFFF_FFFF_F000) >> 12 == ((entry & 0x000F_FFFF_FFE0_0000) >> 12) | ((entry >> 12) & 0x1FF)
  {
  }

  lemma UpClear(entry: bv64)
    ensures Clear(UpBits(entry), 0x1FF)
  {
  }

  lemma TableBelow(entry: bv64)
    ensures BelowTable(TableBits(entry))
  {
  }

  lemma PieceJoined(entry: bv64, i: bv64)
    requires BelowTable(i)
    ensures Joined(UpBits(entry), i, FrameBits(PieceWord(entry, i)))
  {
    PieceFields(entry, i);
    PieceRaw(entry, i);
    hide PieceWord;
  }

  lemma PieceRaw(entry: bv64, i: bv64)
    requires i < 512
    ensures ((entry & 0x000F_FFFF_FFE0_0000) >> 12) & i == 0
    ensures ((entry & 0x000F_FFFF_FFE0_0000) | (i << 12)) >> 12 == ((entry & 0x000F_FFFF_FFE0_0000) >> 12) | i
  {
  }

  lemma PieceFrame(entry: bv64, i: bv64)
    requires BelowTable(i)
    ensures WordValue(i) < 512
    ensures var f := WordValue(FrameBits(entry)); WordValue(FrameBits(PieceWord(entry, i))) == f - f % 512 + WordValue(i)
  {
    hide WordValue, FrameBits, UpBits, TableBits, PieceWord, Joined, BelowTable, Clear;
    PieceJoined(entry, i);
    FrameJoined(entry);
    UpClear(entry);
    TableBelow(entry);
    ValueJoined(UpBits(entry), TableBits(entry), FrameBits(entry));
    ValueJoined(UpBits(entry), i, FrameBits(PieceWord(entry, i)));
    var q := TimesTable(UpBits(entry));
    SmallValue(TableBits(entry));
    SmallValue(i);
    WholeTables(q, WordValue(TableBits(entry)), WordValue(FrameBits(entry)));
  }

  lemma WholeTables(q: nat, low: nat, f: nat)
    requires f == 512 * q + low && low < 512
    ensures f - f % 512 == 512 * q
  {
  }

  /** split_huge_page's store: piece i of the large entry, with the flags that Carried keeps. */
  lemma DecodePiece(entry: bv64, i: bv64)
    requires BelowTable(i)
    ensures WordValue(i) < 512
    ensures Decode(PieceWord(entry, i)) == Entry(Piece2M(Decode(entry), WordValue(i)).frame, Carried(Decode(entry).fl))
  {
    hide WordValue, Has, FrameBits, LowBits, HighBits, PieceWord, BelowTable;
    PieceBits(entry, i);
    PieceFrame(entry, i);
    ZeroValue();
  }
}
