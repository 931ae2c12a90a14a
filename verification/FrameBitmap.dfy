/** The physical frame allocator: one bit per 4 KiB frame, first fit, two counters.
    Frames are named by their number; the address of frame f is f * PAGE_SIZE. */
module FrameBitmap {
  import opened Machine

  const MAX_FRAMES: nat := 0x10_0000
  const BITMAP_SIZE: nat := MAX_FRAMES / 8

  /** A range of physical addresses [base, base + length). */
  datatype Range = Range(base: nat, length: nat)

  /** A memory map entry: a range and whether the firmware reports it as available. */
  datatype Region = Region(range: Range, available: bool)

  // ---- meaning of a frame against a range ----

  /** Every byte of frame f is in the range. */
  predicate Inside(f: nat, r: Range) {
    r.base <= f * PAGE_SIZE && (f + 1) * PAGE_SIZE <= r.base + r.length
  }

  /** The range, widened to page boundaries, reaches into frame f. */
  predicate Meets(f: nat, r: Range) {
    f * PAGE_SIZE < r.base + r.length && r.base < (f + 1) * PAGE_SIZE
  }

  const FIRST_MIB: Range := Range(0, 0x10_0000)

  // ---- what the two range helpers do, in machine words ----

  /** Base and length are 64-bit words; their sum need not be one. */
  predicate Words(r: Range) { r.base < TWO64 && r.length < TWO64 }


  /** Rounding an address against the start of frame f. */
  lemma Rounding(x: nat, f: nat)
    ensures PageUp(x) <= f * PAGE_SIZE <==> x <= f * PAGE_SIZE
    ensures f * PAGE_SIZE < PageDown(x) <==> (f + 1) * PAGE_SIZE <= x
    ensures f * PAGE_SIZE < PageUp(x) <==> f * PAGE_SIZE < x
    ensures PageDown(x) <= f * PAGE_SIZE <==> x < (f + 1) * PAGE_SIZE
  {
    DownRounding(x, f);
    DownRounding(x + PAGE_SIZE - 1, f);
  }

  lemma DownRounding(x: nat, f: nat)
    ensures f * PAGE_SIZE < PageDown(x) <==> (f + 1) * PAGE_SIZE <= x
    ensures PageDown(x) <= f * PAGE_SIZE <==> x < (f + 1) * PAGE_SIZE
    ensures PageDown(x) % PAGE_SIZE == 0
  {
    var q := x / PAGE_SIZE;
    assert x == q * PAGE_SIZE + x % PAGE_SIZE;
    assert PageDown(x) == q * PAGE_SIZE;
  }

  /** mark_range_free clears the bit of frame f: from the base rounded up to the end rounded down. */
  predicate Frees(f: nat, r: Range) {
    PageDown((r.base + PAGE_SIZE - 1) % TWO64) <= f * PAGE_SIZE < PageDown((r.base + r.length) % TWO64)
  }

  /** mark_range_used sets the bit of frame f: from the base rounded down to the end rounded up. */
  predicate Takes(f: nat, r: Range) {
    PageDown(r.base) <= f * PAGE_SIZE < PageDown((r.base + r.length + PAGE_SIZE - 1) % TWO64)
  }

  /** The end of the range is a word; or it is not, but no frame is reached by the range either way;
      or already the base cannot be rounded up, and the end wraps to less than a frame. */
  predicate FreeFits(r: Range) {
    if r.base + PAGE_SIZE <= TWO64 then r.base + r.length < TWO64 || r.base > (MAX_FRAMES - 1) * PAGE_SIZE
    else (r.base + r.length) % TWO64 < PAGE_SIZE
  }

  /** The end of the range can be rounded up, or the frames of the bitmap all lie to one side of it. */
  predicate TakeFits(r: Range) {
    || r.base + r.length + PAGE_SIZE <= TWO64
    || r.base >= MAX_FRAMES * PAGE_SIZE
    || (r.base + r.length + PAGE_SIZE - 1) % TWO64 >= MAX_FRAMES * PAGE_SIZE
  }

  /** mark_range_free frees exactly the frames that lie inside the range, if and only if the range
      fits. A range whose base is in the last page of the address space frees frames from 0 on. */
  lemma FreesExact(r: Range)
    requires Words(r)
    ensures FreeFits(r) <==> forall f: nat {:trigger Inside(f, r)} | f < MAX_FRAMES :: Frees(f, r) <==> Inside(f, r)
  {
    forall f: nat | f < MAX_FRAMES ensures FreeFits(r) ==> (Frees(f, r) <==> Inside(f, r)) {
      FreesFrame(r, f);
    }
    if !FreeFits(r) {
      var f: nat := if r.base + PAGE_SIZE <= TWO64 then MAX_FRAMES - 1 else 0;
      FreesFrame(r, f);
      assert Inside(f, r) <==> Inside(f, r);
    }
  }

  /** The edge of a frame against a wrapped end. */
  lemma FreesFrame(r: Range, f: nat)
    requires Words(r) && f < MAX_FRAMES
    ensures FreeFits(r) ==> (Frees(f, r) <==> Inside(f, r))
    ensures !FreeFits(r) && f == (if r.base + PAGE_SIZE <= TWO64 then MAX_FRAMES - 1 else 0) ==> (Frees(f, r) <==> !Inside(f, r))
  {
    var end := (r.base + r.length) % TWO64;
    DownRounding(end, f);
    if r.base + PAGE_SIZE <= TWO64 {
      Rounding(r.base, f);
    } else {
      DownRounding(r.base + PAGE_SIZE - 1 - TWO64, f);
      DownRounding(r.base + PAGE_SIZE - 1 - TWO64, 0);
    }
  }

  /** An empty range at the very top, for instance, frees every frame. */
  lemma TopRangeFreesAll(f: nat)
    requires f < MAX_FRAMES
    ensures Frees(f, Range(TWO64 - 1, 0)) && !Inside(f, Range(TWO64 - 1, 0)) && !FreeFits(Range(TWO64 - 1, 0))
  {
    DownRounding(TWO64 - 1, f);
  }

  /** mark_range_used reserves exactly the frames that the range meets, if and only if the range fits. */
  lemma TakesExact(r: Range)
    requires Words(r)
    ensures TakeFits(r) <==> forall f: nat {:trigger Meets(f, r)} | f < MAX_FRAMES :: Takes(f, r) <==> Meets(f, r)
  {
    forall f: nat | f < MAX_FRAMES ensures TakeFits(r) ==> (Takes(f, r) <==> Meets(f, r)) {
      TakesFrame(r, f);
    }
    if !TakeFits(r) {
      TakesFrame(r, MAX_FRAMES - 1);
      assert Meets(MAX_FRAMES - 1, r) <==> Meets(MAX_FRAMES - 1, r);
    }
  }

  lemma TakesFrame(r: Range, f: nat)
    requires Words(r) && f < MAX_FRAMES
    ensures TakeFits(r) ==> (Takes(f, r) <==> Meets(f, r))
    ensures !TakeFits(r) && f == MAX_FRAMES - 1 ==> Meets(f, r) && !Takes(f, r)
  {
    var end := (r.base + r.length + PAGE_SIZE - 1) % TWO64;
    DownRounding(r.base, f);
    DownRounding(end, f);
    Rounding(r.base + r.length, f);
  }

  // ---- several ranges ----

  /** One of the first n regions is available, and marking it frees frame f. */
  ghost predicate FreedBy(f: nat, regions: seq<Region>, n: nat)
    requires n <= |regions|
  {
    exists i :: 0 <= i < n && regions[i].available && Frees(f, regions[i].range)
  }

  ghost predicate TakenBy(f: nat, ranges: seq<Range>) {
    exists i :: 0 <= i < |ranges| && Takes(f, ranges[i])
  }

  lemma TakenByAppend(f: nat, a: seq<Range>, b: seq<Range>)
    ensures TakenBy(f, a + b) <==> TakenBy(f, a) || TakenBy(f, b)
  {
    if TakenBy(f, a) {
      var i :| 0 <= i < |a| && Takes(f, a[i]);
      assert (a + b)[i] == a[i];
    }
    if TakenBy(f, b) {
      var i :| 0 <= i < |b| && Takes(f, b[i]);
      assert (a + b)[|a| + i] == b[i];
    }
  }

  lemma TakenByOne(f: nat, r: Range)
    ensures TakenBy(f, [r]) <==> Takes(f, r)
  {
    assert [r][0] == r;
  }

  lemma TakenByThree(f: nat, r0: Range, r1: Range, r2: Range)
    ensures TakenBy(f, [r0, r1, r2]) <==> Takes(f, r0) || Takes(f, r1) || Takes(f, r2)
  {
    var s := [r0, r1, r2];
    assert s[0] == r0 && s[1] == r1 && s[2] == r2;
  }

  /** One of the available regions contains frame f whole. */
  ghost predicate InsideSome(f: nat, regions: seq<Region>) {
    exists i :: 0 <= i < |regions| && regions[i].available && Inside(f, regions[i].range)
  }

  ghost predicate MeetsSome(f: nat, ranges: seq<Range>) {
    exists i :: 0 <= i < |ranges| && Meets(f, ranges[i])
  }

  predicate RangesFit(regions: seq<Region>, kernel: Range, bootInfo: Range, modules: seq<Range>) {
    && (forall i | 0 <= i < |regions| :: FreeFits(regions[i].range)) && (forall i | 0 <= i < |modules| :: TakeFits(modules[i]))
    && TakeFits(kernel) && TakeFits(bootInfo)
  }

  /** When all the ranges fit, the machine's tests mean what they are for. */
  lemma AllFit(regions: seq<Region>, kernel: Range, bootInfo: Range, modules: seq<Range>)
    requires (forall i | 0 <= i < |regions| :: Words(regions[i].range)) && Words(kernel) && Words(bootInfo)
    requires forall i | 0 <= i < |modules| :: Words(modules[i])
    ensures RangesFit(regions, kernel, bootInfo, modules) ==>
      forall f: nat | f < MAX_FRAMES ::
        && (FreedBy(f, regions, |regions|) <==> InsideSome(f, regions))
        && (TakenBy(f, [kernel, FIRST_MIB, bootInfo] + modules) <==>
              Meets(f, kernel) || Meets(f, FIRST_MIB) || Meets(f, bootInfo) || MeetsSome(f, modules))
  {
    hide Frees, Takes, Inside, Meets, FreeFits, TakeFits;
    if RangesFit(regions, kernel, bootInfo, modules) {
      forall f: nat | f < MAX_FRAMES
        ensures FreedBy(f, regions, |regions|) <==> InsideSome(f, regions)
        ensures TakenBy(f, [kernel, FIRST_MIB, bootInfo] + modules) <==>
          Meets(f, kernel) || Meets(f, FIRST_MIB) || Meets(f, bootInfo) || MeetsSome(f, modules)
      {
        forall i | 0 <= i < |regions| ensures Frees(f, regions[i].range) <==> Inside(f, regions[i].range) { FreesExact(regions[i].range); }
        forall i | 0 <= i < |modules| ensures Takes(f, modules[i]) <==> Meets(f, modules[i]) { TakesExact(modules[i]); }
        FirstMibFits();
        TakesExact(kernel);
        TakesExact(FIRST_MIB);
        TakesExact(bootInfo);
        TakenByAppend(f, [kernel, FIRST_MIB, bootInfo], modules);
        TakenByThree(f, kernel, FIRST_MIB, bootInfo);
      }
    }
  }

  lemma FirstMibFits()
    ensures TakeFits(FIRST_MIB) && Words(FIRST_MIB)
  {
  }

  lemma FirstMibTaken()
    ensures forall f: nat | f < 256 :: Takes(f, FIRST_MIB)
  {
  }

  /** Every frame that the memory map makes available. */
  ghost function AllFreed(regions: seq<Region>): set<nat> {
    set f: nat | f < 0x10_0000 && FreedBy(f, regions, |regions|)
  }

  // ---- bits of a byte ----

  /** 1 << k, for the eight bits of a byte. */
  function BitMask(k: nat): bv8
    requires k < 8
  {
    if k == 0 then 0x01 else if k == 1 then 0x02 else if k == 2 then 0x04 else if k == 3 then 0x08
    else if k == 4 then 0x10 else if k == 5 then 0x20 else if k == 6 then 0x40 else 0x80
  }

  predicate Test(b: bv8, k: nat)
    requires k < 8
  {
    b & BitMask(k) != 0
  }

  lemma SetBit(b: bv8, j: nat, k: nat)
    requires j < 8 && k < 8
    ensures Test(b | BitMask(j), k) == (j == k || Test(b, k))
  {
  }

  lemma ClearBit(b: bv8, j: nat, k: nat)
    requires j < 8 && k < 8
    ensures Test(b & !BitMask(j), k) == (j != k && Test(b, k))
  {
  }

  lemma AllOnes(k: nat)
    requires k < 8
    ensures Test(0xFF, k)
  {
  }

  /** Distinct frames occupy distinct (byte, bit) places. */
  lemma PlaceInjective(f: nat, g: nat)
    requires f / 8 == g / 8 && f % 8 == g % 8
    ensures f == g
  {
    assert f == 8 * (f / 8) + f % 8;
    assert g == 8 * (g / 8) + g % 8;
  }

  lemma SubsetSize(s: set<nat>, t: set<nat>)
    requires s <= t
    ensures |s| <= |t|
  {
    assert t == s + (t - s);
  }

  lemma FrameSetBound(s: set<nat>, n: nat)
    requires forall f | f in s :: f < n
    ensures |s| <= n
  {
    if n == 0 {
      assert s == {};
    } else {
      FrameSetBound(s - {n - 1}, n - 1);
      assert |s| <= |s - {n - 1}| + 1;
    }
  }

  class Pmm {
    const bitmap: array<bv8>
    var totalFrames: nat
    var usedFrames: nat

    /** The frames whose bit is clear. */
    ghost var free: set<nat>
    /** The frames that were free when initialisation ended: all that is ever handed out. */
    ghost var pool: set<nat>
    /** How often each frame has been released by FreeFrame since initialisation. */
    ghost var released: multiset<nat>

    predicate IsUsed(f: nat)
      requires f < MAX_FRAMES && bitmap.Length == BITMAP_SIZE
      reads bitmap
    {
      Test(bitmap[f / 8], f % 8)
    }

    /** The bitmap is the complement of `free`, and the counters count it. */
    ghost predicate Consistent()
      reads this, bitmap
    {
      && bitmap.Length == BITMAP_SIZE
      && (forall f | f in free :: f < MAX_FRAMES)
      && (forall f: nat | f < MAX_FRAMES :: IsUsed(f) <==> f !in free)
      && usedFrames + |free| == totalFrames
      && totalFrames <= MAX_FRAMES
    }

    /** What holds from the end of initialisation on. */
    ghost predicate Valid()
      reads this, bitmap
    {
      Consistent() && free <= pool && |pool| <= totalFrames && 0 !in pool && forall f | f in pool :: f < MAX_FRAMES
    }

    /** The frames handed out and not returned. */
    ghost function Live(): set<nat>
      reads this
    {
      pool - free
    }

    method SetUsed(f: nat)
      requires f < MAX_FRAMES && Consistent()
      modifies bitmap
      ensures forall g: nat | g < MAX_FRAMES :: IsUsed(g) <==> g == f || old(IsUsed(g))
    {
      bitmap[f / 8] := bitmap[f / 8] | BitMask(f % 8);
      forall g: nat | g < MAX_FRAMES ensures IsUsed(g) <==> g == f || old(IsUsed(g)) {
        if g / 8 == f / 8 {
          SetBit(old(bitmap[f / 8]), f % 8, g % 8);
          if g % 8 == f % 8 { PlaceInjective(f, g); }
        }
      }
    }

    method SetFree(f: nat)
      requires f < MAX_FRAMES && Consistent()
      modifies bitmap
      ensures forall g: nat | g < MAX_FRAMES :: IsUsed(g) <==> g != f && old(IsUsed(g))
    {
      bitmap[f / 8] := bitmap[f / 8] & !BitMask(f % 8);
      forall g: nat | g < MAX_FRAMES ensures IsUsed(g) <==> g != f && old(IsUsed(g)) {
        if g / 8 == f / 8 {
          ClearBit(old(bitmap[f / 8]), f % 8, g % 8);
          if g % 8 == f % 8 { PlaceInjective(f, g); }
        }
      }
    }

    /** The loop body of MarkRangeFree. */
    method FreeOne(frame: nat)
      requires Consistent() && usedFrames == 0 && frame < MAX_FRAMES
      modifies this, bitmap
      ensures Consistent() && usedFrames == 0 && free == old(free) + {frame}
    {
      if IsUsed(frame) {
        SetFree(frame);
        free := free + {frame};
        FrameSetBound(free, MAX_FRAMES);
        totalFrames := totalFrames + 1;
      }
    }

    /** The loop body of MarkRangeUsed. */
    method TakeOne(frame: nat)
      requires Consistent() && frame < MAX_FRAMES
      modifies this, bitmap
      ensures Consistent() && free == old(free) - {frame} && totalFrames == old(totalFrames)
    {
      if !IsUsed(frame) {
        SetUsed(frame);
        free := free - {frame};
        usedFrames := usedFrames + 1;
      }
    }

    /** mark_range_free. */
    method MarkRangeFree(r: Range)
      requires Consistent() && Words(r) && usedFrames == 0
      modifies this, bitmap
      ensures Consistent() && usedFrames == 0
      ensures forall f: nat :: f in free <==> f in old(free) || (f < MAX_FRAMES && Frees(f, r))
      ensures FreeFits(r) ==> forall f: nat :: f in free <==> f in old(free) || (f < MAX_FRAMES && Inside(f, r))
    {
      var start := PageDown((r.base + PAGE_SIZE - 1) % TWO64);
      var end := PageDown((r.base + r.length) % TWO64);
      FreesExact(r);
      if start >= end { return; }
      var addr := start;
      ghost var first, last := start / PAGE_SIZE, end / PAGE_SIZE;
      assert start == first * PAGE_SIZE by { DownRounding((r.base + PAGE_SIZE - 1) % TWO64, 0); }
      assert end == last * PAGE_SIZE by { DownRounding((r.base + r.length) % TWO64, 0); }
      ghost var k := first;
      while addr < end
        invariant first <= k <= last && addr == k * PAGE_SIZE
        invariant Consistent() && usedFrames == 0
        invariant forall f: nat :: f in free <==> f in old(free) || (f < MAX_FRAMES && first <= f < k)
        decreases end - addr
      {
        var frame := addr / PAGE_SIZE;
        assert frame == k;
        if frame >= MAX_FRAMES { break; }
        FreeOne(frame);
        addr := addr + PAGE_SIZE;
        k := k + 1;
      }
    }

    /** mark_range_used. */
    method MarkRangeUsed(r: Range)
      requires Consistent() && Words(r)
      modifies this, bitmap
      ensures Consistent() && totalFrames == old(totalFrames)
      ensures forall f: nat :: f in free <==> f in old(free) && !Takes(f, r)
      ensures TakeFits(r) ==> forall f: nat :: f in free <==> f in old(free) && !Meets(f, r)
    {
      hide IsUsed;
      var start := PageDown(r.base);
      var end := PageDown((r.base + r.length + PAGE_SIZE - 1) % TWO64);
      TakesExact(r);
      var addr := start;
      ghost var first, last := start / PAGE_SIZE, end / PAGE_SIZE;
      assert start == first * PAGE_SIZE by { DownRounding(r.base, 0); }
      assert end == last * PAGE_SIZE by { DownRounding((r.base + r.length + PAGE_SIZE - 1) % TWO64, 0); }
      ghost var k := first;
      while addr < end
        invariant first <= k && (k <= last || k == first) && addr == k * PAGE_SIZE
        invariant Consistent() && totalFrames == old(totalFrames)
        invariant forall f: nat :: f in free <==> f in old(free) && !(first <= f < k)
        decreases end - addr
      {
        var frame := addr / PAGE_SIZE;
        assert frame == k;
        if frame >= MAX_FRAMES { break; }
        TakeOne(frame);
        addr := addr + PAGE_SIZE;
        k := k + 1;
      }
    }

    /** Build the bitmap: everything reserved, then the available regions freed,
        then the reserved ranges (kernel image, first MiB, boot information, modules) taken back. */
    method Init(regions: seq<Region>, kernel: Range, bootInfo: Range, modules: seq<Range>)
      requires bitmap.Length == BITMAP_SIZE
      requires forall i | 0 <= i < |regions| :: Words(regions[i].range)
      requires Words(kernel) && Words(bootInfo)
      requires forall i | 0 <= i < |modules| :: Words(modules[i])
      modifies this, bitmap
      ensures Valid() && pool == free && released == multiset{}
      ensures forall f: nat :: f in free <==>
        && f < MAX_FRAMES
        && FreedBy(f, regions, |regions|)
        && !TakenBy(f, [kernel, FIRST_MIB, bootInfo] + modules)
      ensures totalFrames == |AllFreed(regions)| && usedFrames == totalFrames - |free|
      ensures forall f | f in free :: f >= 256
      ensures RangesFit(regions, kernel, bootInfo, modules) ==>
        forall f: nat :: f in free <==>
          && f < MAX_FRAMES && InsideSome(f, regions)
          && !Meets(f, kernel) && !Meets(f, FIRST_MIB) && !Meets(f, bootInfo) && !MeetsSome(f, modules)
    {
      Reserve();
      FreeRegions(regions);
      MarkRangeUsed(kernel);
      MarkRangeUsed(FIRST_MIB);
      MarkRangeUsed(bootInfo);
      TakeModules(modules);
      forall f: nat ensures TakenBy(f, [kernel, FIRST_MIB, bootInfo] + modules) <==>
          Takes(f, kernel) || Takes(f, FIRST_MIB) || Takes(f, bootInfo) || TakenBy(f, modules) {
        TakenByAppend(f, [kernel, FIRST_MIB, bootInfo], modules);
        TakenByThree(f, kernel, FIRST_MIB, bootInfo);
      }
      FirstMibTaken();
      pool, released := free, multiset{};
      AllFit(regions, kernel, bootInfo, modules);
    }

    /** Fill the bitmap with 0xFF and zero the counters. */
    method Reserve()
      requires bitmap.Length == BITMAP_SIZE
      modifies this, bitmap
      ensures Consistent() && usedFrames == 0 && free == {}
    {
      var i := 0;
      while i < BITMAP_SIZE
        invariant 0 <= i <= BITMAP_SIZE
        invariant forall j | 0 <= j < i :: bitmap[j] == 0xFF
      {
        bitmap[i] := 0xFF;
        i := i + 1;
      }
      totalFrames, usedFrames, free := 0, 0, {};
      forall f: nat | f < MAX_FRAMES ensures IsUsed(f) { AllOnes(f % 8); }
    }

    /** The walk over the memory map. */
    method FreeRegions(regions: seq<Region>)
      requires Consistent() && usedFrames == 0 && free == {}
      requires forall i | 0 <= i < |regions| :: Words(regions[i].range)
      modifies this, bitmap
      ensures Consistent() && usedFrames == 0 && totalFrames == |AllFreed(regions)|
      ensures forall f: nat :: f in free <==> f < MAX_FRAMES && FreedBy(f, regions, |regions|)
    {
      var i := 0;
      while i < |regions|
        invariant 0 <= i <= |regions|
        invariant Consistent() && usedFrames == 0
        invariant forall f: nat :: f in free <==> f < MAX_FRAMES && FreedBy(f, regions, i)
      {
        if regions[i].available { MarkRangeFree(regions[i].range); }
        i := i + 1;
      }
      assert free == AllFreed(regions);
    }

    /** The walk over the module tags. */
    method TakeModules(modules: seq<Range>)
      requires Consistent()
      requires forall i | 0 <= i < |modules| :: Words(modules[i])
      modifies this, bitmap
      ensures Consistent() && totalFrames == old(totalFrames)
      ensures forall f: nat :: f in free <==> f in old(free) && !TakenBy(f, modules)
    {
      var i := 0;
      while i < |modules|
        invariant 0 <= i <= |modules|
        invariant Consistent() && totalFrames == old(totalFrames)
        invariant forall f: nat :: f in free <==> f in old(free) && !TakenBy(f, modules[..i])
      {
        MarkRangeUsed(modules[i]);
        forall f: nat ensures TakenBy(f, modules[..i + 1]) <==> TakenBy(f, modules[..i]) || Takes(f, modules[i]) {
          TakenByAppend(f, modules[..i], [modules[i]]);
          TakenByOne(f, modules[i]);
          assert modules[..i + 1] == modules[..i] + [modules[i]];
        }
        i := i + 1;
      }
      assert modules[..|modules|] == modules;
    }

    /** First fit. `ok` is false when no frame is left, where the kernel halts. */
    method AllocFrame() returns (ok: bool, frame: nat)
      requires Valid()
      modifies this, bitmap
      ensures Valid() && pool == old(pool) && totalFrames == old(totalFrames) && released == old(released)
      ensures !ok ==> old(free) == {} && free == old(free)
      ensures ok ==>
        && frame in old(free) && free == old(free) - {frame}
        && (forall g | g in old(free) :: frame <= g)
        && frame in pool && frame !in old(Live()) && frame in Live() && 0 < frame < MAX_FRAMES
      ensures ok ==> usedFrames == old(usedFrames) + 1
    {
      var i: nat := 0;
      while i < MAX_FRAMES
        invariant i <= MAX_FRAMES
        invariant forall g | g in free :: i <= g
      {
        if !IsUsed(i) {
          SetUsed(i);
          free := free - {i};
          usedFrames := usedFrames + 1;
          return true, i;
        }
        i := i + 1;
      }
      assert free == {};
      return false, 0;
    }

    /** Clear the bit of a frame, if it is set. Freeing a frame of the pool keeps the allocator valid;
        nothing in the code keeps a caller from clearing the bit of a reserved frame. */
    method FreeFrame(frame: nat)
      requires Valid()
      modifies this, bitmap
      ensures bitmap.Length == BITMAP_SIZE && forall g: nat | g < MAX_FRAMES :: IsUsed(g) <==> g != frame && old(IsUsed(g))
      ensures pool == old(pool) && totalFrames == old(totalFrames)
      ensures free == old(free) + (if frame < MAX_FRAMES then {frame} else {})
      ensures usedFrames == if frame >= MAX_FRAMES || frame in old(free) then old(usedFrames)
                            else if old(usedFrames) > 0 then old(usedFrames) - 1 else TWO64 - 1
      ensures released == old(released) + (if frame < MAX_FRAMES && frame !in old(free) then multiset{frame} else multiset{})
      ensures frame in pool || frame >= MAX_FRAMES ==> Valid()
    {
      if frame >= MAX_FRAMES || !IsUsed(frame) { return; }
      SetFree(frame);
      free := free + {frame};
      released := released + multiset{frame};
      SubsetSize(free, pool + {frame});
      usedFrames := if usedFrames > 0 then usedFrames - 1 else TWO64 - 1;
    }
  }
}
