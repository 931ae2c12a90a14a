/** From the page tables of start-up to running processes: the kernel image gets its permissions, the heap
    its first megabyte, and a family of processes lives and ends. */
module KernelStart {
  import opened Options
  import opened FrameBitmap
  import opened PageTables
  import opened PageTableSteps
  import opened SpaceSteps
  import opened MappingSteps
  import opened CloneSteps
  import opened FramePrices
  import opened AddressSpaces
  import opened PageRanges
  import opened SpaceLifetimes
  import opened ForkAndExec
  import opened SpaceRuns
  import opened HeapFrames
  import opened HeapPages
  import opened BootTables

  /** The pages of the first four gigabytes. */
  const LOW_PAGES: nat := 0x10_0000

  /** The kernel maps page k of the first four gigabytes to frame k. */
  ghost predicate SelfMapped(ram: Ram, t: Tree, k: nat)
    requires Inv(ram, t)
  {
    TreeWalk(ram, t, Kernel, PageOf(k)).Some? && TreeWalk(ram, t, Kernel, PageOf(k)).value.frame == k
  }

  ghost predicate Identity(ram: Ram, t: Tree)
    requires Inv(ram, t)
  {
    forall k: nat {:trigger SelfMapped(ram, t, k)} | k < LOW_PAGES :: SelfMapped(ram, t, k)
  }

  lemma LowPage(k: nat)
    requires k < LOW_PAGES
    ensures PageOf(k).i4 == 0 && PageOf(k).i3 < 4 && (PageOf(k).i3 * 512 + PageOf(k).i2) * 512 + PageOf(k).i1 == k
    ensures Tracked(Kernel, PageOf(k)) && !Own(Leaf(Kernel, PageOf(k)))
  {
    NumOfPage(k);
    TrackedByKernel(PageOf(k));
  }

  lemma BootIdentity(ram: Ram, b: Image)
    requires Filled(ram, b) && Inv(ram, BootTree(b)) && BootTree(b).at[Root(Kernel)] == b.p4
    ensures Identity(ram, BootTree(b))
  {
    hide Inv, Filled, BootTree, TreeWalk, Walk, PageOf;
    FilledApart(ram, b);
    RootIn(b);
    forall k: nat | k < LOW_PAGES ensures SelfMapped(ram, BootTree(b), k) {
      LowPage(k);
      BootWalk(ram, b, PageOf(k));
      WalkIsTreeWalk(ram, BootTree(b), Kernel, PageOf(k));
    }
  }

  lemma KernelDirectory(ram: Ram, t: Tree, k: Index)
    requires Inv(ram, t) && k < 4 && Identity(ram, t)
    ensures HasLow(t, k)
  {
    var n := k * 0x4_0000;
    LowPage(n);
    assert SelfMapped(ram, t, n);
    var pg := PageOf(n);
    assert pg.i3 == k;
    assert PdPath(Kernel, pg) == LowPd(k);
    DirectoryThere(ram, t, pg);
  }

  lemma DirectoryThere(ram: Ram, t: Tree, pg: Page)
    requires Inv(ram, t) && TreeWalk(ram, t, Kernel, pg).Some?
    ensures PdPath(Kernel, pg) in t.at
  {
  }

  /** A new space takes six frames: its PML4, its PDPT and four directories. */
  lemma SixFrames(m: Mmu)
    requires m.Valid() && Identity(m.ram, m.tree)
    ensures m.CreatePrice(m.tree) == 6
  {
    KernelDirectory(m.ram, m.tree, 0);
    KernelDirectory(m.ram, m.tree, 1);
    KernelDirectory(m.ram, m.tree, 2);
    KernelDirectory(m.ram, m.tree, 3);
    hide Identity, HasLow, Inv, Granting;
    assert m.LowCount(m.tree, 1) == 1;
    assert m.LowCount(m.tree, 2) == 2;
    assert m.LowCount(m.tree, 3) == 3;
  }

  lemma FilledApart(ram: Ram, b: Image)
    requires Filled(ram, b)
    ensures b.Apart()
  {
  }

  // ---- remap_kernel ----

  /** A part of the kernel image, in pages, and its permissions. */
  datatype Section = Section(lo: nat, hi: nat, fl: Flags) {
    predicate Good() { lo <= hi <= LOW_PAGES && fl.present && !fl.huge && !fl.user }
  }

  /** Page k keeps its frame, and its flags unless its 2 MiB entry has been split. */
  ghost predicate Kept(ram: Ram, t: Tree, ram': Ram, t': Tree, k: nat)
    requires Inv(ram, t) && Inv(ram', t')
  {
    SameFrame(TreeWalk(ram, t, Kernel, PageOf(k)), TreeWalk(ram', t', Kernel, PageOf(k)))
  }

  ghost predicate KeptBut(ram: Ram, t: Tree, ram': Ram, t': Tree, n: nat)
    requires Inv(ram, t) && Inv(ram', t')
  {
    forall k: nat {:trigger Kept(ram, t, ram', t', k)} | k < LOW_PAGES && k != n :: Kept(ram, t, ram', t', k)
  }

  /** One page of the kernel image, mapped to itself. */
  method RemapPage(m: Mmu, n: nat, fl: Flags) returns (ok: bool)
    requires m.Valid() && m.cr3 == m.kernelPml4 && Identity(m.ram, m.tree) && n < LOW_PAGES && fl.present && !fl.huge && !fl.user
    modifies m`ram, m`tree, m.pmm, m.pmm.bitmap
    ensures SamePool(m) && (!ok ==> m.pmm.free == {})
    ensures ok ==> m.Valid() && Identity(m.ram, m.tree) && TreeWalk(m.ram, m.tree, Kernel, PageOf(n)) == Some(Entry(n, fl))
    ensures ok ==> KeptBut(old(m.ram), old(m.tree), m.ram, m.tree, n)
    ensures ok ==> (Child(Root(Kernel), HEAP_SLOT) in m.tree.at <==> Child(Root(Kernel), HEAP_SLOT) in old(m.tree.at))
  {
    hide Linked, Shared, Granting, Pmm.Valid, TreeWalk, PageOf, Own, OwnStep, Tracked, Above;
    ghost var ram0, t0 := m.ram, m.tree;
    LowPage(n);
    KernelStarts(m, n);
    ok := m.Map(PageOf(n), n, fl, Kernel);
    if !ok { return; }
    SlotUntouched(t0, m.tree, PageOf(n));
    RemappedRest(ram0, t0, m.ram, m.tree, n, fl);
  }

  lemma KernelStarts(m: Mmu, n: nat)
    requires m.Valid() && m.cr3 == m.kernelPml4 && n < LOW_PAGES
    ensures m.StartsAt(m.cr3, PageOf(n), Kernel)
  {
    hide Linked, Shared, Granting, Pmm.Valid;
    LowPage(n);
  }

  lemma SlotUntouched(t: Tree, t': Tree, pg: Page)
    requires t'.at.Keys == t.at.Keys + Above(Kernel, pg) && pg.i4 == 0
    ensures Child(Root(Kernel), HEAP_SLOT) in t'.at <==> Child(Root(Kernel), HEAP_SLOT) in t.at
  {
    var p := Child(Root(Kernel), HEAP_SLOT);
    assert PtPath(Kernel, pg) != p && PdPath(Kernel, pg) != p;
    assert p in t'.at.Keys <==> p in t.at.Keys;
  }

  /** The other pages keep their frames. */
  lemma RemappedRest(ram: Ram, t: Tree, ram': Ram, t': Tree, n: nat, fl: Flags)
    requires Good(ram, t) && Good(ram', t') && n < LOW_PAGES && Identity(ram, t)
    requires MapStep(ram, t, ram', t', Kernel, PageOf(n), n, fl)
    ensures Identity(ram', t') && TreeWalk(ram', t', Kernel, PageOf(n)) == Some(Entry(n, fl))
    ensures KeptBut(ram, t, ram', t', n)
  {
    hide Inv, Granting, TreeWalk, PageOf, Own;
    forall k: nat | k < LOW_PAGES
      ensures SelfMapped(ram', t', k) && (k != n ==> Kept(ram, t, ram', t', k))
    {
      LowPage(k);
      LowPage(n);
      assert SelfMapped(ram, t, k);
    }
  }

  /** The last of the first `count` sections that has page k, or -1. */
  function LastSection(sections: seq<Section>, count: nat, k: nat): (i: int)
    requires count <= |sections|
    ensures -1 <= i < count && (i >= 0 ==> sections[i].lo <= k < sections[i].hi)
    ensures forall j | i < j < count :: !(sections[j].lo <= k < sections[j].hi)
  {
    if count == 0 then -1
    else if sections[count - 1].lo <= k < sections[count - 1].hi then count - 1
    else LastSection(sections, count - 1, k)
  }

  /** Page k maps to itself with the permissions of the last section that has it; without one it is kept. */
  ghost predicate PageRemapped(ram0: Ram, t0: Tree, ram: Ram, t: Tree, sections: seq<Section>, count: nat, k: nat)
    requires Inv(ram0, t0) && Inv(ram, t) && count <= |sections|
  {
    var i := LastSection(sections, count, k);
    if i < 0 then Kept(ram0, t0, ram, t, k) else TreeWalk(ram, t, Kernel, PageOf(k)) == Some(Entry(k, sections[i].fl))
  }

  ghost predicate Remapped(ram0: Ram, t0: Tree, ram: Ram, t: Tree, sections: seq<Section>, count: nat)
    requires Inv(ram0, t0) && Inv(ram, t) && count <= |sections|
  {
    forall k: nat {:trigger PageRemapped(ram0, t0, ram, t, sections, count, k)} | k < LOW_PAGES :: PageRemapped(ram0, t0, ram, t, sections, count, k)
  }

  /** Between the rounds of remap_range: pages lo to n are mapped, the others kept. */
  ghost predicate SectionMapped(ram0: Ram, t0: Tree, ram: Ram, t: Tree, lo: nat, n: nat, fl: Flags)
    requires Inv(ram0, t0) && Inv(ram, t)
  {
    forall k: nat {:trigger Kept(ram0, t0, ram, t, k)} | k < LOW_PAGES ::
      if lo <= k < n then TreeWalk(ram, t, Kernel, PageOf(k)) == Some(Entry(k, fl)) else Kept(ram0, t0, ram, t, k)
  }

  lemma SectionNone(ram: Ram, t: Tree, lo: nat, fl: Flags)
    requires Inv(ram, t)
    ensures SectionMapped(ram, t, ram, t, lo, lo, fl)
  {
    hide Inv, TreeWalk, PageOf;
  }

  lemma SectionMore(ram0: Ram, t0: Tree, ram: Ram, t: Tree, ram': Ram, t': Tree, lo: nat, n: nat, fl: Flags)
    requires Inv(ram0, t0) && Inv(ram, t) && Inv(ram', t') && lo <= n < LOW_PAGES && !fl.huge
    requires SectionMapped(ram0, t0, ram, t, lo, n, fl) && KeptBut(ram, t, ram', t', n) && TreeWalk(ram', t', Kernel, PageOf(n)) == Some(Entry(n, fl))
    ensures SectionMapped(ram0, t0, ram', t', lo, n + 1, fl)
  {
    hide Inv, TreeWalk, PageOf;
    forall k: nat | k < LOW_PAGES
      ensures if lo <= k < n + 1 then TreeWalk(ram', t', Kernel, PageOf(k)) == Some(Entry(k, fl)) else Kept(ram0, t0, ram', t', k)
    {
      assert k != n ==> Kept(ram, t, ram', t', k);
      assert Kept(ram0, t0, ram, t, k) || lo <= k < n;
    }
  }

  lemma SectionDone(ram0: Ram, t0: Tree, ram: Ram, t: Tree, ram': Ram, t': Tree, sections: seq<Section>, i: nat)
    requires Inv(ram0, t0) && Inv(ram, t) && Inv(ram', t') && i < |sections| && sections[i].Good()
    requires forall j {:trigger sections[j]} | 0 <= j < |sections| :: sections[j].Good()
    requires Remapped(ram0, t0, ram, t, sections, i) && SectionMapped(ram, t, ram', t', sections[i].lo, sections[i].hi, sections[i].fl)
    ensures Remapped(ram0, t0, ram', t', sections, i + 1)
  {
    hide Inv, TreeWalk, PageOf;
    var i' := i + 1;
    forall k: nat | k < LOW_PAGES ensures PageRemapped(ram0, t0, ram', t', sections, i', k) {
      assert PageRemapped(ram0, t0, ram, t, sections, i, k);
      assert Kept(ram, t, ram', t', k) || sections[i].lo <= k < sections[i].hi;
    }
  }

  lemma NoSections(ram: Ram, t: Tree, sections: seq<Section>)
    requires Inv(ram, t)
    ensures Remapped(ram, t, ram, t, sections, 0)
  {
    hide Inv, TreeWalk, PageOf;
  }

  /** remap_range: every page of a section to itself, with the section's permissions. */
  method RemapSection(m: Mmu, sec: Section) returns (ok: bool)
    requires m.Valid() && m.cr3 == m.kernelPml4 && Identity(m.ram, m.tree) && sec.Good()
    modifies m`ram, m`tree, m.pmm, m.pmm.bitmap
    ensures SamePool(m) && (!ok ==> m.pmm.free == {})
    ensures ok ==> m.Valid() && Identity(m.ram, m.tree) && SectionMapped(old(m.ram), old(m.tree), m.ram, m.tree, sec.lo, sec.hi, sec.fl)
    ensures ok ==> (Child(Root(Kernel), HEAP_SLOT) in m.tree.at <==> Child(Root(Kernel), HEAP_SLOT) in old(m.tree.at))
  {
    hide Linked, Shared, Granting, Pmm.Valid, TreeWalk, PageOf, Identity, KeptBut, SectionMapped;
    ghost var ram0, t0 := m.ram, m.tree;
    SectionNone(ram0, t0, sec.lo, sec.fl);
    ok := true;
    var n := sec.lo;
    while n < sec.hi
      invariant sec.lo <= n <= sec.hi && m.Valid() && SamePool(m) && Identity(m.ram, m.tree)
      invariant SectionMapped(ram0, t0, m.ram, m.tree, sec.lo, n, sec.fl)
      invariant Child(Root(Kernel), HEAP_SLOT) in m.tree.at <==> Child(Root(Kernel), HEAP_SLOT) in old(m.tree.at)
    {
      ghost var ram1, t1 := m.ram, m.tree;
      ok := RemapPage(m, n, sec.fl);
      if !ok { return; }
      SectionMore(ram0, t0, ram1, t1, m.ram, m.tree, sec.lo, n, sec.fl);
      n := n + 1;
    }
  }

  /** remap_kernel: the sections of the kernel image, in order. The first four gigabytes stay mapped to
      themselves, each page with the permissions of the last section that has it. */
  method RemapKernel(m: Mmu, sections: seq<Section>) returns (ok: bool)
    requires m.Valid() && m.cr3 == m.kernelPml4 && Identity(m.ram, m.tree)
    requires forall i {:trigger sections[i]} | 0 <= i < |sections| :: sections[i].Good()
    modifies m`ram, m`tree, m.pmm, m.pmm.bitmap
    ensures SamePool(m) && (!ok ==> m.pmm.free == {})
    ensures ok ==> m.Valid() && Identity(m.ram, m.tree) && Remapped(old(m.ram), old(m.tree), m.ram, m.tree, sections, |sections|)
    ensures ok ==> (Child(Root(Kernel), HEAP_SLOT) in m.tree.at <==> Child(Root(Kernel), HEAP_SLOT) in old(m.tree.at))
  {
    hide Linked, Shared, Granting, Pmm.Valid, TreeWalk, PageOf, Identity, SectionMapped, Remapped;
    ghost var ram0, t0 := m.ram, m.tree;
    NoSections(ram0, t0, sections);
    ok := true;
    var i := 0;
    while i < |sections|
      invariant 0 <= i <= |sections| && m.Valid() && SamePool(m) && Identity(m.ram, m.tree)
      invariant Remapped(ram0, t0, m.ram, m.tree, sections, i)
      invariant Child(Root(Kernel), HEAP_SLOT) in m.tree.at <==> Child(Root(Kernel), HEAP_SLOT) in old(m.tree.at)
    {
      ghost var ram1, t1 := m.ram, m.tree;
      ok := RemapSection(m, sections[i]);
      if !ok { return; }
      SectionDone(ram0, t0, ram1, t1, m.ram, m.tree, sections, i);
      i := i + 1;
    }
  }

  // ---- from power-on to processes ----

  const FIRST_HEAP: nat := 256

  /** heap::init over the kernel's own tables, then a first process and all its descendants. Of the free
      frames exactly the heap's are gone when the last process has ended. */
  method HeapAndProcesses(m: Mmu, acts: seq<Act>) returns (ok: bool)
    requires m.Valid() && m.cr3 == m.kernelPml4 && Child(Root(Kernel), HEAP_SLOT) !in m.tree.at
    requires forall k {:trigger acts[k]} | 0 <= k < |acts| :: Proper(acts[k])
    modifies m`ram, m`tree, m`cr3, m.pmm, m.pmm.bitmap
    ensures ok ==> m.Valid() && HeapUpTo(m.tree, FIRST_HEAP) && |m.pmm.free| == |old(m.pmm.free)| - GrowthFrames(0, FIRST_HEAP)
    ensures ok ==> Step(old(Now(m)), Now(m), {Kernel}, m.fixed)
    ensures !ok ==> m.pmm.free == {}
  {
    hide Linked, Shared, Granting, Pmm.Valid, TreeWalk, Step, HeapUpTo, HeapGrown, GrowthFrames, Proper;
    ghost var a := Now(m);
    NothingYet(m.ram, m.tree);
    ok := GrowHeapPages(m, 0, FIRST_HEAP);
    if !ok { return; }
    ghost var b := Now(m);
    HeapSlotThere(m.tree);
    ok := FamilyLifetime(m, acts);
    if !ok { return; }
    HeapStays(b, Now(m), m.fixed);
    StepWider(b, Now(m), {}, {Kernel}, m.fixed);
    StepTrans(a, b, Now(m), {Kernel}, m.fixed);
  }

  lemma HeapSlotThere(t: Tree)
    requires HeapUpTo(t, FIRST_HEAP)
    ensures Child(Root(Kernel), HEAP_SLOT) in t.at
  {
  }

  /** The heap's tables and pages stay where they are when nobody works on the kernel. */
  lemma HeapStays(b: Moment, c: Moment, fixed: set<nat>)
    requires Step(b, c, {}, fixed) && HeapUpTo(b.tree, FIRST_HEAP)
    ensures HeapUpTo(c.tree, FIRST_HEAP)
  {
    hide Sound, PagesKept, HeapPage;
    assert forall p {:trigger p in c.tree.at} :: p in c.tree.at <==> p in b.tree.at;
    forall k: nat | k < HEAP_PAGES ensures PageUpTo(c.tree, FIRST_HEAP, k) { assert PageUpTo(b.tree, FIRST_HEAP, k); }
  }

  /** The whole way from the tables of start-up. */
  method StartUp(pmm: Pmm, ram: Ram, ghost b: Image, bootPml4: nat, sections: seq<Section>, acts: seq<Act>) returns (ok: bool, m: Mmu)
    requires pmm.Valid() && pmm.free == pmm.pool && Filled(ram, b) && bootPml4 == b.p4
    requires pmm.pool !! {b.p4, b.p3, b.pds[0], b.pds[1], b.pds[2], b.pds[3]}
    requires forall i {:trigger sections[i]} | 0 <= i < |sections| :: sections[i].Good()
    requires forall k {:trigger acts[k]} | 0 <= k < |acts| :: Proper(acts[k])
    modifies pmm, pmm.bitmap
    ensures fresh(m) && m.pmm == pmm && (!ok ==> pmm.free == {})
    ensures ok ==> m.Valid() && HeapUpTo(m.tree, FIRST_HEAP)
  {
    hide Inv, Filled, BootTree, Identity, Remapped, HeapUpTo, Proper, GrowthFrames, Step;
    FilledApart(ram, b);
    BootInv(ram, b);
    BootIdentity(ram, b);
    m := new Mmu(pmm, ram, bootPml4, BootTree(b));
    ok := RemapKernel(m, sections);
    if !ok { return; }
    ok := HeapAndProcesses(m, acts);
  }
}
