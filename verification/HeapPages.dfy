/** The pages behind the kernel heap: a run of fresh frames below the shared heap slot, with the page
    tables it takes counted. */
module HeapPages {
  import opened Options
  import opened FrameBitmap
  import opened PageTables
  import opened PageTableSteps
  import opened SpaceSteps
  import opened MappingSteps
  import opened FramePrices
  import opened AddressSpaces
  import opened SpaceLifetimes
  import opened ForkAndExec
  import opened SpaceRuns
  import opened HeapFrames

  /** The heap's range of addresses in pages. */
  const HEAP_PAGES: nat := 0x10_0000

  /** The k-th page of the heap. */
  function HeapPage(k: nat): (pg: Page)
    requires k < HEAP_PAGES
    ensures pg.i4 == HEAP_SLOT
  {
    Page(HEAP_SLOT, k / PER_DIRECTORY, k / PER_TABLE % PER_TABLE, k % PER_TABLE)
  }

  /** Two heap pages share a table exactly if they lie in the same aligned run. */
  lemma SharedTables(k: nat, e: nat)
    requires k < HEAP_PAGES && e < HEAP_PAGES
    ensures HeapPage(k) == HeapPage(e) <==> k == e
    ensures PtPath(Kernel, HeapPage(k)) == PtPath(Kernel, HeapPage(e)) <==> k / PER_TABLE == e / PER_TABLE
    ensures PdPath(Kernel, HeapPage(k)) == PdPath(Kernel, HeapPage(e)) <==> k / PER_DIRECTORY == e / PER_DIRECTORY
  {
    Digits(k);
    Digits(e);
  }

  lemma Digits(k: nat)
    ensures k / PER_TABLE == k / PER_DIRECTORY * PER_TABLE + k / PER_TABLE % PER_TABLE
    ensures k == k / PER_TABLE * PER_TABLE + k % PER_TABLE
  {
  }

  /** Below the heap slot there are exactly the first e pages and the tables that they need. */
  ghost predicate HeapUpTo(t: Tree, e: nat) {
    && (Child(Root(Kernel), HEAP_SLOT) in t.at <==> e > 0)
    && forall k: nat {:trigger PageUpTo(t, e, k)} | k < HEAP_PAGES :: PageUpTo(t, e, k)
  }

  ghost predicate PageUpTo(t: Tree, e: nat, k: nat)
    requires k < HEAP_PAGES
  {
    && (Leaf(Kernel, HeapPage(k)) in t.at <==> k < e)
    && (PtPath(Kernel, HeapPage(k)) in t.at <==> k / PER_TABLE * PER_TABLE < e)
    && (PdPath(Kernel, HeapPage(k)) in t.at <==> k / PER_DIRECTORY * PER_DIRECTORY < e)
  }

  /** Before heap::init nothing is below the heap slot. */
  lemma NothingYet(ram: Ram, t: Tree)
    requires Inv(ram, t) && Child(Root(Kernel), HEAP_SLOT) !in t.at
    ensures HeapUpTo(t, 0)
  {
    hide Linked, Shared;
    forall k: nat | k < HEAP_PAGES ensures PageUpTo(t, 0, k) {
      AboveIsThere(t, Kernel, HeapPage(k));
    }
  }

  lemma AboveIsThere(t: Tree, o: Owner, pg: Page)
    requires Shaped(t)
    ensures Leaf(o, pg) in t.at ==> PtPath(o, pg) in t.at
    ensures PtPath(o, pg) in t.at ==> PdPath(o, pg) in t.at
    ensures PdPath(o, pg) in t.at ==> Child(Root(o), pg.i4) in t.at
  {
  }

  /** The tables that the next page still needs are those that start with it. */
  lemma NextCost(m: Mmu, e: nat)
    requires HeapUpTo(m.tree, e) && e < HEAP_PAGES
    ensures m.TableCost(Kernel, HeapPage(e)) == Starting(e) && Leaf(Kernel, HeapPage(e)) !in m.tree.at
  {
    assert PageUpTo(m.tree, e, e);
    Rounds(e, PER_TABLE);
    Rounds(e, PER_DIRECTORY);
  }

  lemma Rounds(e: nat, d: nat)
    requires d > 0
    ensures e / d * d < e <==> e % d != 0
    ensures e / d * d <= e
  {
  }

  lemma NextUpTo(t: Tree, e: nat, t': Tree)
    requires HeapUpTo(t, e) && e < HEAP_PAGES
    requires t'.at.Keys == t.at.Keys + Above(Kernel, HeapPage(e)) + {Leaf(Kernel, HeapPage(e))}
    ensures HeapUpTo(t', e + 1)
  {
    var e' := e + 1;
    forall k: nat | k < HEAP_PAGES ensures PageUpTo(t', e', k) {
      assert PageUpTo(t, e, k);
      NextPage(t, e, t', k);
    }
    assert PageUpTo(t, e, 0);
    Levels(e);
  }

  lemma Levels(e: nat)
    requires e < HEAP_PAGES
    ensures Level(PdPath(Kernel, HeapPage(e))) == 2 && Level(PtPath(Kernel, HeapPage(e))) == 3 && Level(Leaf(Kernel, HeapPage(e))) == 4
    ensures Level(Child(Root(Kernel), HEAP_SLOT)) == 1
  {
    OwnSteps(Kernel, HeapPage(e));
    assert Level(Root(Kernel)) == 0;
  }

  lemma NextPage(t: Tree, e: nat, t': Tree, k: nat)
    requires k < HEAP_PAGES && e < HEAP_PAGES && PageUpTo(t, e, k)
    requires t'.at.Keys == t.at.Keys + Above(Kernel, HeapPage(e)) + {Leaf(Kernel, HeapPage(e))}
    ensures PageUpTo(t', e + 1, k)
  {
    hide HeapPage;
    SharedTables(k, e);
    Levels(k);
    Levels(e);
    SameRun(k, e, PER_TABLE);
    SameRun(k, e, PER_DIRECTORY);
  }

  lemma SameRun(k: nat, e: nat, d: nat)
    requires d > 0
    ensures k / d * d < e + 1 <==> k / d * d < e || k / d == e / d
  {
    Rounds(e, d);
    if k / d * d == e { DivIs(e, k / d, 0, d); }
  }

  /** Page k of the heap is mapped for the kernel to read and write. */
  ghost predicate HeapMapped(ram: Ram, t: Tree, k: nat)
    requires Inv(ram, t) && k < HEAP_PAGES
  {
    TreeWalk(ram, t, Kernel, HeapPage(k)).Some? && TreeWalk(ram, t, Kernel, HeapPage(k)).value.fl == KERNEL_RW
  }

  /** From ram and t to ram' and t' the heap has got `more` pages behind the first `have`. */
  ghost predicate HeapGrown(ram: Ram, t: Tree, ram': Ram, t': Tree, have: nat, more: nat)
    requires Inv(ram, t) && Inv(ram', t') && have + more <= HEAP_PAGES
  {
    && (forall k: nat {:trigger HeapMapped(ram', t', k)} | have <= k < have + more :: HeapMapped(ram', t', k))
    && (forall k: nat {:trigger HeapPage(k)} | k < have :: TreeWalk(ram', t', Kernel, HeapPage(k)) == TreeWalk(ram, t, Kernel, HeapPage(k)))
  }

  lemma GrownNone(ram: Ram, t: Tree, have: nat)
    requires Inv(ram, t) && have <= HEAP_PAGES
    ensures HeapGrown(ram, t, ram, t, have, 0)
  {
  }

  lemma GrownNext(ram0: Ram, t0: Tree, ram: Ram, t: Tree, ram': Ram, t': Tree, have: nat, i: nat, frame: nat)
    requires Inv(ram0, t0) && Inv(ram, t) && Inv(ram', t') && have + i < HEAP_PAGES && HeapGrown(ram0, t0, ram, t, have, i)
    requires TreeWalk(ram', t', Kernel, HeapPage(have + i)) == Some(Entry(frame, KERNEL_RW))
    requires forall q {:trigger TreeWalk(ram', t', Kernel, q)} | Tracked(Kernel, q) && q != HeapPage(have + i) ::
      KeptPage(Kernel, q, TreeWalk(ram, t, Kernel, q), TreeWalk(ram', t', Kernel, q))
    ensures HeapGrown(ram0, t0, ram', t', have, i + 1)
  {
    hide Inv, TreeWalk, Tracked, HeapPage;
    forall k: nat {:trigger HeapPage(k)} | k < have + i
      ensures TreeWalk(ram', t', Kernel, HeapPage(k)) == TreeWalk(ram, t, Kernel, HeapPage(k))
    {
      SharedTables(k, have + i);
      TrackedByKernel(HeapPage(k));
    }
    forall k: nat | have <= k < have + i + 1 ensures HeapMapped(ram', t', k) {
      if k < have + i { assert HeapMapped(ram, t, k); }
    }
  }

  lemma GrownTrans(ram0: Ram, t0: Tree, ram: Ram, t: Tree, ram': Ram, t': Tree, have: nat, i: nat)
    requires Inv(ram0, t0) && Inv(ram, t) && Inv(ram', t') && have + i < HEAP_PAGES
    requires HeapGrown(ram0, t0, ram, t, have, i) && HeapGrown(ram, t, ram', t', have + i, 1)
    ensures HeapGrown(ram0, t0, ram', t', have, i + 1)
  {
    hide Inv, TreeWalk, HeapPage;
    forall k: nat | have <= k < have + i + 1 ensures HeapMapped(ram', t', k) {
      if k < have + i { assert HeapMapped(ram, t, k) && HeapPage(k) == HeapPage(k); } else { assert HeapMapped(ram', t', have + i); }
    }
  }

  /** A walk for a heap page can start at the loaded PML4: the kernel's, or any once the slot is there. */
  ghost predicate HeapLoaded(m: Mmu)
    reads m
  {
    m.cr3 == m.kernelPml4 || (Root(Space(m.cr3)) in m.tree.at && Child(Root(Kernel), HEAP_SLOT) in m.tree.at)
  }

  lemma HeapStarts(m: Mmu, e: nat)
    requires m.Valid() && e < HEAP_PAGES && HeapLoaded(m)
    ensures m.StartsAt(m.cr3, HeapPage(e), Kernel)
  {
    hide Linked, Shared, Granting, Pmm.Valid;
    TrackedByKernel(HeapPage(e));
    if m.cr3 != m.kernelPml4 { assert m.tree.at[Root(Space(m.cr3))] == m.cr3; }
  }

  /** The next page of the heap. */
  method GrowNextPage(m: Mmu, k: nat) returns (ok: bool)
    requires m.Valid() && HeapUpTo(m.tree, k) && k < HEAP_PAGES && HeapLoaded(m)
    modifies m`ram, m`tree, m.pmm, m.pmm.bitmap
    ensures SamePool(m) && m.Pays(ok, 1 + Starting(k))
    ensures ok ==> m.Valid() && HeapUpTo(m.tree, k + 1) && HeapLoaded(m) && Step(old(Now(m)), Now(m), {Kernel}, m.fixed)
    ensures ok ==> HeapGrown(old(m.ram), old(m.tree), m.ram, m.tree, k, 1)
  {
    hide Linked, Shared, Granting, Pmm.Valid, TreeWalk, Walk, Step, Own, HeapUpTo, Starting, HeapPage, HeapGrown;
    ghost var ram0, t0 := m.ram, m.tree;
    NextCost(m, k);
    HeapStarts(m, k);
    var frame;
    ok, frame := GrowHeapPage(m, HeapPage(k));
    if !ok { return; }
    NextUpTo(t0, k, m.tree);
    WalkIsTree(m, k);
    GrownNone(ram0, t0, k);
    GrownNext(ram0, t0, ram0, t0, m.ram, m.tree, k, 0, frame);
  }

  /** grow_heap's loop: `more` pages behind the first `have`. It runs out of frames exactly if there
      are fewer than the pages and their tables take. Every live space has the new pages, and the old
      ones are as they were. */
  method GrowHeapPages(m: Mmu, have: nat, more: nat) returns (ok: bool)
    requires m.Valid() && HeapUpTo(m.tree, have) && have + more <= HEAP_PAGES && HeapLoaded(m)
    modifies m`ram, m`tree, m.pmm, m.pmm.bitmap
    ensures SamePool(m)
    ensures (ok <==> |old(m.pmm.free)| >= GrowthFrames(have, more)) && (!ok ==> m.pmm.free == {})
    ensures ok ==> |m.pmm.free| == |old(m.pmm.free)| - GrowthFrames(have, more)
    ensures ok ==> m.Valid() && HeapUpTo(m.tree, have + more) && HeapLoaded(m) && Step(old(Now(m)), Now(m), {Kernel}, m.fixed)
    ensures ok ==> HeapGrown(old(m.ram), old(m.tree), m.ram, m.tree, have, more)
    ensures ok ==> forall s, k: nat {:trigger Walk(m.ram, s, HeapPage(k))} | Root(Space(s)) in m.tree.at && k < have + more ::
      Walk(m.ram, s, HeapPage(k)) == TreeWalk(m.ram, m.tree, Kernel, HeapPage(k))
  {
    hide Linked, Shared, Granting, Pmm.Valid, TreeWalk, Walk, Step, Own, HeapUpTo, GrowthFrames, Starting, HeapPage, HeapGrown, HeapLoaded;
    ghost var a := Now(m);
    ValidIsSound(m);
    StepRefl(a, {Kernel}, m.fixed);
    GrowthMonotone(have, 0, more);
    GrowthNone(have);
    GrownNone(a.ram, a.tree, have);
    ok := true;
    var i := 0;
    while i < more
      invariant 0 <= i <= more && SamePool(m) && m.Valid() && HeapUpTo(m.tree, have + i) && HeapLoaded(m)
      invariant |m.pmm.free| == |old(m.pmm.free)| - GrowthFrames(have, i)
      invariant Step(a, Now(m), {Kernel}, m.fixed) && HeapGrown(a.ram, a.tree, m.ram, m.tree, have, i)
    {
      GrowthNext(have, i);
      GrowthMonotone(have, i + 1, more);
      ghost var b := Now(m);
      ok := GrowNextPage(m, have + i);
      if !ok { return; }
      StepTrans(a, b, Now(m), {Kernel}, m.fixed);
      GrownTrans(a.ram, a.tree, b.ram, b.tree, m.ram, m.tree, have, i);
      i := i + 1;
    }
    forall s, k: nat {:trigger Walk(m.ram, s, HeapPage(k))} | Root(Space(s)) in m.tree.at && k < have + more
      ensures Walk(m.ram, s, HeapPage(k)) == TreeWalk(m.ram, m.tree, Kernel, HeapPage(k))
    {
      SeenBySpace(m, s, k);
    }
  }

  lemma WalkIsTree(m: Mmu, k: nat)
    requires m.Valid() && k < HEAP_PAGES
    ensures Walk(m.ram, m.kernelPml4, HeapPage(k)) == TreeWalk(m.ram, m.tree, Kernel, HeapPage(k))
  {
    hide Linked, Shared, Granting, Pmm.Valid, TreeWalk, Walk;
    TrackedByKernel(HeapPage(k));
    WalkIsTreeWalk(m.ram, m.tree, Kernel, HeapPage(k));
  }

  lemma SeenBySpace(m: Mmu, s: nat, k: nat)
    requires m.Valid() && k < HEAP_PAGES && Root(Space(s)) in m.tree.at
    ensures Walk(m.ram, s, HeapPage(k)) == TreeWalk(m.ram, m.tree, Kernel, HeapPage(k))
  {
    hide Linked, Shared, Granting, Pmm.Valid, TreeWalk, Walk;
    WalkIsTree(m, k);
    KernelHalfShared(m.ram, m.tree, s, HeapPage(k));
  }

  lemma GrowthNone(have: nat)
    ensures GrowthFrames(have, 0) == 0
  {
  }
}
