/** fork and execve over address spaces: copying a space for a child, and replacing a task's own
    space with a staged one that is thrown away when anything fails. */
module ForkAndExec {
  import opened Options
  import opened Machine
  import opened FrameBitmap
  import opened PageTables
  import opened PageTableSteps
  import opened SpaceSteps
  import opened MappingSteps
  import opened Subtrees
  import opened CloneSteps
  import opened FramePrices
  import opened AddressSpaces
  import opened Isolation
  import opened PageRanges
  import opened ProcessMemory
  import opened SpaceLifetimes
  import opened UserImages

  /** The address spaces' allocator knows the same frames as before. */
  twostate predicate SamePool(m: Mmu)
    reads m, m.pmm
  {
    m.cr3 == old(m.cr3) && m.pmm.pool == old(m.pmm.pool)
  }

  /** create_address_space as a step of the new space. */
  method StartSpace(m: Mmu) returns (ok: bool, s: nat)
    requires m.Valid() && Child(Root(Kernel), HEAP_SLOT) in m.tree.at
    modifies m`ram, m`tree, m.pmm, m.pmm.bitmap
    ensures SamePool(m)
    ensures ok ==> m.Valid() && Root(Space(s)) in m.tree.at && Vacant(old(m.tree), Space(s))
    ensures ok ==> Step(old(Now(m)), Now(m), {Space(s)}, m.fixed) && m.pmm.released == old(m.pmm.released)
    ensures ok ==> forall pg {:trigger TreeWalk(m.ram, m.tree, Space(s), pg)} | Private(pg) :: TreeWalk(m.ram, m.tree, Space(s), pg) == None
    ensures ok ==> forall pg: Page {:trigger Walk(m.ram, s, pg)} | SharedPage(pg) :: Walk(m.ram, s, pg) == Walk(m.ram, m.kernelPml4, pg)
    ensures m.Pays(ok, m.CreatePrice(old(m.tree))) && (ok ==> m.tree.at.Keys == old(m.tree.at.Keys) + SpacePaths(old(m.tree), s))
  {
    hide Linked, Shared, Granting, Pmm.Valid, TreeWalk, Walk, Step;
    ghost var a := Now(m);
    ValidIsSound(m);
    ok, s := m.CreateAddressSpace();
    if !ok { return; }
    ValidIsSound(m);
    CreateIsStep(a, Now(m), s, m.fixed);
  }

  /** destroy_address_space as a step of the space that goes. Its PML4 is free afterwards, also when
      CR3 names it. */
  method DropSpace(m: Mmu, s: nat)
    requires m.Valid() && Root(Space(s)) in m.tree.at
    modifies m`tree, m.pmm, m.pmm.bitmap
    ensures SamePool(m) && m.Valid() && Vacant(m.tree, Space(s))
    ensures Step(old(Now(m)), Now(m), {Space(s)}, m.fixed)
    ensures m.pmm.released == old(m.pmm.released) + multiset(FramesOf(old(m.tree), Space(s)))
    ensures m.ram == old(m.ram) && s in m.pmm.free
    ensures forall p {:trigger p in m.tree.at} | OwnerOf(p) != Space(s) :: p in m.tree.at <==> p in old(m.tree).at
  {
    hide Linked, Shared, Granting, Pmm.Valid, TreeWalk, Walk, Step;
    ghost var a := Now(m);
    ValidIsSound(m);
    assert m.tree.at[Root(Space(s))] == s;
    m.DestroyAddressSpace(s);
    ValidIsSound(m);
    DestroyIsStep(a, Now(m), s, m.fixed);
  }

  // ---- fork ----

  /** The memory side of fork: a new space, cloned from the parent's. When the child cannot be set
      up the new space is destroyed again. */
  method Fork(m: Mmu, parent: nat, spawned: bool) returns (ok: bool, child: nat)
    requires m.Valid() && Child(Root(Kernel), HEAP_SLOT) in m.tree.at && Root(Space(parent)) in m.tree.at && m.cr3 == parent
    modifies m`ram, m`tree, m.pmm, m.pmm.bitmap
    ensures SamePool(m)
    ensures ok ==> m.Valid()
    ensures ok && spawned ==>
      && Root(Space(child)) in m.tree.at && Vacant(old(m.tree), Space(child)) && child != parent
      && Step(old(Now(m)), Now(m), {Space(child)}, m.fixed)
      && forall pg {:trigger Copied(m.ram, m.tree, parent, child, pg)} | Private(pg) :: Copied(m.ram, m.tree, parent, child, pg)
    ensures ok && !spawned ==> Step(old(Now(m)), Now(m), {}, m.fixed) && m.pmm.free == old(m.pmm.free)
    ensures (ok <==> |old(m.pmm.free)| >= ForkPrice(m, old(m.tree), parent)) && (!ok ==> m.pmm.free == {})
  {
    hide Linked, Shared, Granting, Pmm.Valid, TreeWalk, Walk, Step, Copied, OthersKept, Private, CreateStep, Copies, Bought, SpacePaths, Mmu.CreatePrice;
    ghost var a := Now(m);
    FreeIsRest(m);
    ok, child := StartSpace(m);
    if !ok { return; }
    ghost var b := Now(m);
    ValidIsSound(m);
    SpaceStays(a, b, parent, {Space(child)}, m.fixed);
    CloneRest(a.tree, b.tree, parent, child, m.ALL_PAGES);
    ok := m.CloneAddressSpace(child, parent);
    if !ok { return; }
    ValidIsSound(m);
    ghost var c := Now(m);
    CloneIsStep(b, c, child, m.fixed);
    StepTrans(a, b, c, {Space(child)}, m.fixed);
    if !spawned { Abandon(m, child, a); }
  }

  /** fork: the child gets the copy, the break and the mmap pointer of its parent, and its regions are as
      right as the parent's. */
  method ForkTask(task: Process, spawned: bool) returns (ok: bool, child: Process?)
    requires task.Valid() && Child(Root(Kernel), HEAP_SLOT) in task.mmu.tree.at
    modifies task.mmu`ram, task.mmu`tree, task.mmu.pmm, task.mmu.pmm.bitmap
    ensures ok ==> task.Valid() && (child != null <==> spawned)
    ensures ok && spawned ==>
      && fresh(child) && child.mmu == task.mmu && child.cr3 != task.cr3 && Vacant(old(task.mmu.tree), Space(child.cr3))
      && child.brkStart == task.brkStart && child.brkCur == task.brkCur && child.mmapNext == task.mmapNext
      && Root(Space(child.cr3)) in task.mmu.tree.at && child.Regions()
      && Step(old(Now(task.mmu)), Now(task.mmu), {Space(child.cr3)}, task.mmu.fixed)
      && forall pg {:trigger Copied(task.mmu.ram, task.mmu.tree, task.cr3, child.cr3, pg)} | Private(pg) ::
           Copied(task.mmu.ram, task.mmu.tree, task.cr3, child.cr3, pg)
    ensures ok && !spawned ==> Step(old(Now(task.mmu)), Now(task.mmu), {}, task.mmu.fixed) && task.mmu.pmm.free == old(task.mmu.pmm.free)
    ensures (ok <==> |old(task.mmu.pmm.free)| >= ForkPrice(task.mmu, old(task.mmu.tree), task.cr3)) && (!ok ==> task.mmu.pmm.free == {})
  {
    hide Inv, Granting, Step, Copied, Private, Unmapped, ForkPrice, Mmu.Valid, PageOf, Vacant;
    child := null;
    ghost var a := Now(task.mmu);
    var m, parent := task.mmu, task.cr3;
    ActiveGood(m, parent);
    ActiveValid(m, parent);
    var s;
    ok, s := Fork(m, parent, spawned);
    if !ok { return; }
    ghost var who := if spawned then {Space(s)} else {};
    SpaceStays(a, Now(m), parent, who, m.fixed);
    RegionsStay(a, Now(m), parent, who, m.fixed, PageUp(task.brkCur) / PAGE_SIZE, BRK_CEILING / PAGE_SIZE);
    RegionsStay(a, Now(m), parent, who, m.fixed, task.mmapNext / PAGE_SIZE, STACK_BASE / PAGE_SIZE);
    if !spawned { return; }
    ActiveGood(m, parent);
    child := new Process(m, s, task.brkStart);
    child.brkCur, child.mmapNext := task.brkCur, task.mmapNext;
    CopiedUnmapped(m.ram, m.tree, parent, s, task);
  }

  lemma ActiveValid(m: Mmu, s: nat)
    requires Active(m, s)
    ensures m.Valid() && m.cr3 == s && Root(Space(s)) in m.tree.at
  {
  }

  /** What is unmapped in a space that nobody works on stays so. */
  lemma RegionsStay(a: Moment, b: Moment, s: nat, who: set<Owner>, fixed: set<nat>, lo: nat, hi: nat)
    requires Step(a, b, who, fixed) && Space(s) !in who && Unmapped(a.tree, s, lo, hi)
    ensures Unmapped(b.tree, s, lo, hi)
  {
    hide Inv, Granting, PageOf, PagesKept, Own;
    forall n: nat | lo <= n < hi ensures Leaf(Space(s), PageOf(n)) !in b.tree.at {
      OwnSteps(Space(s), PageOf(n));
      assert OwnerOf(Leaf(Space(s), PageOf(n))) !in who;
    }
  }

  /** What the parent has unmapped, the child has unmapped. */
  lemma CopiedUnmapped(ram: Ram, t: Tree, parent: nat, child: nat, task: Process)
    requires Good(ram, t) && task.Regions() && task.mmu.tree == t && task.cr3 == parent
    requires forall pg {:trigger Copied(ram, t, parent, child, pg)} | Private(pg) :: Copied(ram, t, parent, child, pg)
    ensures Unmapped(t, child, PageUp(task.brkCur) / PAGE_SIZE, BRK_CEILING / PAGE_SIZE)
    ensures Unmapped(t, child, task.mmapNext / PAGE_SIZE, STACK_BASE / PAGE_SIZE)
  {
    hide Inv, Granting, PageOf, Private, TreeWalk, Unmapped;
    Pages(task.brkCur);
    WindowIsPrivate(PageUp(task.brkCur) / PAGE_SIZE, BRK_CEILING / PAGE_SIZE);
    UpperIsPrivate(task.mmapNext / PAGE_SIZE, STACK_BASE / PAGE_SIZE);
    RunUnmapped(ram, t, parent, child, PageUp(task.brkCur) / PAGE_SIZE, BRK_CEILING / PAGE_SIZE);
    RunUnmapped(ram, t, parent, child, task.mmapNext / PAGE_SIZE, STACK_BASE / PAGE_SIZE);
  }

  lemma RunUnmapped(ram: Ram, t: Tree, parent: nat, child: nat, lo: nat, hi: nat)
    requires Good(ram, t) && PrivateRun(lo, hi) && Unmapped(t, parent, lo, hi)
    requires forall pg {:trigger Copied(ram, t, parent, child, pg)} | Private(pg) :: Copied(ram, t, parent, child, pg)
    ensures Unmapped(t, child, lo, hi)
  {
    hide Inv, Granting, PageOf, Private, TreeWalk;
    forall n: nat | lo <= n < hi ensures Leaf(Space(child), PageOf(n)) !in t.at {
      TrackedIsPrivate(parent, PageOf(n));
      TrackedIsPrivate(child, PageOf(n));
      MappedFrame(ram, t, Space(parent), PageOf(n));
      MappedFrame(ram, t, Space(child), PageOf(n));
      assert Copied(ram, t, parent, child, PageOf(n));
    }
  }

  /** The frames that a fork needs: a new space, a copy of every private page, and the tables on the way
      to the copies that a new space does not have. */
  ghost function ForkPrice(m: Mmu, t: Tree, parent: nat): nat {
    m.CreatePrice(t) + |Copies(t.at.Keys, parent, Space(parent), 0, m.ALL_PAGES) - SpacePaths(t, parent)|
  }

  /** What is left to pay once the new space is there. */
  lemma CloneRest(t: Tree, t1: Tree, parent: nat, child: nat, end: nat)
    requires Vacant(t, Space(child)) && child != parent && t1.at.Keys == t.at.Keys + SpacePaths(t, child)
    ensures |Copies(t1.at.Keys, parent, Space(child), 0, end) - t1.at.Keys| == |Copies(t.at.Keys, parent, Space(parent), 0, end) - SpacePaths(t, parent)|
  {
    hide Copies, SpacePaths, MovedSet;
    ShellOwned(t, child);
    CopiesSame(t.at.Keys, t1.at.Keys, parent, Space(child), 0, end);
    MovedCopies(t.at.Keys, parent, Space(parent), Space(child), 0, end);
    CopiesOwned(t.at.Keys, parent, Space(parent), 0, end);
    NewPrice(t.at.Keys, t, parent, child, Copies(t.at.Keys, parent, Space(parent), 0, end));
  }

  /** Throw away a space that came into being after the moment a. */
  method Abandon(m: Mmu, s: nat, ghost a: Moment)
    requires m.Valid() && Root(Space(s)) in m.tree.at
    requires Step(a, Now(m), {Space(s)}, m.fixed) && Vacant(a.tree, Space(s))
    modifies m`tree, m.pmm, m.pmm.bitmap
    ensures SamePool(m) && m.Valid() && Step(a, Now(m), {}, m.fixed) && m.pmm.Live() == a.live
    ensures a.live <= m.pmm.pool ==> m.pmm.free == m.pmm.pool - a.live
  {
    hide Linked, Shared, Granting, Pmm.Valid, TreeWalk, Step;
    ghost var b := Now(m);
    DropSpace(m, s);
    StepTrans(a, b, Now(m), {Space(s)}, m.fixed);
    BothVacant(a, Now(m), {Space(s)}, m.fixed);
    FreeIsRest(m);
  }

  lemma FreeIsRest(m: Mmu)
    requires m.Valid()
    ensures m.pmm.free == m.pmm.pool - m.pmm.Live() && m.pmm.Live() <= m.pmm.pool
  {
    hide Good;
    assert m.pmm.free <= m.pmm.pool;
  }

  lemma SpaceStays(a: Moment, b: Moment, s: nat, who: set<Owner>, fixed: set<nat>)
    requires Step(a, b, who, fixed) && Space(s) !in who
    ensures Root(Space(s)) in b.tree.at <==> Root(Space(s)) in a.tree.at
  {
    assert OwnerOf(Root(Space(s))) == Space(s);
  }

  // ---- execve ----

  const ENOENT: int := 2
  const E2BIG: int := 7

  const STACK_LO: nat := STACK_BASE / PAGE_SIZE
  const STACK_HI: nat := STACK_TOP / PAGE_SIZE

  /** The pieces of an image lie in the window, below its highest address. */
  ghost predicate InWindow(plan: seq<Piece>, highest: nat) {
    && WINDOW_BASE <= highest <= BRK_CEILING && highest % PAGE_SIZE == 0
    && forall i {:trigger plan[i]} | 0 <= i < |plan| :: WINDOW_BASE / PAGE_SIZE <= plan[i].lo && plan[i].Hi() <= highest / PAGE_SIZE
  }

  /** Space s holds the image, a stack, and the start block at the top of the stack. */
  ghost predicate Staged(ram: Ram, t: Tree, s: nat, plan: seq<Piece>, block: seq<Entry>)
    requires Inv(ram, t)
  {
    && FirstLoaded(ram, t, s, plan, |plan|)
    && MappedRun(ram, t, s, STACK_LO, STACK_HI, USER_RW)
    && |block| <= (STACK_HI - STACK_LO) * 512
    && forall j: nat {:trigger block[j]} | j < |block| :: UserWord(ram, t, s, STACK_HI * 512 - |block| + j) == Some(block[j])
  }

  /** What the break and mmap regions of a new image look like. */
  ghost predicate RegionsFree(t: Tree, s: nat, highest: nat) {
    Unmapped(t, s, highest / PAGE_SIZE, BRK_CEILING / PAGE_SIZE) && Unmapped(t, s, MMAP_BASE / PAGE_SIZE, STACK_LO)
  }

  /** Pages the plan does not cover are unmapped. */
  lemma RegionsUncovered(t: Tree, s: nat, plan: seq<Piece>, highest: nat)
    requires Plan(plan) && InWindow(plan, highest) && OnlyCovered(t, s, plan, |plan|)
    ensures RegionsFree(t, s, highest) && Unmapped(t, s, STACK_LO, STACK_HI)
  {
    hide PageOf, Private;
    WindowIsPrivate(highest / PAGE_SIZE, BRK_CEILING / PAGE_SIZE);
    UpperIsPrivate(MMAP_BASE / PAGE_SIZE, STACK_HI);
    forall n: nat | highest / PAGE_SIZE <= n ensures !Covered(plan[..|plan|], n) {
      assert plan[..|plan|] == plan;
    }
  }

  lemma NothingCovered(ram: Ram, t: Tree, s: nat, plan: seq<Piece>)
    requires Good(ram, t)
    requires forall pg {:trigger TreeWalk(ram, t, Space(s), pg)} | Private(pg) :: TreeWalk(ram, t, Space(s), pg) == None
    ensures OnlyCovered(t, s, plan, 0)
  {
    hide PageOf, TreeWalk, Private, Inv, Granting;
    forall n: nat | n < 0x10_0000_0000 && Private(PageOf(n)) ensures Leaf(Space(s), PageOf(n)) !in t.at {
      TrackedIsPrivate(s, PageOf(n));
      MappedFrame(ram, t, Space(s), PageOf(n));
    }
  }

  /** The image stays while pages away from it are edited. */
  lemma ImageStays(ram: Ram, t: Tree, ram': Ram, t': Tree, s: nat, plan: seq<Piece>, highest: nat)
    requires Inv(ram, t) && Inv(ram', t') && Plan(plan) && InWindow(plan, highest)
    requires FirstLoaded(ram, t, s, plan, |plan|) && KeptExcept(ram, t, ram', t', s, STACK_LO, STACK_HI)
    ensures FirstLoaded(ram', t', s, plan, |plan|)
  {
    hide Inv, PrivateRun, PieceLoaded, KeptExcept;
    forall k | 0 <= k < |plan| ensures PieceLoaded(ram', t', s, plan[k], |plan[k].pages|) {
      PieceStays(ram, t, ram', t', s, plan[k], |plan[k].pages|, STACK_LO, STACK_HI);
    }
  }

  /** Map the stack and, if the start block fits, copy it to the top. */
  method StageStack(m: Mmu, plan: seq<Piece>, highest: nat, fits: bool, block: seq<Entry>, s: nat) returns (ok: bool)
    requires Active(m, s) && Plan(plan) && InWindow(plan, highest)
    requires FirstLoaded(m.ram, m.tree, s, plan, |plan|) && OnlyCovered(m.tree, s, plan, |plan|)
    requires fits ==> |block| <= (STACK_HI - STACK_LO) * 512
    modifies m`ram, m`tree, m.pmm, m.pmm.bitmap
    ensures ok ==> PageOp(m, s, STACK_LO, STACK_HI) && m.pmm.released == old(m.pmm.released)
    ensures ok && fits ==> Staged(m.ram, m.tree, s, plan, block) && RegionsFree(m.tree, s, highest)
    ensures m.Buys(ok, RunChains(Space(s), STACK_LO, STACK_HI))
  {
    hide Inv, Granting, Mmu.Valid, TreeWalk, Num, KeptExcept, Private, PageOf, FirstLoaded, OnlyCovered, OtherRoles, UserWord, RunChains, Bought;
    ghost var ram0, t0 := m.ram, m.tree;
    ActiveGood(m, s);
    RegionsUncovered(t0, s, plan, highest);
    UpperIsPrivate(STACK_LO, STACK_HI);
    ok := MapStack(m, STACK_LO, STACK_HI, USER_RW, s);
    if !ok { return; }
    ghost var ram1, t1 := m.ram, m.tree;
    ActiveGood(m, s);
    StillUnmapped(ram0, t0, ram1, t1, s, STACK_LO, STACK_HI, highest / PAGE_SIZE, BRK_CEILING / PAGE_SIZE);
    StillUnmapped(ram0, t0, ram1, t1, s, STACK_LO, STACK_HI, MMAP_BASE / PAGE_SIZE, STACK_LO);
    if !fits { return; }
    CopyWordsToUser(m, STACK_HI * 512 - |block|, block, s, STACK_LO, STACK_HI, USER_RW);
    ActiveGood(m, s);
    OtherRolesTrans(t0, t1, m.tree, s);
    KeptTwice(ram0, t0, ram1, t1, m.ram, m.tree, s, STACK_LO, STACK_HI);
    ImageStays(ram0, t0, m.ram, m.tree, s, plan, highest);
    BlockReads(ram1, t1, m.ram, m.tree, s, block);
  }

  lemma BlockReads(ram: Ram, t: Tree, ram': Ram, t': Tree, s: nat, block: seq<Entry>)
    requires Inv(ram, t) && Inv(ram', t') && |block| <= (STACK_HI - STACK_LO) * 512
    requires Written(ram, t, ram', t', s, STACK_LO, STACK_HI, STACK_HI * 512 - |block|, block)
    ensures forall j: nat {:trigger block[j]} | j < |block| :: UserWord(ram', t', s, STACK_HI * 512 - |block| + j) == Some(block[j])
  {
    hide Inv, PageOf, TreeWalk, UserWord;
    forall j: nat | j < |block| ensures UserWord(ram', t', s, STACK_HI * 512 - |block| + j) == Some(block[j]) {
      var n: nat := STACK_HI * 512 - |block| + j;
      assert STACK_LO <= n / 512 < STACK_HI;
      assert block[n - (STACK_HI * 512 - |block|)] == block[j];
    }
  }

  /** The image stays while another space is worked on. */
  lemma StagedStays(a: Moment, b: Moment, s: nat, other: nat, plan: seq<Piece>, block: seq<Entry>, highest: nat, fixed: set<nat>)
    requires Step(a, b, {Space(other)}, fixed) && s != other && Plan(plan)
    requires Staged(a.ram, a.tree, s, plan, block) && RegionsFree(a.tree, s, highest)
    ensures Staged(b.ram, b.tree, s, plan, block) && RegionsFree(b.tree, s, highest)
  {
    hide Inv, Granting, PageOf, TreeWalk, Num, Private, Staged, PagesKept, Own;
    assert PagesKept(a, b, {Space(other)});
    assert a.tree.Injective() && b.tree.Injective() by { SoundTree(a, fixed); SoundTree(b, fixed); }
    StagedPages(a, b, s, other, plan, block);
    forall n: nat ensures Leaf(Space(s), PageOf(n)) in b.tree.at <==> Leaf(Space(s), PageOf(n)) in a.tree.at {
      OwnSteps(Space(s), PageOf(n));
      assert OwnerOf(Leaf(Space(s), PageOf(n))) !in {Space(other)};
    }
  }

  lemma SoundTree(a: Moment, fixed: set<nat>)
    requires Sound(a, fixed)
    ensures a.tree.Injective()
  {
  }

  lemma StagedPages(a: Moment, b: Moment, s: nat, other: nat, plan: seq<Piece>, block: seq<Entry>)
    requires Inv(a.ram, a.tree) && Inv(b.ram, b.tree) && PagesKept(a, b, {Space(other)}) && s != other && Plan(plan)
    requires Staged(a.ram, a.tree, s, plan, block)
    ensures Staged(b.ram, b.tree, s, plan, block)
  {
    hide Inv, PageOf, TreeWalk, Num, Private, Own;
    UpperIsPrivate(STACK_LO, STACK_HI);
    forall n: nat | Private(PageOf(n)) ensures PageKept(a.ram, a.tree, b.ram, b.tree, Space(s), PageOf(n)) {
      TrackedIsPrivate(s, PageOf(n));
      assert Space(s) !in {Space(other)};
    }
    forall k | 0 <= k < |plan| ensures PieceLoaded(b.ram, b.tree, s, plan[k], |plan[k].pages|) {
      assert PrivateRun(plan[k].lo, plan[k].Hi());
    }
    forall j: nat | j < |block| ensures UserWord(b.ram, b.tree, s, STACK_HI * 512 - |block| + j) == Some(block[j]) {
      var n: nat := STACK_HI * 512 - |block| + j;
      assert STACK_LO <= n / 512 < STACK_HI;
      assert Private(PageOf(n / 512));
    }
  }

  /** Load the image and, if the loader accepts the file, map the stack. */
  method StageImage(m: Mmu, plan: seq<Piece>, found: bool, highest: nat, fits: bool, block: seq<Entry>, s: nat) returns (ok: bool)
    requires Active(m, s) && Plan(plan) && InWindow(plan, highest) && OnlyCovered(m.tree, s, plan, 0)
    requires fits ==> |block| <= (STACK_HI - STACK_LO) * 512
    modifies m`ram, m`tree, m.pmm, m.pmm.bitmap
    ensures ok ==> Active(m, s) && m.pmm.pool == old(m.pmm.pool) && m.pmm.released == old(m.pmm.released)
    ensures ok ==> Step(old(Now(m)), Now(m), {Space(s)}, m.fixed)
    ensures ok && found && fits ==> Staged(m.ram, m.tree, s, plan, block) && RegionsFree(m.tree, s, highest)
    ensures m.Buys(ok, ImageChains(Space(s), plan, found))
  {
    hide Inv, Granting, Mmu.Valid, TreeWalk, Num, KeptExcept, PrivateRun, Step, OnlyCovered, OtherRoles, FirstLoaded, Staged, Private, PageOf,
      RunChains, PlanChains, Bought;
    ghost var a, n0 := Now(m), |m.pmm.free|;
    ok := LoadPlan(m, plan, s);
    ImageOn(a.tree.at.Keys, n0, m.tree.at.Keys, |m.pmm.free|, ok, Space(s), plan, found);
    if !ok || !found { return; }
    ghost var c, n1 := Now(m), |m.pmm.free|;
    ActiveGood(m, s);
    ValidIsSound(m);
    ok := StageStack(m, plan, highest, fits, block, s);
    StackOn(a.tree.at.Keys, n0, c.tree.at.Keys, n1, m.tree.at.Keys, |m.pmm.free|, ok, Space(s), plan);
    if !ok { return; }
    ValidIsSound(m);
    EditIsStep(c, Now(m), s, STACK_LO, STACK_HI, m.fixed);
    StepTrans(a, c, Now(m), {Space(s)}, m.fixed);
  }

  /** The positions behind the pages of an image and, once it is accepted, its stack. */
  ghost function ImageChains(o: Owner, plan: seq<Piece>, found: bool): set<Path> {
    PlanChains(o, plan, |plan|) + (if found then RunChains(o, STACK_LO, STACK_HI) else {})
  }

  lemma ImageOn(k0: set<Path>, n0: int, k1: set<Path>, n1: nat, ok: bool, o: Owner, plan: seq<Piece>, found: bool)
    requires ok <==> n0 >= |PlanChains(o, plan, |plan|) - k0|
    requires ok ==> Bought(k0, n0, k1, n1, PlanChains(o, plan, |plan|))
    ensures !ok ==> n0 < |ImageChains(o, plan, found) - k0|
    ensures ok && !found ==> Bought(k0, n0, k1, n1, ImageChains(o, plan, found)) && n0 >= |ImageChains(o, plan, found) - k0|
  {
    hide PlanChains, RunChains, Bought;
    var f := PlanChains(o, plan, |plan|);
    if !ok {
      BoughtNothing(k0, n0);
      assert {} + f == f;
      Short(k0, n0, k0, n0, {}, f, ImageChains(o, plan, found));
    }
    assert f + {} == f;
  }

  lemma StackOn(k0: set<Path>, n0: int, k1: set<Path>, n1: int, k2: set<Path>, n2: nat, ok: bool, o: Owner, plan: seq<Piece>)
    requires Bought(k0, n0, k1, n1, PlanChains(o, plan, |plan|))
    requires ok <==> n1 >= |RunChains(o, STACK_LO, STACK_HI) - k1|
    requires ok ==> Bought(k1, n1, k2, n2, RunChains(o, STACK_LO, STACK_HI))
    ensures ok ==> Bought(k0, n0, k2, n2, ImageChains(o, plan, true))
    ensures ok <==> n0 >= |ImageChains(o, plan, true) - k0|
  {
    hide PlanChains, RunChains, Bought;
    var f, g := PlanChains(o, plan, |plan|), RunChains(o, STACK_LO, STACK_HI);
    if ok {
      BoughtThen(k0, n0, k1, n1, k2, n2, f, g);
      Afforded(k0, n0, k2, n2, f + g);
    } else {
      Short(k0, n0, k1, n1, f, g, f + g);
    }
  }

  /** The frames that execve needs: a new space, the pages of the image and of the stack, and the tables
      on the way to them that a new space does not have. */
  ghost function ExecPrice(m: Mmu, t: Tree, cr3: nat, plan: seq<Piece>, found: bool): nat {
    m.CreatePrice(t) + |ImageChains(Space(cr3), plan, found) - SpacePaths(t, cr3)|
  }

  lemma MovedRun(o: Owner, o': Owner, lo: nat, hi: nat)
    ensures MovedSet(RunChains(o, lo, hi), o') == RunChains(o', lo, hi)
  {
    hide Chain, Moved, PageOf;
    forall q | q in RunChains(o, lo, hi) ensures Moved(q, o') in RunChains(o', lo, hi) {
      var n: nat :| lo <= n < hi && q in Chain(o, PageOf(n));
      MovedChain(o, PageOf(n), o');
      assert Moved(q, o') in Chain(o', PageOf(n));
    }
    forall q | q in RunChains(o', lo, hi) ensures q in MovedSet(RunChains(o, lo, hi), o') {
      var n: nat :| lo <= n < hi && q in Chain(o', PageOf(n));
      MovedChain(o, PageOf(n), o');
      var r :| r in Chain(o, PageOf(n)) && q == Moved(r, o');
      assert r in RunChains(o, lo, hi);
    }
  }

  lemma {:induction false} MovedPlan(o: Owner, o': Owner, plan: seq<Piece>, count: nat)
    requires count <= |plan|
    ensures MovedSet(PlanChains(o, plan, count), o') == PlanChains(o', plan, count)
    decreases count
  {
    hide RunChains;
    if count > 0 {
      MovedPlan(o, o', plan, count - 1);
      MovedRun(o, o', plan[count - 1].lo, plan[count - 1].Hi());
      MovedUnion(PlanChains(o, plan, count - 1), RunChains(o, plan[count - 1].lo, plan[count - 1].Hi()), o');
    }
  }

  lemma RunOwned(o: Owner, lo: nat, hi: nat)
    ensures forall q {:trigger q in RunChains(o, lo, hi)} | q in RunChains(o, lo, hi) :: OwnerOf(q) == o
  {
    forall q | q in RunChains(o, lo, hi) ensures OwnerOf(q) == o {
      var n: nat :| lo <= n < hi && q in Chain(o, PageOf(n));
      OwnSteps(o, PageOf(n));
      assert OwnerOf(Child(Root(o), PageOf(n).i4)) == o;
    }
  }

  lemma {:induction false} PlanOwned(o: Owner, plan: seq<Piece>, count: nat)
    requires count <= |plan|
    ensures forall q {:trigger q in PlanChains(o, plan, count)} | q in PlanChains(o, plan, count) :: OwnerOf(q) == o
    decreases count
  {
    hide RunChains;
    if count > 0 {
      PlanOwned(o, plan, count - 1);
      RunOwned(o, plan[count - 1].lo, plan[count - 1].Hi());
    }
  }

  /** What is left to pay once the new space is there. */
  lemma ImageRest(t: Tree, t1: Tree, cr3: nat, s: nat, plan: seq<Piece>, found: bool)
    requires Vacant(t, Space(s)) && t1.at.Keys == t.at.Keys + SpacePaths(t, s)
    ensures |ImageChains(Space(s), plan, found) - t1.at.Keys| == |ImageChains(Space(cr3), plan, found) - SpacePaths(t, cr3)|
  {
    hide RunChains, PlanChains, SpacePaths, MovedSet;
    var o, o' := Space(cr3), Space(s);
    MovedPlan(o, o', plan, |plan|);
    MovedRun(o, o', STACK_LO, STACK_HI);
    MovedUnion(PlanChains(o, plan, |plan|), if found then RunChains(o, STACK_LO, STACK_HI) else {}, o');
    NothingMoved(o');
    PlanOwned(o, plan, |plan|);
    RunOwned(o, STACK_LO, STACK_HI);
    NewPrice(t.at.Keys, t, cr3, s, ImageChains(o, plan, found));
  }

  lemma NothingMoved(o: Owner)
    ensures MovedSet({}, o) == {}
  {
  }

  /** execve's handling of address spaces. `found` says whether the loader accepted the file after
      loading `plan`, `fits` whether the start block fits the stack. */
  method Execve(task: Process, plan: seq<Piece>, found: bool, highest: nat, fits: bool, block: seq<Entry>) returns (ok: bool, r: int)
    requires Active(task.mmu, task.cr3) && Child(Root(Kernel), HEAP_SLOT) in task.mmu.tree.at
    requires Plan(plan) && InWindow(plan, highest) && (fits ==> |block| <= (STACK_HI - STACK_LO) * 512)
    modifies task, task.mmu`ram, task.mmu`tree, task.mmu`cr3, task.mmu.pmm, task.mmu.pmm.bitmap
    ensures ok ==> Active(task.mmu, task.cr3)
    ensures ok ==> r == if !found then -ENOENT else if !fits then -E2BIG else 0
    ensures ok && r < 0 ==>
      && task.cr3 == old(task.cr3) && task.mmu.pmm.free == old(task.mmu.pmm.free)
      && Step(old(Now(task.mmu)), Now(task.mmu), {}, task.mmu.fixed)
    ensures ok && r == -ENOENT ==> task.brkStart == old(task.brkStart) && task.brkCur == old(task.brkCur) && task.mmapNext == old(task.mmapNext)
    ensures ok && r == -E2BIG ==> task.brkStart == task.brkCur == highest && task.mmapNext == MMAP_BASE
    ensures ok && r == 0 ==>
      && task.Valid() && Staged(task.mmu.ram, task.mmu.tree, task.cr3, plan, block)
      && Grants(task.mmu.ram, task.cr3, STACK_LO, STACK_HI, true, false)
      && task.brkStart == task.brkCur == highest && task.mmapNext == MMAP_BASE
      && Vacant(old(task.mmu.tree), Space(task.cr3)) && Vacant(task.mmu.tree, Space(old(task.cr3)))
      && Step(old(Now(task.mmu)), Now(task.mmu), {Space(old(task.cr3)), Space(task.cr3)}, task.mmu.fixed)
      && task.mmu.pmm.released == old(task.mmu.pmm.released) + multiset(FramesOf(old(task.mmu.tree), Space(old(task.cr3))))
    ensures (ok <==> |old(task.mmu.pmm.free)| >= ExecPrice(task.mmu, old(task.mmu.tree), old(task.cr3), plan, found))
    ensures !ok ==> task.mmu.pmm.free == {}
  {
    hide Inv, Granting, Mmu.Valid, TreeWalk, Num, KeptExcept, PrivateRun, Step, OnlyCovered, OtherRoles, FirstLoaded, Staged, Private, PageOf,
      ImageChains, SpacePaths, Bought, Mmu.CreatePrice, RegionsFree;
    var m := task.mmu;
    ghost var a := Now(m);
    var oldCr3 := task.cr3;
    ActiveGood(m, oldCr3);
    FreeIsRest(m);
    var newCr3;
    ok, newCr3 := StartSpace(m);
    r := 0;
    if !ok { return; }
    ghost var b := Now(m);
    NewIsEmpty(m, oldCr3, newCr3, a, plan);
    ImageRest(a.tree, b.tree, oldCr3, newCr3, plan, found);
    SwitchTo(task, newCr3);
    ok := StageImage(m, plan, found, highest, fits, block, newCr3);
    if !ok { return; }
    StepTrans(a, b, Now(m), {Space(newCr3)}, m.fixed);
    r := Finish(task, plan, found, highest, fits, block, oldCr3, a);
    if r == 0 {
      ActiveGood(m, task.cr3);
      StackGrants(m.ram, m.tree, task.cr3, plan, block);
    }
  }

  /** The stack is writable and not executable. */
  lemma StackGrants(ram: Ram, t: Tree, s: nat, plan: seq<Piece>, block: seq<Entry>)
    requires Good(ram, t) && Root(Space(s)) in t.at && Staged(ram, t, s, plan, block)
    ensures Grants(ram, s, STACK_LO, STACK_HI, true, false)
  {
    hide Inv, Granting, TreeWalk, PageOf, Private, FirstLoaded, Grants;
    UpperIsPrivate(STACK_LO, STACK_HI);
    RunGrants(ram, t, s, STACK_LO, STACK_HI, USER_RW, true, false);
  }

  /** execve after the loader: back to the old space, or on to the new one. */
  method Finish(task: Process, plan: seq<Piece>, found: bool, highest: nat, fits: bool, block: seq<Entry>, oldCr3: nat, ghost a: Moment) returns (r: int)
    requires Active(task.mmu, task.cr3) && oldCr3 != task.cr3 && Vacant(a.tree, Space(task.cr3)) && Plan(plan) && InWindow(plan, highest)
    requires Step(a, Now(task.mmu), {Space(task.cr3)}, task.mmu.fixed) && Root(Space(oldCr3)) in a.tree.at && a.live <= task.mmu.pmm.pool
    requires found && fits ==> Staged(task.mmu.ram, task.mmu.tree, task.cr3, plan, block) && RegionsFree(task.mmu.tree, task.cr3, highest)
    modifies task, task.mmu`tree, task.mmu`cr3, task.mmu.pmm, task.mmu.pmm.bitmap
    ensures Active(task.mmu, task.cr3) && r == if !found then -ENOENT else if !fits then -E2BIG else 0
    ensures r < 0 ==>
      && task.cr3 == oldCr3 && task.mmu.pmm.free == task.mmu.pmm.pool - a.live && task.mmu.pmm.pool == old(task.mmu.pmm.pool)
      && Step(a, Now(task.mmu), {}, task.mmu.fixed)
    ensures r == -ENOENT ==> task.brkStart == old(task.brkStart) && task.brkCur == old(task.brkCur) && task.mmapNext == old(task.mmapNext)
    ensures r == -E2BIG ==> task.brkStart == task.brkCur == highest && task.mmapNext == MMAP_BASE
    ensures r == 0 ==>
      && task.cr3 == old(task.cr3) && task.Valid() && Staged(task.mmu.ram, task.mmu.tree, task.cr3, plan, block)
      && task.brkStart == task.brkCur == highest && task.mmapNext == MMAP_BASE && Vacant(task.mmu.tree, Space(oldCr3))
      && Step(a, Now(task.mmu), {Space(oldCr3), Space(task.cr3)}, task.mmu.fixed)
      && task.mmu.pmm.released == old(task.mmu.pmm.released) + multiset(FramesOf(a.tree, Space(oldCr3)))
  {
    hide Inv, Granting, TreeWalk, Step, Staged, Plan, Pmm.Valid, RegionsFree, FramesOf;
    if !found {
      Restore(task, oldCr3, a);
      return -ENOENT;
    }
    task.brkStart, task.brkCur, task.mmapNext := highest, highest, MMAP_BASE;
    if !fits {
      Restore(task, oldCr3, a);
      return -E2BIG;
    }
    Commit(task, plan, highest, block, oldCr3, a);
    r := 0;
  }

  /** The task's field first, then CR3. */
  method SwitchTo(task: Process, s: nat)
    requires task.mmu.Valid()
    modifies task`cr3, task.mmu`cr3
    ensures task.mmu.Valid() && task.cr3 == task.mmu.cr3 == s
  {
    hide Good, Pmm.Valid;
    task.cr3 := s;
    task.mmu.cr3 := s;
  }

  /** The staged space is empty and is not the old one. */
  lemma NewIsEmpty(m: Mmu, oldCr3: nat, newCr3: nat, a: Moment, plan: seq<Piece>)
    requires m.Valid() && Step(a, Now(m), {Space(newCr3)}, m.fixed) && Vacant(a.tree, Space(newCr3)) && Root(Space(oldCr3)) in a.tree.at
    requires forall pg {:trigger TreeWalk(m.ram, m.tree, Space(newCr3), pg)} | Private(pg) :: TreeWalk(m.ram, m.tree, Space(newCr3), pg) == None
    ensures newCr3 != oldCr3 && OnlyCovered(m.tree, newCr3, plan, 0)
  {
    hide TreeWalk, Private, OnlyCovered;
    assert OwnerOf(Root(Space(oldCr3))) == Space(oldCr3);
    NothingCovered(m.ram, m.tree, newCr3, plan);
  }

  /** A failed execve: back to the old space, and the staged one is thrown away. */
  method Restore(task: Process, oldCr3: nat, ghost a: Moment)
    requires Active(task.mmu, task.cr3) && oldCr3 != task.cr3 && Vacant(a.tree, Space(task.cr3))
    requires Step(a, Now(task.mmu), {Space(task.cr3)}, task.mmu.fixed) && Root(Space(oldCr3)) in a.tree.at
    requires a.live <= task.mmu.pmm.pool
    modifies task`cr3, task.mmu`tree, task.mmu`cr3, task.mmu.pmm, task.mmu.pmm.bitmap
    ensures Active(task.mmu, task.cr3) && task.cr3 == oldCr3
    ensures task.mmu.pmm.pool == old(task.mmu.pmm.pool) && task.mmu.pmm.free == task.mmu.pmm.pool - a.live
    ensures Step(a, Now(task.mmu), {}, task.mmu.fixed)
  {
    hide Inv, Granting, TreeWalk, Step, Pmm.Valid;
    var newCr3 := task.cr3;
    SwitchTo(task, oldCr3);
    Abandon(task.mmu, newCr3, a);
    SpaceStays(a, Now(task.mmu), oldCr3, {}, task.mmu.fixed);
  }

  /** A successful execve: the old space goes, the image stays. */
  method Commit(task: Process, plan: seq<Piece>, highest: nat, block: seq<Entry>, oldCr3: nat, ghost a: Moment)
    requires Active(task.mmu, task.cr3) && oldCr3 != task.cr3 && Vacant(a.tree, Space(task.cr3))
    requires Step(a, Now(task.mmu), {Space(task.cr3)}, task.mmu.fixed) && Root(Space(oldCr3)) in a.tree.at
    requires Plan(plan) && InWindow(plan, highest)
    requires Staged(task.mmu.ram, task.mmu.tree, task.cr3, plan, block) && RegionsFree(task.mmu.tree, task.cr3, highest)
    requires task.brkStart == task.brkCur == highest && task.mmapNext == MMAP_BASE
    modifies task.mmu`tree, task.mmu.pmm, task.mmu.pmm.bitmap
    ensures task.Valid() && Staged(task.mmu.ram, task.mmu.tree, task.cr3, plan, block)
    ensures Vacant(task.mmu.tree, Space(oldCr3))
    ensures Step(a, Now(task.mmu), {Space(oldCr3), Space(task.cr3)}, task.mmu.fixed)
    ensures task.mmu.pmm.released == old(task.mmu.pmm.released) + multiset(FramesOf(a.tree, Space(oldCr3)))
  {
    hide Inv, Granting, TreeWalk, Step, Pmm.Valid, Staged, Plan, PageOf, FramesOf, FirstLoaded;
    ghost var b, s := Now(task.mmu), task.cr3;
    SpaceStays(a, b, oldCr3, {Space(s)}, task.mmu.fixed);
    SameFrames(a, b, oldCr3, s, task.mmu.fixed);
    DropSpace(task.mmu, oldCr3);
    ghost var c := Now(task.mmu);
    StagedStays(b, c, s, oldCr3, plan, block, highest, task.mmu.fixed);
    SpaceStays(b, c, s, {Space(oldCr3)}, task.mmu.fixed);
    StepWider(a, b, {Space(s)}, {Space(oldCr3), Space(s)}, task.mmu.fixed);
    StepWider(b, c, {Space(oldCr3)}, {Space(oldCr3), Space(s)}, task.mmu.fixed);
    StepTrans(a, b, c, {Space(oldCr3), Space(s)}, task.mmu.fixed);
    PageUpAligned(highest);
  }

  lemma PageUpAligned(x: nat)
    requires x % PAGE_SIZE == 0
    ensures PageUp(x) == x
  {
    DownRounding(x + PAGE_SIZE - 1, 0);
  }

  /** The old space still has the frames it had. */
  lemma SameFrames(a: Moment, b: Moment, oldCr3: nat, s: nat, fixed: set<nat>)
    requires Step(a, b, {Space(s)}, fixed) && s != oldCr3
    ensures FramesOf(b.tree, Space(oldCr3)) == FramesOf(a.tree, Space(oldCr3))
  {
    hide Inv, Granting, PagesKept;
    Shapes(a, b, {Space(s)}, fixed);
    forall f | f in FramesOf(a.tree, Space(oldCr3)) ensures f in FramesOf(b.tree, Space(oldCr3)) {
      var p := a.tree.role[f];
      assert p in a.tree.at && p in b.tree.at && b.tree.at[p] == f;
    }
    forall f | f in FramesOf(b.tree, Space(oldCr3)) ensures f in FramesOf(a.tree, Space(oldCr3)) {
      var p := b.tree.role[f];
      assert p in b.tree.at && p in a.tree.at && a.tree.at[p] == f;
    }
  }
}
