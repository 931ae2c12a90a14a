/** Whole runs of a family of processes over the frame allocator, and the kernel half they share. */
module SpaceRuns {
  import opened Options
  import opened Machine
  import opened FrameBitmap
  import opened PageTables
  import opened PageTableSteps
  import opened SpaceSteps
  import opened MappingSteps
  import opened Subtrees
  import opened CloneSteps
  import opened FramePrices
  import opened AddressSpaces
  import opened Isolation
  import opened PageRanges
  import opened ProcessMemory
  import opened SpaceLifetimes
  import opened ForkAndExec

  // ---- the kernel half ----

  const KERNEL_RW := Flags(true, true, false, false, true, 0, 0)

  /** In the heap and physmap slots every space translates as the kernel does. */
  lemma KernelHalfShared(ram: Ram, t: Tree, s: nat, pg: Page)
    requires Inv(ram, t) && Root(Space(s)) in t.at && (pg.i4 == HEAP_SLOT || pg.i4 == PHYSMAP_SLOT)
    ensures Walk(ram, s, pg) == Walk(ram, t.at[Root(Kernel)], pg)
  {
    assert t.at[Root(Space(s))] == s;
  }

  /** Mapping a heap page works on the kernel only. */
  lemma HeapMapIsStep(a: Moment, b: Moment, pg: Page, f: nat, fixed: set<nat>)
    requires Sound(a, fixed) && Sound(b, fixed) && pg.i4 == HEAP_SLOT
    requires MapStep(a.ram, a.tree, b.ram, b.tree, Kernel, pg, f, KERNEL_RW)
    requires b.live - b.tree.role.Keys == a.live - a.tree.role.Keys
    ensures Step(a, b, {Kernel}, fixed)
  {
    hide Inv, Granting, TreeWalk;
    OwnSteps(Kernel, pg);
    forall o, q | Own(Leaf(o, q)) && o !in {Kernel} ensures PageKept(a.ram, a.tree, b.ram, b.tree, o, q) {
      assert o != Kernel;
      OwnSteps(o, q);
      assert KeptPage(o, q, TreeWalk(a.ram, a.tree, o, q), TreeWalk(b.ram, b.tree, o, q));
      if TreeWalk(a.ram, a.tree, o, q).Some? {
        LeafFrameOf(a.ram, a.tree, o, q);
        LeafFrameOf(b.ram, b.tree, o, q);
      }
    }
  }

  /** The kernel heap grows by one page while any space is active: every live space sees the page
      at once, and no space is worked on. */
  method GrowHeapPage(m: Mmu, pg: Page) returns (ok: bool, frame: nat)
    requires m.Valid() && m.StartsAt(m.cr3, pg, Kernel) && pg.i4 == HEAP_SLOT && Leaf(Kernel, pg) !in m.tree.at
    modifies m`ram, m`tree, m.pmm, m.pmm.bitmap
    ensures SamePool(m)
    ensures m.Pays(ok, 1 + old(m.TableCost(Kernel, pg)))
    ensures ok ==> m.tree.at.Keys == old(m.tree.at.Keys) + m.Tables(Kernel, pg) + {Leaf(Kernel, pg)}
    ensures ok ==> m.Valid() && Step(old(Now(m)), Now(m), {Kernel}, m.fixed)
    ensures ok ==> Walk(m.ram, m.kernelPml4, pg) == Some(Entry(frame, KERNEL_RW))
    ensures ok ==> forall s {:trigger Walk(m.ram, s, pg)} | Root(Space(s)) in m.tree.at :: Walk(m.ram, s, pg) == Some(Entry(frame, KERNEL_RW))
    ensures ok ==> forall q {:trigger TreeWalk(m.ram, m.tree, Kernel, q)} | Tracked(Kernel, q) && q != pg ::
      KeptPage(Kernel, q, old(TreeWalk(m.ram, m.tree, Kernel, q)), TreeWalk(m.ram, m.tree, Kernel, q))
  {
    hide Linked, Shared, Granting, Pmm.Valid, TreeWalk, Walk, Step, Own;
    ghost var a := Now(m);
    ValidIsSound(m);
    TrackedByKernel(pg);
    ok, frame := m.Alloc();
    if !ok { return; }
    ok := m.Map(pg, frame, KERNEL_RW, Kernel);
    if !ok { return; }
    ValidIsSound(m);
    HeapMapIsStep(a, Now(m), pg, frame, m.fixed);
    WalkIsTreeWalk(m.ram, m.tree, Kernel, pg);
    forall s | Root(Space(s)) in m.tree.at ensures Walk(m.ram, s, pg) == Some(Entry(frame, KERNEL_RW)) {
      KernelHalfShared(m.ram, m.tree, s, pg);
    }
  }

  // ---- a family of processes ----

  /** What a process of the family may do, by its index: map a fresh zeroed page, unmap a page and
      free its frame, change a page's permissions, write a word, fork, or end. */
  datatype Act =
    | MapPage(i: nat, pg: Page, fl: Flags)
    | FreePage(i: nat, pg: Page)
    | Reflag(i: nat, pg: Page, fl: Flags)
    | Poke(i: nat, pg: Page, k: Index, w: Entry)
    | ForkOff(i: nat)
    | End(i: nat)

  ghost predicate Proper(act: Act) {
    match act
    case MapPage(_, pg, fl) => Private(pg) && fl.present && !fl.huge
    case FreePage(_, pg) => Private(pg)
    case Reflag(_, pg, fl) => Private(pg) && fl.present && !fl.huge
    case Poke(_, pg, _, _) => Private(pg)
    case _ => true
  }

  /** Since the moment a, only the spaces in `ever` were worked on; those alive are listed, the
      others have nothing left. */
  ghost predicate Family(a: Moment, w: Moment, spaces: seq<nat>, ever: set<Owner>, fixed: set<nat>) {
    && Step(a, w, ever, fixed)
    && (forall i, j {:trigger spaces[i], spaces[j]} | 0 <= i < j < |spaces| :: spaces[i] != spaces[j])
    && (forall i {:trigger spaces[i]} | 0 <= i < |spaces| :: Root(Space(spaces[i])) in w.tree.at && Space(spaces[i]) in ever)
    && (forall o {:trigger Vacant(a.tree, o)} {:trigger Vacant(w.tree, o)} | o in ever :: Vacant(a.tree, o))
    && (forall o {:trigger Vacant(w.tree, o)} | o in ever :: Vacant(w.tree, o) || (o.Space? && o.root in spaces))
  }

  /** One member of the family acts on its own space. */
  lemma FamilyActs(a: Moment, w: Moment, w': Moment, spaces: seq<nat>, ever: set<Owner>, fixed: set<nat>, i: nat)
    requires Family(a, w, spaces, ever, fixed) && i < |spaces| && Step(w, w', {Space(spaces[i])}, fixed)
    requires Root(Space(spaces[i])) in w'.tree.at
    ensures Family(a, w', spaces, ever, fixed)
  {
    hide Sound, PagesKept;
    StepWider(w, w', {Space(spaces[i])}, ever, fixed);
    StepTrans(a, w, w', ever, fixed);
    forall j | 0 <= j < |spaces| ensures Root(Space(spaces[j])) in w'.tree.at {
      assert OwnerOf(Root(Space(spaces[j]))) == Space(spaces[j]);
    }
    forall o | o in ever && !(o.Space? && o.root in spaces) ensures Vacant(w'.tree, o) {
      assert Vacant(w.tree, o);
      StaysVacant(w, w', {Space(spaces[i])}, o, fixed);
    }
  }

  lemma StaysVacant(w: Moment, w': Moment, who: set<Owner>, o: Owner, fixed: set<nat>)
    requires Step(w, w', who, fixed) && Vacant(w.tree, o) && o !in who
    ensures Vacant(w'.tree, o)
  {
    hide Sound, PagesKept;
  }

  /** A child joins the family. */
  lemma FamilyGrows(a: Moment, w: Moment, w': Moment, spaces: seq<nat>, ever: set<Owner>, fixed: set<nat>, c: nat)
    requires Family(a, w, spaces, ever, fixed) && Step(w, w', {Space(c)}, fixed) && Vacant(w.tree, Space(c))
    requires Root(Space(c)) in w'.tree.at
    ensures Family(a, w', spaces + [c], ever + {Space(c)}, fixed)
  {
    hide Sound, PagesKept;
    var more := ever + {Space(c)};
    StepWider(a, w, ever, more, fixed);
    StepWider(w, w', {Space(c)}, more, fixed);
    StepTrans(a, w, w', more, fixed);
    assert OwnerOf(Root(Space(c))) == Space(c);
    assert forall j | 0 <= j < |spaces| :: spaces[j] != c;
    forall j | 0 <= j < |spaces| ensures Root(Space(spaces[j])) in w'.tree.at {
      assert OwnerOf(Root(Space(spaces[j]))) == Space(spaces[j]);
    }
    forall o | o in more ensures Vacant(a.tree, o) {
      if o !in ever { VacantBefore(a, w, ever, o, fixed); }
    }
    forall o | o in more && !(o.Space? && o.root in spaces + [c]) ensures Vacant(w'.tree, o) {
      assert (spaces + [c])[|spaces|] == c;
      assert forall x | x in spaces :: x in spaces + [c];
      assert Vacant(w.tree, o);
      StaysVacant(w, w', {Space(c)}, o, fixed);
    }
  }

  lemma VacantBefore(a: Moment, w: Moment, who: set<Owner>, o: Owner, fixed: set<nat>)
    requires Step(a, w, who, fixed) && Vacant(w.tree, o) && o !in who
    ensures Vacant(a.tree, o)
  {
    hide Sound, PagesKept;
  }

  /** A member ends. */
  lemma FamilyShrinks(a: Moment, w: Moment, w': Moment, spaces: seq<nat>, ever: set<Owner>, fixed: set<nat>, i: nat)
    requires Family(a, w, spaces, ever, fixed) && i < |spaces| && Step(w, w', {Space(spaces[i])}, fixed)
    requires Vacant(w'.tree, Space(spaces[i]))
    ensures Family(a, w', spaces[..i] + spaces[i + 1..], ever, fixed)
  {
    hide Sound, PagesKept;
    var rest := spaces[..i] + spaces[i + 1..];
    StepWider(w, w', {Space(spaces[i])}, ever, fixed);
    StepTrans(a, w, w', ever, fixed);
    forall j | 0 <= j < |rest| ensures rest[j] != spaces[i] && Root(Space(rest[j])) in w'.tree.at && Space(rest[j]) in ever {
      var k := if j < i then j else j + 1;
      assert rest[j] == spaces[k];
      assert OwnerOf(Root(Space(spaces[k]))) == Space(spaces[k]);
    }
    forall k | 0 <= k < |spaces| && k != i ensures spaces[k] in rest {
      assert rest[if k < i then k else k - 1] == spaces[k];
    }
    forall o | o in ever && !(o.Space? && o.root in rest) ensures Vacant(w'.tree, o) {
      if o != Space(spaces[i]) {
        assert Vacant(w.tree, o);
        StaysVacant(w, w', {Space(spaces[i])}, o, fixed);
      }
    }
  }

  /** When the whole family is gone, so is every trace of it. */
  lemma FamilyGone(a: Moment, w: Moment, ever: set<Owner>, fixed: set<nat>)
    requires Family(a, w, [], ever, fixed)
    ensures w.live == a.live && Step(a, w, {}, fixed)
  {
    hide Step, Vacant;
    BothVacant(a, w, ever, fixed);
  }

  /** Between actions. */
  ghost predicate Between(m: Mmu, a: Moment, spaces: seq<nat>, ever: set<Owner>)
    reads m, m.pmm, m.pmm.bitmap
  {
    && m.Valid() && Child(Root(Kernel), HEAP_SLOT) in m.tree.at
    && Family(a, Now(m), spaces, ever, m.fixed)
  }

  lemma HeapSlotStays(a: Moment, b: Moment, who: set<Owner>, fixed: set<nat>)
    requires Step(a, b, who, fixed) && Kernel !in who && Child(Root(Kernel), HEAP_SLOT) in a.tree.at
    ensures Child(Root(Kernel), HEAP_SLOT) in b.tree.at
  {
    assert OwnerOf(Child(Root(Kernel), HEAP_SLOT)) == Kernel;
  }

  /** A page operation of space s while it is active. A page that is already mapped is not mapped
      again, so every mapped frame is fresh. */
  method PageAct(m: Mmu, act: Act, s: nat) returns (ok: bool)
    requires Active(m, s) && Proper(act) && !act.ForkOff? && !act.End?
    modifies m`ram, m`tree, m.pmm, m.pmm.bitmap
    ensures ok ==> Active(m, s) && m.pmm.pool == old(m.pmm.pool) && Step(old(Now(m)), Now(m), {Space(s)}, m.fixed)
    ensures !ok ==> m.pmm.free == {}
  {
    hide Inv, Granting, Pmm.Valid, TreeWalk, Num, KeptExcept, Private, OtherRoles, Step, Walk;
    ghost var a := Now(m);
    ValidIsSound(m);
    StepRefl(a, {Space(s)}, m.fixed);
    ActiveGood(m, s);
    ok := true;
    match act
    case MapPage(_, pg, fl) =>
      Unmapped0(m, s, pg);
      var phys := m.VirtToPhys(pg, 0);
      if phys != 0 { return; }
      var frame;
      ok, frame := MapZeroed(m, pg, fl, s);
      if !ok { return; }
      ValidIsSound(m);
      EditIsStep(a, Now(m), s, Num(pg), Num(pg) + 1, m.fixed);
    case FreePage(_, pg) =>
      ok := UnmapFree(m, pg, s);
      ValidIsSound(m);
      EditIsStep(a, Now(m), s, Num(pg), Num(pg) + 1, m.fixed);
    case Reflag(_, pg, fl) =>
      ok := ProtectPage(m, pg, fl, s);
      ValidIsSound(m);
      EditIsStep(a, Now(m), s, Num(pg), Num(pg) + 1, m.fixed);
    case Poke(_, pg, k, w) =>
      PokePage(m, pg, k, w, s);
    case _ =>
  }

  /** virt_to_phys answers 0 exactly when a private page is unmapped. */
  lemma Unmapped0(m: Mmu, s: nat, pg: Page)
    requires Active(m, s) && Private(pg)
    ensures Walk(m.ram, m.cr3, pg).None? <==> Leaf(Space(s), pg) !in m.tree.at
    ensures Walk(m.ram, m.cr3, pg).Some? ==> Walk(m.ram, m.cr3, pg).value.frame > 0
  {
    hide Linked, Shared, Granting, Pmm.Valid, TreeWalk, Walk;
    PrivateFrame(m.ram, m.tree, s, pg);
    TrackedIsPrivate(s, pg);
    MappedFrame(m.ram, m.tree, Space(s), pg);
  }

  /** A store by user code. */
  method PokePage(m: Mmu, pg: Page, k: Index, w: Entry, s: nat)
    requires Active(m, s) && Private(pg)
    modifies m`ram
    ensures Active(m, s) && m.ram == WriteWord(old(m.ram), s, pg, k, w)
    ensures Step(old(Now(m)), Now(m), {Space(s)}, m.fixed)
  {
    hide Linked, Shared, Granting, Pmm.Valid, TreeWalk, Walk, Step, Num, Private;
    ghost var a := Now(m);
    ValidIsSound(m);
    PrivateFrame(m.ram, m.tree, s, pg);
    WriteKeepsTables(m.ram, m.tree, s, pg, k, w);
    WriteIsStep(a, Moment(WriteWord(m.ram, s, pg, k, w), m.tree, m.pmm.Live()), s, pg, k, w, m.fixed);
    Unmapped0(m, s, pg);
    HeapSlotRow(m, s, pg, k, w);
    var phys := m.VirtToPhys(pg, 0);
    if phys == 0 { return; }
    m.ram := Store(m.ram, phys / PAGE_SIZE, k, w);
  }

  /** A store to a private page leaves the kernel's PML4 alone. */
  lemma HeapSlotRow(m: Mmu, s: nat, pg: Page, k: Index, w: Entry)
    requires Active(m, s) && Private(pg)
    ensures WriteWord(m.ram, s, pg, k, w)[m.kernelPml4] == m.ram[m.kernelPml4]
  {
    hide Linked, Shared, Granting, Pmm.Valid, TreeWalk, Walk;
    PrivateFrame(m.ram, m.tree, s, pg);
    assert Level(Root(Kernel)) == 0;
  }

  /** One action of the family. Actions of a member that does not exist do nothing. */
  method Perform(m: Mmu, act: Act, spaces: seq<nat>, ghost a: Moment, ghost ever: set<Owner>)
    returns (ok: bool, spaces': seq<nat>, ghost ever': set<Owner>)
    requires Between(m, a, spaces, ever) && Proper(act)
    modifies m`ram, m`tree, m`cr3, m.pmm, m.pmm.bitmap
    ensures ok ==> Between(m, a, spaces', ever') && m.pmm.pool == old(m.pmm.pool)
    ensures !ok ==> m.pmm.free == {}
  {
    hide Inv, Granting, Mmu.Valid, TreeWalk, Family, Step, Private;
    ok, spaces', ever' := true, spaces, ever;
    ghost var w := Now(m);
    if act.i >= |spaces| { return; }
    var s := spaces[act.i];
    InFamily(a, w, spaces, ever, m.fixed, act.i);
    if act.ForkOff? {
      Activate(m, s);
      var child;
      ok, child := Fork(m, s, true);
      if !ok { return; }
      HeapSlotStays(w, Now(m), {Space(child)}, m.fixed);
      FamilyGrows(a, w, Now(m), spaces, ever, m.fixed, child);
      spaces', ever' := spaces + [child], ever + {Space(child)};
    } else if act.End? {
      ok, spaces' := EndOne(m, act.i, spaces, a, ever);
    } else {
      Activate(m, s);
      ok := PageAct(m, act, s);
      if !ok { return; }
      HeapSlotStays(w, Now(m), {Space(s)}, m.fixed);
      FamilyActs(a, w, Now(m), spaces, ever, m.fixed, act.i);
    }
  }

  lemma InFamily(a: Moment, w: Moment, spaces: seq<nat>, ever: set<Owner>, fixed: set<nat>, i: nat)
    requires Family(a, w, spaces, ever, fixed) && i < |spaces|
    ensures Root(Space(spaces[i])) in w.tree.at
  {
  }

  /** The switch to a member loads its space. */
  method Activate(m: Mmu, s: nat)
    requires m.Valid()
    modifies m`cr3
    ensures m.Valid() && m.cr3 == s
  {
    hide Good, Pmm.Valid;
    m.cr3 := s;
  }

  /** A member ends: its space is destroyed, and CR3 may go on naming it. */
  method EndOne(m: Mmu, i: nat, spaces: seq<nat>, ghost a: Moment, ghost ever: set<Owner>)
    returns (ok: bool, spaces': seq<nat>)
    requires Between(m, a, spaces, ever) && i < |spaces|
    modifies m`tree, m.pmm, m.pmm.bitmap
    ensures ok && spaces' == spaces[..i] + spaces[i + 1..]
    ensures Between(m, a, spaces', ever) && m.pmm.pool == old(m.pmm.pool)
  {
    hide Inv, Granting, Pmm.Valid, TreeWalk, Family, Step;
    ghost var w := Now(m);
    InFamily(a, w, spaces, ever, m.fixed, i);
    DropSpace(m, spaces[i]);
    HeapSlotStays(w, Now(m), {Space(spaces[i])}, m.fixed);
    FamilyShrinks(a, w, Now(m), spaces, ever, m.fixed, i);
    ok, spaces' := true, spaces[..i] + spaces[i + 1..];
  }

  /** From nothing to nothing: a first process is created, it and its descendants act in any
      order, each in its own space, and at the end those still alive end too, whichever space is
      loaded when they do. Then exactly the frames taken have come back, and no page of anybody else
      has changed. */
  method FamilyLifetime(m: Mmu, acts: seq<Act>) returns (ok: bool)
    requires m.Valid() && Child(Root(Kernel), HEAP_SLOT) in m.tree.at
    requires forall k {:trigger acts[k]} | 0 <= k < |acts| :: Proper(acts[k])
    modifies m`ram, m`tree, m`cr3, m.pmm, m.pmm.bitmap
    ensures ok ==> m.Valid() && m.pmm.free == old(m.pmm.free) && Step(old(Now(m)), Now(m), {}, m.fixed)
    ensures !ok ==> m.pmm.free == {}
  {
    hide Inv, Granting, Mmu.Valid, TreeWalk, Family, Step, Private, Proper;
    ghost var a := Now(m);
    FreeIsRest(m);
    ValidIsSound(m);
    var s;
    ok, s := StartSpace(m);
    if !ok { return; }
    var spaces := [s];
    ghost var ever := {Space(s)};
    FamilyBegins(a, Now(m), s, m.fixed);
    HeapSlotStays(a, Now(m), {Space(s)}, m.fixed);
    var k := 0;
    while k < |acts|
      invariant 0 <= k <= |acts| && Between(m, a, spaces, ever) && m.pmm.pool == old(m.pmm.pool)
    {
      ok, spaces, ever := Perform(m, acts[k], spaces, a, ever);
      if !ok { return; }
      k := k + 1;
    }
    while |spaces| > 0
      invariant Between(m, a, spaces, ever) && m.pmm.pool == old(m.pmm.pool)
      decreases |spaces|
    {
      ok, spaces := EndOne(m, 0, spaces, a, ever);
    }
    ok := true;
    assert spaces == [];
    FamilyGone(a, Now(m), ever, m.fixed);
    FreeIsRest(m);
  }

  lemma FamilyBegins(a: Moment, w: Moment, s: nat, fixed: set<nat>)
    requires Step(a, w, {Space(s)}, fixed) && Vacant(a.tree, Space(s)) && Root(Space(s)) in w.tree.at
    ensures Family(a, w, [s], {Space(s)}, fixed)
  {
    hide Step;
    assert [s][0] == s && s in [s];
  }
}
