/** What whole mapping operations do to the page tables, as relations between states. */
module MappingSteps {
  import opened Options
  import opened FrameBitmap
  import opened PageTables
  import opened PageTableSteps
  import opened SpaceSteps

  ghost predicate KeptWalksBut(ram: Ram, t: Tree, ram': Ram, t': Tree, owner: Owner, page: Page)
    requires Inv(ram, t) && Inv(ram', t')
  {
    forall o, pg {:trigger TreeWalk(ram', t', o, pg)} | Tracked(o, pg) && (o, pg) != (owner, page) ::
      KeptPage(o, pg, TreeWalk(ram, t, o, pg), TreeWalk(ram', t', o, pg))
  }

  lemma KeptTrans(ram0: Ram, t0: Tree, ram1: Ram, t1: Tree, ram2: Ram, t2: Tree)
    requires Inv(ram0, t0) && Inv(ram1, t1) && Inv(ram2, t2)
    requires KeptWalks(ram0, t0, ram1, t1) && KeptWalks(ram1, t1, ram2, t2)
    ensures KeptWalks(ram0, t0, ram2, t2)
  {
    hide TreeWalk, Tracked, Inv;
    forall o, pg | Tracked(o, pg) ensures KeptPage(o, pg, TreeWalk(ram0, t0, o, pg), TreeWalk(ram2, t2, o, pg)) {
      assert KeptPage(o, pg, TreeWalk(ram0, t0, o, pg), TreeWalk(ram1, t1, o, pg));
    }
  }

  /** t' has everything t has. */
  ghost predicate Extends(t: Tree, t': Tree) {
    && (forall p {:trigger p in t.at} {:trigger p in t'.at} | p in t.at :: p in t'.at && t'.at[p] == t.at[p])
    && (forall f {:trigger f in t.role} {:trigger f in t'.role} | f in t.role :: f in t'.role && t'.role[f] == t.role[f])
  }

  /** Only tables of owner o, as of t', differ between ram and ram'. */
  ghost predicate OnlyTablesOf(ram: Ram, ram': Ram, t': Tree, o: Owner) {
    && |ram'| == |ram|
    && forall f {:trigger ram'[f]} | 0 <= f < |ram| && !(f in t'.role && OwnerOf(t'.role[f]) == o && Level(t'.role[f]) <= 3) :: ram'[f] == ram[f]
  }

  /** Every position of t' that t lacks is a table of owner o. */
  ghost predicate OnlyNewTablesOf(t: Tree, t': Tree, o: Owner) {
    forall p {:trigger p in t'.at} | p in t'.at && p !in t.at :: OwnerOf(p) == o && Level(p) <= 3
  }

  /** The flags map gives to every table on the way to a page. */
  function Intermediate(user: bool): Flags { Flags(true, true, user, false, false, 0, 0) }

  /** The position a table index leads to; the heap slot of every PML4 leads to the kernel's. */
  function Below(p: Path, i: Index): Path {
    if p.Root? && i == HEAP_SLOT then Child(Root(Kernel), HEAP_SLOT) else Child(p, i)
  }

  /** Everything the page tables keep at all times. */
  ghost predicate Good(ram: Ram, t: Tree) {
    Inv(ram, t) && Granting(ram, t) && t.Onto()
  }

  /** A step that adds or widens tables of owner o and changes nobody's translation. */
  ghost predicate TableStep(ram: Ram, t: Tree, ram': Ram, t': Tree, o: Owner)
    requires Good(ram, t) && Good(ram', t')
  {
    && KeptWalks(ram, t, ram', t')
    && Extends(t, t') && OnlyNewTablesOf(t, t', o) && OnlyTablesOf(ram, ram', t', o)
  }

  lemma LinkStep(ram: Ram, t: Tree, ram': Ram, p: Path, i: Index, f: nat, fl: Flags)
    requires Good(ram, t) && CanAdd(ram, t, p, i, f, fl) && LinkedNew(ram, ram', f, t.at[p], i, fl)
    requires !ram[t.at[p]][i].fl.present
    requires fl.writable && !fl.nx && (fl.user ==> UserAbove(ram, t, p))
    ensures Good(ram', t.Add(Child(p, i), f)) && TableStep(ram, t, ram', t.Add(Child(p, i), f), OwnerOf(p))
  {
    AddTable(ram, t, ram', p, i, f, fl);
    AddGrants(ram, t, ram', p, i, f, fl);
    assert OwnerOf(Child(p, i)) == OwnerOf(p) && Level(Child(p, i)) == Level(p) + 1;
    LinkFrame(ram, t, ram', p, i, f, fl);
  }

  lemma LinkFrame(ram: Ram, t: Tree, ram': Ram, p: Path, i: Index, f: nat, fl: Flags)
    requires t.Onto() && CanAdd(ram, t, p, i, f, fl) && LinkedNew(ram, ram', f, t.at[p], i, fl)
    ensures t.Add(Child(p, i), f).Onto()
    ensures Extends(t, t.Add(Child(p, i), f)) && OnlyNewTablesOf(t, t.Add(Child(p, i), f), OwnerOf(p))
    ensures OnlyTablesOf(ram, ram', t.Add(Child(p, i), f), OwnerOf(p))
  {
    assert OwnerOf(Child(p, i)) == OwnerOf(p) && Level(Child(p, i)) == Level(p) + 1;
  }

  /** What entry i of the table at p can be. */
  lemma EntryOf(ram: Ram, t: Tree, p: Path, i: Index)
    requires Good(ram, t) && p in t.at && Level(p) < 4 && OwnStep(p, i)
    ensures LinkedAt(ram, t, p, i)
  {
    assert Child(p, i) == Child(p, i);
  }

  lemma WidenStep(ram: Ram, t: Tree, ram': Ram, p: Path, i: Index, writable: bool, user: bool)
    requires Good(ram, t) && CanWiden(ram, t, ram', p, i, writable, user)
    requires user ==> UserAbove(ram, t, p)
    ensures Good(ram', t) && TableStep(ram, t, ram', t, OwnerOf(p))
  {
    WidenEntry(ram, t, ram', p, i, writable, user);
    WidenGrants(ram, t, ram', p, i, writable, user);
  }

  lemma TableStepTrans(ram0: Ram, t0: Tree, ram1: Ram, t1: Tree, ram2: Ram, t2: Tree, o: Owner)
    requires Good(ram0, t0) && Good(ram1, t1) && Good(ram2, t2)
    requires TableStep(ram0, t0, ram1, t1, o) && TableStep(ram1, t1, ram2, t2, o)
    ensures TableStep(ram0, t0, ram2, t2, o)
  {
    hide KeptWalks, Linked, Shared, Shaped, Granting;
    KeptTrans(ram0, t0, ram1, t1, ram2, t2);
  }

  /** A table step keeps the positions there were. */
  lemma SplitExtends(ram: Ram, t: Tree, ram': Ram, t': Tree, p: Path, o: Owner)
    requires Good(ram, t) && Good(ram', t') && TableStep(ram, t, ram', t', o) && p in t.at
    ensures p in t'.at && t'.at[p] == t.at[p]
  {
  }

  lemma SplitStep(ram: Ram, t: Tree, ram': Ram, p: Path, i: Index, f: nat)
    requires Good(ram, t) && CanSplit(ram, t, ram', p, i, f)
    ensures Good(ram', t.Add(Child(p, i), f)) && TableStep(ram, t, ram', t.Add(Child(p, i), f), Kernel)
    ensures OwnerOf(p) == Kernel && p != Root(Kernel) && Child(p, i) !in t.at
  {
    SplitEntry(ram, t, ram', p, i, f);
    SplitGrants(ram, t, ram', p, i, f);
    assert OwnerOf(p) == Kernel && OwnerOf(Child(p, i)) == Kernel && Level(Child(p, i)) == 3;
  }

  /** Page pg of o maps to f with flags fl, tables of o may have been added, and every other page
      of every owner keeps its meaning. */
  ghost predicate MapStep(ram: Ram, t: Tree, ram': Ram, t': Tree, o: Owner, pg: Page, f: nat, fl: Flags)
    requires Good(ram, t) && Good(ram', t')
  {
    && KeptWalksBut(ram, t, ram', t', o, pg)
    && TreeWalk(ram', t', o, pg) == Some(Entry(f, fl))
    && OnlyTablesOf(ram, ram', t', o)
    && LeafChange(t, t', o, pg)
    && (Own(Leaf(o, pg)) ==> Leaf(o, pg) in t'.at && t'.at[Leaf(o, pg)] == f)
  }

  /** Between t and t' only the leaf of pg may change, and tables of o may appear. */
  ghost predicate LeafChange(t: Tree, t': Tree, o: Owner, pg: Page) {
    && (forall p {:trigger p in t.at} {:trigger p in t'.at} | p in t.at && p != Leaf(o, pg) :: p in t'.at && t'.at[p] == t.at[p])
    && (forall p {:trigger p in t'.at} | p in t'.at && p !in t.at :: p == Leaf(o, pg) || (OwnerOf(p) == o && Level(p) <= 3))
  }

  /** A page table is not a PML4. */
  lemma PtNotRoot(ram: Ram, t: Tree, o: Owner, pg: Page, f: nat)
    requires Good(ram, t) && PtPath(o, pg) in t.at
    ensures t.at[PtPath(o, pg)] != t.at[Root(Kernel)]
    ensures Root(Kernel) in Mapped(t, o, pg, f).at && Mapped(t, o, pg, f).at[Root(Kernel)] == t.at[Root(Kernel)]
    ensures Child(Root(Kernel), HEAP_SLOT) in Mapped(t, o, pg, f).at <==> Child(Root(Kernel), HEAP_SLOT) in t.at
  {
    OwnSteps(o, pg);
    assert Level(Child(Root(Kernel), HEAP_SLOT)) == 1;
  }

  lemma LeafStep(ram: Ram, t: Tree, ram': Ram, o: Owner, pg: Page, f: nat, fl: Flags)
    requires Good(ram, t) && CanMap(ram, t, ram', o, pg, f, fl)
    requires fl.user ==> UserAbove(ram, t, PtPath(o, pg))
    ensures Good(ram', Mapped(t, o, pg, f)) && MapStep(ram, t, ram', Mapped(t, o, pg, f), o, pg, f, fl)
  {
    var t' := Mapped(t, o, pg, f);
    OwnSteps(o, pg);
    MapLeaf(ram, t, ram', o, pg, f, fl);
    MapGrants(ram, t, ram', o, pg, f, fl);
    SameIsKeptBut(ram, t, ram', t', o, pg);
    MappedOnto(t, o, pg, f);
    LeafFrame(ram, t, ram', o, pg, f, fl);
  }

  lemma SameIsKeptBut(ram: Ram, t: Tree, ram': Ram, t': Tree, o: Owner, pg: Page)
    requires Inv(ram, t) && Inv(ram', t') && SameWalksBut(ram, t, ram', t', o, pg)
    ensures KeptWalksBut(ram, t, ram', t', o, pg)
  {
    hide TreeWalk, Tracked, Inv;
  }

  lemma MappedOnto(t: Tree, o: Owner, pg: Page, f: nat)
    requires t.Injective() && t.Onto() && (f in t.role ==> Own(Leaf(o, pg)) ==> t.role[f] == Leaf(o, pg))
    ensures Mapped(t, o, pg, f).Onto()
  {
    hide Own;
  }

  /** How a mapping moves frames in and out of the tree. */
  lemma MappedRoles(t: Tree, o: Owner, pg: Page, f: nat, live: set<nat>)
    requires t.Injective() && Level(Leaf(o, pg)) == 4
    requires Own(Leaf(o, pg)) ==> (f in live && f !in t.role) || (Leaf(o, pg) in t.at && f == t.at[Leaf(o, pg)])
    requires Own(Leaf(o, pg)) && Leaf(o, pg) in t.at ==> t.at[Leaf(o, pg)] in live
    ensures live - Mapped(t, o, pg, f).role.Keys ==
      live - t.role.Keys - (if Own(Leaf(o, pg)) then {f} else {})
      + (if Own(Leaf(o, pg)) && Leaf(o, pg) in t.at && t.at[Leaf(o, pg)] != f then {t.at[Leaf(o, pg)]} else {})
    ensures forall g | g in Mapped(t, o, pg, f).role :: g in t.role || (Own(Leaf(o, pg)) && g == f)
    ensures forall g | g in Mapped(t, o, pg, f).role && g in t.role :: Mapped(t, o, pg, f).role[g] == t.role[g]
  {
    hide Own, Level, OwnerOf;
  }

  lemma LeafFrame(ram: Ram, t: Tree, ram': Ram, o: Owner, pg: Page, f: nat, fl: Flags)
    requires CanMap(ram, t, ram', o, pg, f, fl)
    ensures OnlyTablesOf(ram, ram', Mapped(t, o, pg, f), o) && LeafChange(t, Mapped(t, o, pg, f), o, pg)
  {
    hide Linked, Shared, Own;
    OwnSteps(o, pg);
  }

  /** A table step does not touch leaves. */
  lemma LeafKept(ram: Ram, t: Tree, ram': Ram, t': Tree, o: Owner, pg: Page)
    requires Good(ram, t) && Good(ram', t') && TableStep(ram, t, ram', t', o)
    ensures Leaf(o, pg) in t'.at <==> Leaf(o, pg) in t.at
    ensures Leaf(o, pg) in t.at ==> t'.at[Leaf(o, pg)] == t.at[Leaf(o, pg)]
  {
    OwnSteps(o, pg);
  }

  lemma MapStepAfter(ram0: Ram, t0: Tree, ram1: Ram, t1: Tree, ram2: Ram, t2: Tree, o: Owner, pg: Page, f: nat, fl: Flags)
    requires Good(ram0, t0) && Good(ram1, t1) && Good(ram2, t2)
    requires TableStep(ram0, t0, ram1, t1, o) && MapStep(ram1, t1, ram2, t2, o, pg, f, fl)
    ensures MapStep(ram0, t0, ram2, t2, o, pg, f, fl)
  {
    OwnSteps(o, pg);
    KeptAfter(ram0, t0, ram1, t1, ram2, t2, o, pg);
    FrameAfter(ram0, t0, ram1, t1, ram2, t2, o, pg);
  }

  lemma KeptAfter(ram0: Ram, t0: Tree, ram1: Ram, t1: Tree, ram2: Ram, t2: Tree, owner: Owner, page: Page)
    requires Inv(ram0, t0) && Inv(ram1, t1) && Inv(ram2, t2)
    requires KeptWalks(ram0, t0, ram1, t1) && KeptWalksBut(ram1, t1, ram2, t2, owner, page)
    ensures KeptWalksBut(ram0, t0, ram2, t2, owner, page)
  {
    hide TreeWalk, Tracked, Inv;
    forall o, pg | Tracked(o, pg) && (o, pg) != (owner, page)
      ensures KeptPage(o, pg, TreeWalk(ram0, t0, o, pg), TreeWalk(ram2, t2, o, pg)) {
      assert KeptPage(o, pg, TreeWalk(ram0, t0, o, pg), TreeWalk(ram1, t1, o, pg));
    }
  }

  lemma FrameAfter(ram0: Ram, t0: Tree, ram1: Ram, t1: Tree, ram2: Ram, t2: Tree, o: Owner, pg: Page)
    requires Good(ram0, t0) && Good(ram1, t1) && Good(ram2, t2)
    requires Extends(t0, t1) && OnlyNewTablesOf(t0, t1, o) && OnlyTablesOf(ram0, ram1, t1, o)
    requires LeafChange(t1, t2, o, pg) && OnlyTablesOf(ram1, ram2, t2, o)
    ensures LeafChange(t0, t2, o, pg) && OnlyTablesOf(ram0, ram2, t2, o)
  {
    hide Linked, Shared, Granting;
    OwnSteps(o, pg);
    forall f | f in t1.role && OwnerOf(t1.role[f]) == o && Level(t1.role[f]) <= 3
      ensures f in t2.role && t2.role[f] == t1.role[f]
    {
      assert t1.role[f] in t2.at && t2.at[t1.role[f]] == f;
    }
  }

  /** A mapped page of an owned position maps to the frame that sits there. */
  lemma MappedFrame(ram: Ram, t: Tree, o: Owner, pg: Page)
    requires Good(ram, t) && Own(Leaf(o, pg))
    ensures TreeWalk(ram, t, o, pg).Some? <==> Leaf(o, pg) in t.at
    ensures Leaf(o, pg) in t.at ==> TreeWalk(ram, t, o, pg).value.frame == t.at[Leaf(o, pg)] && 0 < t.at[Leaf(o, pg)] < MAX_FRAMES
  {
    OwnSteps(o, pg);
    if PtPath(o, pg) in t.at {
      assert LinkedAt(ram, t, PtPath(o, pg), pg.i1);
    } else if PdPath(o, pg) in t.at {
      assert LinkedAt(ram, t, PdPath(o, pg), pg.i2);
    }
  }

  /** Page pg of o no longer maps anything, and every other page keeps its meaning. */
  ghost predicate ClearStep(ram: Ram, t: Tree, ram': Ram, t': Tree, o: Owner, pg: Page)
    requires Good(ram, t) && Good(ram', t')
  {
    && KeptWalksBut(ram, t, ram', t', o, pg)
    && TreeWalk(ram', t', o, pg) == None
    && OnlyTablesOf(ram, ram', t', o)
    && LeafChange(t, t', o, pg)
    && Leaf(o, pg) !in t'.at
  }

  lemma UnmapStep(ram: Ram, t: Tree, ram': Ram, o: Owner, pg: Page)
    requires Good(ram, t) && CanClear(ram, t, ram', o, pg)
    ensures Good(ram', Cleared(t, o, pg)) && ClearStep(ram, t, ram', Cleared(t, o, pg), o, pg)
  {
    var t' := Cleared(t, o, pg);
    OwnSteps(o, pg);
    ClearLeaf(ram, t, ram', o, pg);
    ClearGrants(ram, t, ram', o, pg);
    SameIsKeptBut(ram, t, ram', t', o, pg);
    ClearFrame(ram, t, ram', o, pg);
  }

  lemma ClearFrame(ram: Ram, t: Tree, ram': Ram, o: Owner, pg: Page)
    requires t.Onto() && CanClear(ram, t, ram', o, pg)
    ensures Cleared(t, o, pg).Onto()
    ensures OnlyTablesOf(ram, ram', Cleared(t, o, pg), o) && LeafChange(t, Cleared(t, o, pg), o, pg)
  {
    hide Linked, Shared, Own;
    OwnSteps(o, pg);
  }

  /** How clearing a page moves its frame out of the tree. */
  lemma ClearedRoles(t: Tree, o: Owner, pg: Page, live: set<nat>)
    requires t.Injective() && (Leaf(o, pg) in t.at ==> t.at[Leaf(o, pg)] in live)
    ensures live - Cleared(t, o, pg).role.Keys == live - t.role.Keys + (if Leaf(o, pg) in t.at then {t.at[Leaf(o, pg)]} else {})
    ensures forall g | g in Cleared(t, o, pg).role :: g in t.role && Cleared(t, o, pg).role[g] == t.role[g]
  {
  }

  /** A page that maps nothing has nothing to clear. */
  lemma NothingToClear(ram: Ram, t: Tree, o: Owner, pg: Page)
    requires Good(ram, t) && TreeWalk(ram, t, o, pg) == None
    ensures Leaf(o, pg) !in t.at && ClearStep(ram, t, ram, t, o, pg)
  {
    if Own(Leaf(o, pg)) { MappedFrame(ram, t, o, pg); }
  }

  lemma ClearStepAfter(ram0: Ram, t0: Tree, ram1: Ram, t1: Tree, ram2: Ram, t2: Tree, o: Owner, pg: Page)
    requires Good(ram0, t0) && Good(ram1, t1) && Good(ram2, t2)
    requires TableStep(ram0, t0, ram1, t1, o) && ClearStep(ram1, t1, ram2, t2, o, pg)
    ensures ClearStep(ram0, t0, ram2, t2, o, pg)
  {
    KeptAfter(ram0, t0, ram1, t1, ram2, t2, o, pg);
    FrameAfter(ram0, t0, ram1, t1, ram2, t2, o, pg);
  }

  lemma TableStepRefl(ram: Ram, t: Tree, o: Owner)
    requires Good(ram, t)
    ensures TableStep(ram, t, ram, t, o)
  {
  }

  /** With no page table and no 2 MiB entry, a page maps nothing. */
  lemma NoTableNoPage(ram: Ram, t: Tree, o: Owner, pg: Page)
    requires Good(ram, t) && Tracked(o, pg)
    requires PdPath(o, pg) in t.at ==> !ram[t.at[PdPath(o, pg)]][pg.i2].fl.present
    ensures TreeWalk(ram, t, o, pg) == None
  {
    OwnSteps(o, pg);
    if PdPath(o, pg) in t.at {
      assert LinkedAt(ram, t, PdPath(o, pg), pg.i2);
    }
  }

  /** The upper two levels of a tracked page are plain tables. */
  lemma UpperEntries(ram: Ram, t: Tree, o: Owner, pg: Page)
    requires Good(ram, t) && Root(o) in t.at && Tracked(o, pg)
    ensures ram[t.at[Root(o)]][pg.i4].fl.present <==> Child(Root(o), pg.i4) in t.at
    ensures Child(Root(o), pg.i4) in t.at ==> ram[t.at[Root(o)]][pg.i4].frame == t.at[Child(Root(o), pg.i4)]
    ensures Child(Root(o), pg.i4) in t.at ==>
      (ram[t.at[Child(Root(o), pg.i4)]][pg.i3].fl.present <==> PdPath(o, pg) in t.at)
    ensures PdPath(o, pg) in t.at ==>
      Child(Root(o), pg.i4) in t.at && ram[t.at[Child(Root(o), pg.i4)]][pg.i3].frame == t.at[PdPath(o, pg)]
  {
    OwnSteps(o, pg);
    assert Level(Root(o)) == 0 && Level(Child(Root(o), pg.i4)) == 1;
    assert LinkedAt(ram, t, Root(o), pg.i4);
    if Child(Root(o), pg.i4) in t.at {
      assert LinkedAt(ram, t, Child(Root(o), pg.i4), pg.i3);
    }
  }

  // ---- creating a space ----

  /** A space rooted at pml4 has appeared: it maps no private page, translates shared pages as the
      kernel does and nothing else; every other owner is untouched. */
  ghost predicate CreateStep(ram: Ram, t: Tree, ram': Ram, t': Tree, pml4: nat)
    requires Good(ram, t) && Good(ram', t')
  {
    var o := Space(pml4);
    && pml4 !in t.role && Root(o) in t'.at
    && Extends(t, t') && OnlyNewTablesOf(t, t', o) && OnlyTablesOf(ram, ram', t', o)
    && (forall o', pg {:trigger TreeWalk(ram', t', o', pg)} | Tracked(o', pg) && o' != o ::
          TreeWalk(ram', t', o', pg) == TreeWalk(ram, t, o', pg))
    && (forall pg {:trigger TreeWalk(ram', t', o, pg)} | Private(pg) :: TreeWalk(ram', t', o, pg) == None)
    && (forall pg: Page {:trigger Walk(ram', pml4, pg)} | SharedPage(pg) :: Walk(ram', pml4, pg) == Walk(ram', t.at[Root(Kernel)], pg))
    && (forall pg: Page {:trigger Walk(ram', pml4, pg)} | pg.i4 == 0 && pg.i3 >= 4 :: Walk(ram', pml4, pg) == None)
  }

  lemma SpaceBuilt(ram: Ram, t: Tree, ram': Ram, n: Skeleton)
    requires Good(ram, t) && FreshSkeleton(t, n) && Built(ram, t, ram', n)
    requires Child(Root(Kernel), HEAP_SLOT) in t.at
    ensures Good(ram', Grow(t, n)) && CreateStep(ram, t, ram', Grow(t, n), n.pml4)
  {
    hide Built;
    GrowShaped(t, n);
    BuildSpace(ram, t, ram', n);
    OldTablesKept(ram, t, ram', n);
    BuildGrants(ram, t, ram', n);
    GrowOnto(t, n);
    BuildFrame(ram, t, ram', n);
    BuildWalks(ram, t, ram', n);
  }

  lemma BuildWalks(ram: Ram, t: Tree, ram': Ram, n: Skeleton)
    requires NewSpace(ram, t, ram', n) && Inv(ram', Grow(t, n))
    requires forall q {:trigger t.at[q]} | q in t.at :: ram'[t.at[q]] == ram[t.at[q]]
    ensures forall o', pg {:trigger TreeWalk(ram', Grow(t, n), o', pg)} | Tracked(o', pg) && o' != Space(n.pml4) ::
      TreeWalk(ram', Grow(t, n), o', pg) == TreeWalk(ram, t, o', pg)
    ensures forall pg {:trigger TreeWalk(ram', Grow(t, n), Space(n.pml4), pg)} | Private(pg) ::
      TreeWalk(ram', Grow(t, n), Space(n.pml4), pg) == None
    ensures forall pg: Page {:trigger Walk(ram', n.pml4, pg)} | SharedPage(pg) :: Walk(ram', n.pml4, pg) == Walk(ram', t.at[Root(Kernel)], pg)
    ensures forall pg: Page {:trigger Walk(ram', n.pml4, pg)} | pg.i4 == 0 && pg.i3 >= 4 :: Walk(ram', n.pml4, pg) == None
  {
    hide TreeWalk, Walk, Tracked, Private, Grow, Matched, Built;
    forall o', pg | Tracked(o', pg) && o' != Space(n.pml4)
      ensures TreeWalk(ram', Grow(t, n), o', pg) == TreeWalk(ram, t, o', pg)
    {
      BuildOldWalk(ram, t, ram', n, o', pg);
    }
    forall pg | Private(pg) ensures TreeWalk(ram', Grow(t, n), Space(n.pml4), pg) == None {
      BuildNewPrivate(ram, t, ram', n, pg);
    }
    forall pg | SharedPage(pg) ensures Walk(ram', n.pml4, pg) == Walk(ram', t.at[Root(Kernel)], pg) {
      BuildNewShared(ram, t, ram', n, pg);
    }
    forall pg: Page | pg.i4 == 0 && pg.i3 >= 4 ensures Walk(ram', n.pml4, pg) == None {
      BuildNewElsewhere(ram, t, ram', n, pg);
    }
  }

  lemma BuildFrame(ram: Ram, t: Tree, ram': Ram, n: Skeleton)
    requires Good(ram, t) && FreshSkeleton(t, n) && Built(ram, t, ram', n) && Matched(t, n)
    ensures n.pml4 !in t.role && NewRoot(n) in Grow(t, n).at
    ensures Extends(t, Grow(t, n)) && OnlyNewTablesOf(t, Grow(t, n), Space(n.pml4))
    ensures OnlyTablesOf(ram, ram', Grow(t, n), Space(n.pml4))
    ensures Grow(t, n).role.Keys == t.role.Keys + NewFrames(t, n)
  {
    hide Linked, Shared, Granting, PathOf, FrameOf;
    var t' := Grow(t, n);
    forall q | q in NewPaths(t, n) ensures OwnerOf(q) == Space(n.pml4) { NewOwner(t, n, q); }
    forall f | f in NewFrames(t, n) ensures f !in t.role && PathOf(t, n, f) in NewPaths(t, n) {
      PathOfIsNew(t, n, f);
      if f in t.role { NewFramesFresh(t, n, f); }
    }
  }

  lemma NewOwner(t: Tree, n: Skeleton, q: Path)
    requires q in NewPaths(t, n)
    ensures OwnerOf(q) == Space(n.pml4)
  {
    assert OwnerOf(NewRoot(n)) == OwnerOf(NewPdpt(n)) == Space(n.pml4);
    if q != NewRoot(n) && q != NewPdpt(n) {
      var k: Index :| k < 4 && HasLow(t, k) && q == NewPd(n, k);
      assert OwnerOf(q) == OwnerOf(NewPdpt(n));
    }
  }

  /** How creating a space moves its frames into the tree. */
  lemma GrowRoles(ram: Ram, t: Tree, ram': Ram, n: Skeleton, live: set<nat>)
    requires Good(ram, t) && FreshSkeleton(t, n) && Built(ram, t, ram', n) && NewFrames(t, n) <= live
    ensures live - Grow(t, n).role.Keys == live - t.role.Keys - NewFrames(t, n)
    ensures forall g | g in Grow(t, n).role :: (g in t.role && Grow(t, n).role[g] == t.role[g]) || g in live
    ensures Grow(t, n).at[Root(Kernel)] == t.at[Root(Kernel)] && ram'[t.at[Root(Kernel)]] == ram[t.at[Root(Kernel)]]
    ensures Child(Root(Kernel), HEAP_SLOT) in Grow(t, n).at <==> Child(Root(Kernel), HEAP_SLOT) in t.at
  {
    GrowKernel(ram, t, ram', n);
    hide Linked, Shared, Granting, PathOf, FrameOf;
    AllMatched(t, n);
  }

  lemma GrowKernel(ram: Ram, t: Tree, ram': Ram, n: Skeleton)
    requires Good(ram, t) && FreshSkeleton(t, n) && Built(ram, t, ram', n)
    ensures Grow(t, n).at[Root(Kernel)] == t.at[Root(Kernel)] && ram'[t.at[Root(Kernel)]] == ram[t.at[Root(Kernel)]]
    ensures Child(Root(Kernel), HEAP_SLOT) in Grow(t, n).at <==> Child(Root(Kernel), HEAP_SLOT) in t.at
  {
    hide Linked, Shared, Granting, PathOf, FrameOf;
    AllMatched(t, n);
    BuildFrame(ram, t, ram', n);
    OldTablesKept(ram, t, ram', n);
    assert OwnerOf(Child(Root(Kernel), HEAP_SLOT)) == Kernel;
    OtherOwner(t, n, Child(Root(Kernel), HEAP_SLOT));
  }
}
