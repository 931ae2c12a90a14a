/** The virtual memory manager: in-place edits of page tables over the frame bitmap. */
module AddressSpaces {
  import opened Options
  import opened Machine
  import opened FrameBitmap
  import opened PageTables
  import opened PageTableSteps
  import opened SpaceSteps
  import opened MappingSteps
  import opened Subtrees
  import opened CloneSteps
  import opened FramePrices

  class Mmu {
    const pmm: Pmm
    var ram: Ram
    var cr3: nat
    const kernelPml4: nat

    /** Where every owned frame sits. */
    ghost var tree: Tree
    /** The tables linked into the kernel image, never managed by the frame allocator. */
    ghost const fixed: set<nat>

    /** Before remap_kernel: the boot PML4 is loaded, which remap_kernel will capture as the kernel's, with
        the tables the boot code built and no frame handed out. */
    constructor (pmm: Pmm, ram: Ram, bootPml4: nat, ghost boot: Tree)
      requires pmm.Valid() && pmm.free == pmm.pool
      requires Inv(ram, boot) && boot.Onto() && boot.at[Root(Kernel)] == bootPml4
      requires forall f | f in boot.role :: f !in pmm.pool && OwnerOf(boot.role[f]) == Kernel && Level(boot.role[f]) <= 3
      requires Child(Root(Kernel), HEAP_SLOT) !in boot.at
      ensures Valid() && this.ram == ram && this.pmm == pmm && cr3 == kernelPml4 == bootPml4 && tree == boot
    {
      this.pmm, this.ram, this.cr3, this.kernelPml4 := pmm, ram, bootPml4, bootPml4;
      tree, fixed := boot, boot.role.Keys;
    }

    ghost predicate Valid()
      reads this, pmm, pmm.bitmap
    {
      && pmm.Valid()
      && Good(ram, tree)
      && tree.at[Root(Kernel)] == kernelPml4
      && (Child(Root(Kernel), HEAP_SLOT) in tree.at ==> ram[kernelPml4][HEAP_SLOT].fl.writable)
      && (forall f {:trigger f in tree.role} | f in tree.role :: f in pmm.Live() || f in fixed)
      && (forall f {:trigger f in fixed} | f in fixed :: f !in pmm.pool)
      && (forall f {:trigger f in tree.role, f in fixed} | f in tree.role && f in fixed :: OwnerOf(tree.role[f]) == Kernel && Level(tree.role[f]) <= 3)
    }

    /** Allocated frames that sit nowhere in the tree. */
    ghost function Outside(): set<nat>
      reads this, pmm
    {
      pmm.Live() - tree.role.Keys
    }

    /** The allocator's bookkeeping that no mapping changes. */
    twostate predicate Steady()
      reads this, pmm
    {
      && cr3 == old(cr3) && pmm.pool == old(pmm.pool) && pmm.totalFrames == old(pmm.totalFrames)
      && pmm.released == old(pmm.released)
    }

    /** Zero a frame word by word. */
    method ZeroFrame(f: nat)
      requires f < |ram|
      modifies this`ram
      ensures OnlyFrame(old(ram), ram, f) && forall j: Index :: ram[f][j] == ZERO
    {
      var i := 0;
      while i < 512
        invariant 0 <= i <= 512 && OnlyFrame(old(ram), ram, f)
        invariant forall j: Index | j < i :: ram[f][j] == ZERO
      {
        ram := Store(ram, f, i, ZERO);
        i := i + 1;
      }
    }

    /** What ensure_table may be asked: an owned entry of a table in the tree, or the heap slot
        that a space shares with the kernel, and never a 2 MiB entry. */
    ghost predicate CanEnsure(table: nat, idx: Index, fl: Flags, p: Path)
      reads this, pmm, pmm.bitmap
    {
      && Valid() && p in tree.at && table == tree.at[p] && Level(p) <= 2
      && (OwnStep(p, idx) || (p.Root? && idx == HEAP_SLOT && Child(Root(Kernel), HEAP_SLOT) in tree.at))
      && !(ram[table][idx].fl.present && ram[table][idx].fl.huge && IdentityPd(p))
      && fl == Intermediate(fl.user) && (fl.user ==> UserAbove(ram, tree, p) && !(p.Root? && idx == HEAP_SLOT))
    }

    /** What ensure_table guarantees: the entry leads to table `next`, nobody's translation changed,
        and only tables of the owner of that position were touched or added. */
    twostate predicate Ensured(idx: Index, user: bool, p: Path, next: nat)
      requires Good(old(ram), old(tree))
      reads this, pmm, pmm.bitmap
    {
      var c := Below(p, idx);
      && Valid() && Outside() == old(Outside())
      && c in tree.at && next == tree.at[c] && (user ==> UserAbove(ram, tree, c))
      && TableStep(old(ram), old(tree), ram, tree, OwnerOf(c))
    }

    /** How many frames the table at p still costs. */
    ghost function Cost(p: Path): nat
      reads this
    {
      if p in tree.at then 0 else 1
    }

    /** Exactly n free frames were needed, the call succeeds if there are as many, and it takes them;
        it fails when the last one is gone. */
    twostate predicate Pays(ok: bool, n: nat)
      reads this, pmm
    {
      (ok <==> |old(pmm.free)| >= n) && (ok ==> |pmm.free| == |old(pmm.free)| - n) && (!ok ==> pmm.free == {})
    }

    /** The call needs a frame for every wanted position that is missing; it succeeds exactly if there are
        as many, takes exactly these, and fails when the last one is gone. */
    twostate predicate Buys(ok: bool, wanted: set<Path>)
      reads this, pmm
    {
      && (ok <==> |old(pmm.free)| >= |wanted - old(tree.at.Keys)|)
      && (ok ==> Bought(old(tree.at.Keys), |old(pmm.free)|, tree.at.Keys, |pmm.free|, wanted))
      && (!ok ==> pmm.free == {})
    }

    /** alloc_frame, seen from the page tables: a frame that sits nowhere yet. */
    method Alloc() returns (ok: bool, frame: nat)
      requires Valid()
      modifies pmm, pmm.bitmap
      ensures Steady() && Pays(ok, 1)
      ensures ok ==> Valid() && frame in old(pmm.free) && pmm.free == old(pmm.free) - {frame}
      ensures ok ==> 0 < frame < MAX_FRAMES && frame !in tree.role && frame !in fixed
      ensures ok ==> Outside() == old(Outside()) + {frame} && frame !in old(Outside())
    {
      hide Good;
      ok, frame := pmm.AllocFrame();
    }

    /** The stores of ensure_table's absent case. */
    method StoreTable(table: nat, idx: Index, next: nat, fl: Flags)
      requires next < |ram| && table < |ram| && next != table
      modifies this`ram
      ensures LinkedNew(old(ram), ram, next, table, idx, fl)
    {
      ZeroFrame(next);
      ram := Store(ram, table, idx, Entry(next, fl));
    }

    /** The absent case of ensure_table, once a frame has been found. */
    method LinkTable(table: nat, idx: Index, next: nat, fl: Flags, ghost p: Path)
      requires CanEnsure(table, idx, fl, p) && !ram[table][idx].fl.present
      requires next in Outside() && 0 < next < MAX_FRAMES
      modifies this`ram, this`tree
      ensures Valid() && Outside() == old(Outside()) - {next}
      ensures Below(p, idx) in tree.at && next == tree.at[Below(p, idx)]
      ensures fl.user ==> UserAbove(ram, tree, Below(p, idx))
      ensures TableStep(old(ram), old(tree), ram, tree, OwnerOf(Below(p, idx)))
      ensures tree.at.Keys == old(tree.at.Keys) + {Below(p, idx)} && Below(p, idx) !in old(tree.at)
    {
      hide Linked, Shared, Granting, KeptWalks, Extends, OnlyTablesOf, OnlyNewTablesOf, Pmm.Valid;
      ghost var ram0, t0 := ram, tree;
      FollowShared(p, idx);
      EntryOf(ram, tree, p, idx);
      StoreTable(table, idx, next, fl);
      tree := tree.Add(Child(p, idx), next);
      LinkStep(ram0, t0, ram, p, idx, next, fl);
      assert OwnerOf(Child(p, idx)) == OwnerOf(p);
    }

    /** The heap entry of a space is the kernel's. */
    lemma FollowShared(p: Path, idx: Index)
      requires Valid() && p in tree.at && (OwnStep(p, idx) || (p.Root? && idx == HEAP_SLOT && Child(Root(Kernel), HEAP_SLOT) in tree.at))
      ensures !OwnStep(p, idx) ==> ram[tree.at[p]][idx] == ram[kernelPml4][HEAP_SLOT]
      ensures !OwnStep(p, idx) ==> ram[tree.at[p]][idx].fl.present && ram[tree.at[p]][idx].fl.writable
      ensures !OwnStep(p, idx) ==> ram[tree.at[p]][idx].frame == tree.at[Below(p, idx)]
      ensures OwnStep(p, idx) ==> Below(p, idx) == Child(p, idx)
    {
      if !OwnStep(p, idx) {
        assert Level(Root(Kernel)) == 0;
        assert LinkedAt(ram, tree, Root(Kernel), HEAP_SLOT);
        match p.owner
        case Kernel =>
        case Space(s) => assert Root(Space(s)) in tree.at;
      }
    }

    /** The present case of ensure_table. */
    method Widen(table: nat, idx: Index, fl: Flags, ghost p: Path) returns (next: nat)
      requires CanEnsure(table, idx, fl, p) && ram[table][idx].fl.present
      modifies this`ram
      ensures Steady() && tree == old(tree) && Ensured(idx, fl.user, p, next)
      ensures Below(p, idx) in tree.at
    {
      hide Linked, Shared, Granting, TreeWalk, Pmm.Valid;
      ghost var ram0 := ram;
      FollowShared(p, idx);
      var e := Widened(ram[table][idx], fl.writable, fl.user);
      ram := Store(ram, table, idx, e);
      next := e.frame;
      if OwnStep(p, idx) {
        LinkOf(ram0, tree, p, idx);
        WidenStep(ram0, tree, ram, p, idx, fl.writable, fl.user);
        assert OwnerOf(Child(p, idx)) == OwnerOf(p);
      } else {
        StoreSame(ram0, table, idx);
      }
    }

    /** The absent case of ensure_table. */
    method AddTable(table: nat, idx: Index, fl: Flags, ghost p: Path) returns (ok: bool, next: nat)
      requires CanEnsure(table, idx, fl, p) && !ram[table][idx].fl.present
      modifies this`ram, this`tree, pmm, pmm.bitmap
      ensures Steady() && (ok ==> Ensured(idx, fl.user, p, next))
      ensures Pays(ok, 1)
      ensures ok ==> tree.at.Keys == old(tree.at.Keys) + {Below(p, idx)} && Below(p, idx) !in old(tree.at)
    {
      hide Linked, Shared, Granting, KeptWalks, Extends, OnlyTablesOf, OnlyNewTablesOf, Pmm.Valid;
      FollowShared(p, idx);
      ok, next := Alloc();
      if !ok { return; }
      LinkTable(table, idx, next, fl, p);
    }

    /** Make entry idx of `table` lead to a table, allocating one or widening the entry. */
    method EnsureTable(table: nat, idx: Index, fl: Flags, ghost p: Path) returns (ok: bool, next: nat)
      requires CanEnsure(table, idx, fl, p)
      modifies this`ram, this`tree, pmm, pmm.bitmap
      ensures Steady() && (ok ==> Ensured(idx, fl.user, p, next))
      ensures Pays(ok, old(Cost(Below(p, idx)))) && (ok ==> tree.at.Keys == old(tree.at.Keys) + {Below(p, idx)})
    {
      EntryIsTable(table, idx, fl, p);
      hide Good, TableStep, Pmm.Valid, CanEnsure, OwnStep;
      if !ram[table][idx].fl.present {
        ok, next := AddTable(table, idx, fl, p);
      } else {
        ok := true;
        next := Widen(table, idx, fl, p);
      }
    }

    /** An entry of the kind ensure_table meets is present exactly if the tree has a table there. */
    lemma EntryIsTable(table: nat, idx: Index, fl: Flags, p: Path)
      requires CanEnsure(table, idx, fl, p)
      ensures ram[table][idx].fl.present <==> Below(p, idx) in tree.at
    {
      FollowShared(p, idx);
      if OwnStep(p, idx) { LinkOf(ram, tree, p, idx); }
    }

    /** The 512 stores of split_huge_page, and the one that links the new table. */
    method StorePieces(pd: nat, idx: Index, pt: nat)
      requires |ram| == MAX_FRAMES && pd < |ram| && pt < |ram| && pd != pt
      modifies this`ram
      ensures |ram| == |old(ram)|
      ensures forall g | 0 <= g < |ram| && g != pt && g != pd :: ram[g] == old(ram)[g]
      ensures ram[pd][idx] == Entry(pt, TABLE_FLAGS)
      ensures forall j: Index | j != idx :: ram[pd][j] == old(ram)[pd][j]
      ensures forall j: Index :: ram[pt][j] == Entry(Piece2M(old(ram)[pd][idx], j).frame, Carried(old(ram)[pd][idx].fl))
    {
      var e := ram[pd][idx];
      var base := e.frame - e.frame % 512;
      var i := 0;
      while i < 512
        invariant 0 <= i <= 512 && OnlyFrame(old(ram), ram, pt)
        invariant forall j: Index | j < i :: ram[pt][j] == Entry(base + j, Carried(e.fl))
      {
        ram := Store(ram, pt, i, Entry(base + i, Carried(e.fl)));
        i := i + 1;
      }
      ram := Store(ram, pd, idx, Entry(pt, TABLE_FLAGS));
    }

    /** The stores of split_huge_page, once a frame has been found. */
    method SplitInto(pd: nat, idx: Index, pt: nat, ghost p: Path)
      requires CanSplitAt(pd, idx, p) && pt in Outside() && 0 < pt < MAX_FRAMES
      modifies this`ram, this`tree
      ensures Valid() && Outside() == old(Outside()) - {pt}
      ensures tree.at.Keys == old(tree.at.Keys) + {Child(p, idx)} && Child(p, idx) !in old(tree.at)
      ensures TableStep(old(ram), old(tree), ram, tree, Kernel) && OwnerOf(p) == Kernel
      ensures SameRights(old(ram), old(tree), ram, tree)
    {
      hide Linked, Shared, Granting, SameRights, KeptWalks, Extends, OnlyTablesOf, OnlyNewTablesOf, Pmm.Valid;
      ghost var ram0, t0 := ram, tree;
      StorePieces(pd, idx, pt);
      tree := tree.Add(Child(p, idx), pt);
      SplitStep(ram0, t0, ram, p, idx, pt);
      SplitSameRights(ram0, t0, ram, p, idx, pt);
    }

    /** What split_huge_page may be asked: a present 2 MiB entry of a page directory in the tree. */
    ghost predicate CanSplitAt(pd: nat, idx: Index, p: Path)
      reads this, pmm, pmm.bitmap
    {
      && Valid() && p in tree.at && pd == tree.at[p] && Level(p) == 2 && OwnStep(p, idx)
      && ram[pd][idx].fl.present && ram[pd][idx].fl.huge
    }

    /** Replace the 2 MiB entry idx of the page directory at p by a table of 512 entries. */
    method SplitHugePage(pd: nat, idx: Index, ghost p: Path) returns (ok: bool)
      requires CanSplitAt(pd, idx, p)
      modifies this`ram, this`tree, pmm, pmm.bitmap
      ensures Steady() && Pays(ok, 1)
      ensures ok ==> Valid() && Outside() == old(Outside()) && tree.at.Keys == old(tree.at.Keys) + {Child(p, idx)} && Child(p, idx) !in old(tree.at)
      ensures ok ==> TableStep(old(ram), old(tree), ram, tree, Kernel) && OwnerOf(p) == Kernel
      ensures ok ==> SameRights(old(ram), old(tree), ram, tree)
    {
      hide Linked, Shared, Granting, SameRights, TableStep, Pmm.Valid;
      var pt;
      ok, pt := Alloc();
      if !ok { return; }
      SplitInto(pd, idx, pt, p);
    }

    /** pml4 is where a walk for page pg of owner o may start: the owner's own PML4, or for a heap
        page any PML4 once the heap slot exists. */
    ghost predicate StartsAt(pml4: nat, pg: Page, o: Owner)
      reads this
    {
      && pml4 in tree.role && tree.role[pml4].Root? && Root(o) in tree.at && Tracked(o, pg)
      && (tree.role[pml4] == Root(o) || (o == Kernel && pg.i4 == HEAP_SLOT && Child(Root(Kernel), HEAP_SLOT) in tree.at))
    }

    /** The tables of o that lead to page pg are in place, and nothing else has happened. */
    twostate predicate Reached(p: Path, table: nat, user: bool, o: Owner)
      requires Good(old(ram), old(tree))
      reads this, pmm, pmm.bitmap
    {
      && Valid() && Outside() == old(Outside())
      && p in tree.at && table == tree.at[p] && (user ==> UserAbove(ram, tree, p))
      && TableStep(old(ram), old(tree), ram, tree, o)
    }

    /** The positions of the tables that lead to page pg of o. */
    function Tables(o: Owner, pg: Page): set<Path> { Above(o, pg) }

    /** The frames that the tables on the way to page pg of o still cost. */
    ghost function TableCost(o: Owner, pg: Page): nat
      reads this
    {
      Cost(Child(Root(o), pg.i4)) + Cost(PdPath(o, pg)) + Cost(PtPath(o, pg))
    }

    /** The first level of map_into. */
    method WalkToPdpt(pml4: nat, pg: Page, user: bool, ghost o: Owner) returns (ok: bool, pdpt: nat)
      requires Valid() && StartsAt(pml4, pg, o) && (user ==> o.Space?)
      modifies this`ram, this`tree, pmm, pmm.bitmap
      ensures Steady() && (ok ==> Reached(Child(Root(o), pg.i4), pdpt, user, o))
      ensures Pays(ok, old(Cost(Child(Root(o), pg.i4)))) && (ok ==> tree.at.Keys == old(tree.at.Keys) + {Child(Root(o), pg.i4)})
    {
      hide Linked, Shared, Granting, TableStep, Pmm.Valid;
      OwnSteps(o, pg);
      RootEntry(pml4, pg, o);
      assert OwnerOf(Child(Root(o), pg.i4)) == o;
      ok, pdpt := EnsureTable(pml4, pg.i4, Intermediate(user), tree.role[pml4]);
    }

    /** The first two levels of map_into. */
    method WalkToPd(pml4: nat, pg: Page, user: bool, ghost o: Owner) returns (ok: bool, pd: nat)
      requires Valid() && StartsAt(pml4, pg, o) && (user ==> o.Space?)
      modifies this`ram, this`tree, pmm, pmm.bitmap
      ensures Steady() && (ok ==> Reached(PdPath(o, pg), pd, user, o))
      ensures Pays(ok, old(Cost(Child(Root(o), pg.i4)) + Cost(PdPath(o, pg))))
      ensures ok ==> tree.at.Keys == old(tree.at.Keys) + ({Child(Root(o), pg.i4)} + {PdPath(o, pg)})
    {
      hide Linked, Shared, Granting, TableStep, Pmm.Valid;
      OwnSteps(o, pg);
      ghost var ram0, t0, n := ram, tree, Cost(PdPath(o, pg));
      var pdpt;
      ok, pdpt := WalkToPdpt(pml4, pg, user, o);
      if !ok { return false, 0; }
      ghost var ram1, t1 := ram, tree;
      assert Cost(PdPath(o, pg)) == n && Level(Child(Root(o), pg.i4)) == 1;
      ok, pd := EnsureTable(pdpt, pg.i3, Intermediate(user), Child(Root(o), pg.i4));
      if !ok { return; }
      TableStepTrans(ram0, t0, ram1, t1, ram, tree, o);
    }

    lemma RootEntry(pml4: nat, pg: Page, o: Owner)
      requires Valid() && StartsAt(pml4, pg, o)
      ensures tree.role[pml4] in tree.at && pml4 == tree.at[tree.role[pml4]] && Level(tree.role[pml4]) == 0 && pml4 < |ram|
      ensures Below(tree.role[pml4], pg.i4) == Child(Root(o), pg.i4)
      ensures OwnStep(tree.role[pml4], pg.i4) || (pg.i4 == HEAP_SLOT && Child(Root(Kernel), HEAP_SLOT) in tree.at)
    {
      OwnSteps(o, pg);
    }

    /** The third level of map_into: a covering 2 MiB entry is split on the way. */
    method EnsurePt(pd: nat, pg: Page, user: bool, ghost o: Owner) returns (ok: bool, pt: nat)
      requires Valid() && Tracked(o, pg) && PdPath(o, pg) in tree.at && pd == tree.at[PdPath(o, pg)]
      requires user ==> o.Space? && UserAbove(ram, tree, PdPath(o, pg))
      modifies this`ram, this`tree, pmm, pmm.bitmap
      ensures Steady() && (ok ==> Ensured(pg.i2, user, PdPath(o, pg), pt))
      ensures Pays(ok, old(Cost(PtPath(o, pg)))) && (ok ==> tree.at.Keys == old(tree.at.Keys) + {PtPath(o, pg)})
    {
      hide Linked, Shared, Granting, KeptWalks, Extends, OnlyTablesOf, OnlyNewTablesOf, Pmm.Valid, SameRights;
      OwnSteps(o, pg);
      ghost var p := PdPath(o, pg);
      EntryOf(ram, tree, p, pg.i2);
      if ram[pd][pg.i2].fl.present && ram[pd][pg.i2].fl.huge {
        ok, pt := SplitToPt(pd, pg, user, o);
      } else {
        ok, pt := EnsureTable(pd, pg.i2, Intermediate(user), p);
      }
    }

    /** The case of a 2 MiB entry: only the kernel's identity map has them. */
    method SplitToPt(pd: nat, pg: Page, user: bool, ghost o: Owner) returns (ok: bool, pt: nat)
      requires CanSplitAt(pd, pg.i2, PdPath(o, pg)) && (user ==> o.Space?)
      modifies this`ram, this`tree, pmm, pmm.bitmap
      ensures Steady() && (ok ==> Ensured(pg.i2, user, PdPath(o, pg), pt))
      ensures Pays(ok, old(Cost(PtPath(o, pg)))) && (ok ==> tree.at.Keys == old(tree.at.Keys) + {PtPath(o, pg)})
    {
      hide Linked, Shared, Granting, KeptWalks, Extends, OnlyTablesOf, OnlyNewTablesOf, Pmm.Valid, SameRights;
      ghost var ram0, t0, p := ram, tree, PdPath(o, pg);
      EntryOf(ram, tree, p, pg.i2);
      OwnSteps(o, pg);
      SplitPrice(pd, pg.i2, p);
      ok := SplitHugePage(pd, pg.i2, p);
      pt := 0;
      if !ok { return; }
      ghost var ram1, t1 := ram, tree;
      EntryOf(ram, tree, p, pg.i2);
      SplitExtends(ram0, t0, ram, tree, p, o);
      ok, pt := EnsureTable(pd, pg.i2, Intermediate(user), p);
      TableStepTrans(ram0, t0, ram1, t1, ram, tree, o);
    }

    lemma SplitPrice(pd: nat, idx: Index, p: Path)
      requires CanSplitAt(pd, idx, p)
      ensures Child(p, idx) !in tree.at && OwnerOf(p) == Kernel
    {
      LinkOf(ram, tree, p, idx);
    }

    /** All levels of map_into but the last store. */
    method WalkToPt(pml4: nat, pg: Page, user: bool, ghost o: Owner) returns (ok: bool, pt: nat)
      requires Valid() && StartsAt(pml4, pg, o) && (user ==> o.Space?)
      modifies this`ram, this`tree, pmm, pmm.bitmap
      ensures Steady() && (ok ==> Reached(PtPath(o, pg), pt, user, o))
      ensures Pays(ok, old(TableCost(o, pg))) && (ok ==> tree.at.Keys == old(tree.at.Keys) + Tables(o, pg))
    {
      hide Linked, Shared, Granting, TableStep, Pmm.Valid;
      OwnSteps(o, pg);
      ghost var ram0, t0 := ram, tree;
      var pd;
      ghost var n := Cost(PtPath(o, pg));
      ok, pd := WalkToPd(pml4, pg, user, o);
      if !ok { return false, 0; }
      ghost var ram1, t1 := ram, tree;
      assert Cost(PtPath(o, pg)) == n;
      ok, pt := EnsurePt(pd, pg, user, o);
      if !ok { return; }
      TableStepTrans(ram0, t0, ram1, t1, ram, tree, o);
    }

    /** What a mapping may be asked: a frame of the caller's own that sits nowhere else (or already
        at this page), no user access to kernel pages. */
    ghost predicate CanMapPage(pml4: nat, pg: Page, frame: nat, fl: Flags, o: Owner)
      reads this, pmm, pmm.bitmap
    {
      && Valid() && StartsAt(pml4, pg, o) && fl.present && !fl.huge && (fl.user ==> o.Space?)
      && (Own(Leaf(o, pg)) ==> frame in Outside() || (Leaf(o, pg) in tree.at && frame == tree.at[Leaf(o, pg)]))
    }

    /** The frame that mapping pg to `frame` pushes out. */
    ghost function Replaced(o: Owner, pg: Page, frame: nat): set<nat>
      reads this
    {
      if Own(Leaf(o, pg)) && Leaf(o, pg) in tree.at && tree.at[Leaf(o, pg)] != frame then {tree.at[Leaf(o, pg)]} else {}
    }

    /** Page pg of o now maps to `frame` with flags fl, and nothing else changed its meaning. */
    twostate predicate PageMapped(pg: Page, frame: nat, fl: Flags, o: Owner)
      requires Good(old(ram), old(tree))
      reads this, pmm, pmm.bitmap
    {
      && Valid()
      && Outside() == old(Outside()) - (if Own(Leaf(o, pg)) then {frame} else {}) + old(Replaced(o, pg, frame))
      && MapStep(old(ram), old(tree), ram, tree, o, pg, frame, fl)
    }

    /** The last store of map_into. */
    method StoreLeaf(pt: nat, pg: Page, frame: nat, fl: Flags, ghost o: Owner)
      requires Valid() && PtPath(o, pg) in tree.at && pt == tree.at[PtPath(o, pg)]
      requires fl.present && !fl.huge && (fl.user ==> UserAbove(ram, tree, PtPath(o, pg)))
      requires Own(Leaf(o, pg)) ==> frame in Outside() || (Leaf(o, pg) in tree.at && frame == tree.at[Leaf(o, pg)])
      modifies this`ram, this`tree
      ensures PageMapped(pg, frame, fl, o)
      ensures tree.at.Keys == old(tree.at.Keys) + (if Own(Leaf(o, pg)) then {Leaf(o, pg)} else {})
    {
      hide Linked, Shared, Granting, KeptWalks, Extends, OnlyTablesOf, OnlyNewTablesOf, Pmm.Valid, MapStep, Mapped, Own;
      ghost var ram0, t0 := ram, tree;
      PtNotRoot(ram, tree, o, pg, frame);
      OwnSteps(o, pg);
      LiveBounds();
      ram := Store(ram, pt, pg.i1, Entry(frame, fl));
      tree := Mapped(tree, o, pg, frame);
      MappedKeys(t0, o, pg, frame);
      LeafStep(ram0, t0, ram, o, pg, frame, fl);
      MappedRoles(t0, o, pg, frame, pmm.Live());
      hide Good;
    }

    lemma MappedKeys(t: Tree, o: Owner, pg: Page, f: nat)
      ensures Mapped(t, o, pg, f).at.Keys == t.at.Keys + (if Own(Leaf(o, pg)) then {Leaf(o, pg)} else {})
    {
    }

    lemma LiveBounds()
      requires Valid()
      ensures forall f | f in pmm.Live() :: 0 < f < MAX_FRAMES
      ensures forall p | p in tree.at && Level(p) == 4 :: tree.at[p] in pmm.Live()
    {
    }

    /** The core of map: install page pg -> frame below an explicit PML4. */
    method MapInto(pml4: nat, pg: Page, frame: nat, fl: Flags, ghost o: Owner) returns (ok: bool)
      requires CanMapPage(pml4, pg, frame, fl, o)
      modifies this`ram, this`tree, pmm, pmm.bitmap
      ensures Steady() && (ok ==> PageMapped(pg, frame, fl, o))
      ensures Pays(ok, old(TableCost(o, pg)))
      ensures ok ==> tree.at.Keys == old(tree.at.Keys) + Tables(o, pg) + (if Own(Leaf(o, pg)) then {Leaf(o, pg)} else {})
    {
      hide Linked, Shared, Granting, KeptWalks, Extends, OnlyTablesOf, OnlyNewTablesOf, Pmm.Valid, MapStep, Own, Shaped;
      ghost var ram0, t0 := ram, tree;
      var pt;
      ok, pt := WalkToPt(pml4, pg, fl.user, o);
      if !ok { return; }
      ghost var ram1, t1 := ram, tree;
      LeafKept(ram0, t0, ram1, t1, o, pg);
      StoreLeaf(pt, pg, frame, fl, o);
      MapStepAfter(ram0, t0, ram1, t1, ram, tree, o, pg, frame, fl);
    }

    /** The walk from any PML4 that may start a walk for pg finds what the tree says. */
    lemma ActiveWalk(pml4: nat, pg: Page, o: Owner)
      requires Valid() && StartsAt(pml4, pg, o)
      ensures Walk(ram, pml4, pg) == TreeWalk(ram, tree, o, pg)
    {
      WalkIsTreeWalk(ram, tree, o, pg);
      RootEntry(pml4, pg, o);
      FollowShared(tree.role[pml4], pg.i4);
      assert Level(Root(Kernel)) == 0;
    }

    /** The physical address behind byte `offset` of a page in the active space. It is 0 when the page
        is not mapped, but also for the first byte of physical memory. */
    method VirtToPhys(pg: Page, offset: nat) returns (phys: nat)
      ensures phys == 0 <==> Walk(ram, cr3, pg).None? || (Walk(ram, cr3, pg).value.frame == 0 && offset == 0)
      ensures phys ==
        match Walk(ram, cr3, pg)
        case None => 0
        case Some(e) => e.frame * PAGE_SIZE + offset
    {
      var pml4 := Load(ram, cr3);
      if !pml4[pg.i4].fl.present { return 0; }
      var pdpt := Load(ram, pml4[pg.i4].frame);
      if !pdpt[pg.i3].fl.present { return 0; }
      if pdpt[pg.i3].fl.huge {
        var base := pdpt[pg.i3].frame - pdpt[pg.i3].frame % 0x4_0000;
        return base * PAGE_SIZE + (pg.i2 * 0x20_0000 + pg.i1 * PAGE_SIZE + offset);
      }
      var pd := Load(ram, pdpt[pg.i3].frame);
      if !pd[pg.i2].fl.present { return 0; }
      if pd[pg.i2].fl.huge {
        var base := pd[pg.i2].frame - pd[pg.i2].frame % 512;
        return base * PAGE_SIZE + (pg.i1 * PAGE_SIZE + offset);
      }
      var pt := Load(ram, pd[pg.i2].frame);
      if !pt[pg.i1].fl.present { return 0; }
      return pt[pg.i1].frame * PAGE_SIZE + offset;
    }

    /** Map a page in the active address space. */
    method Map(pg: Page, frame: nat, fl: Flags, ghost o: Owner) returns (ok: bool)
      requires CanMapPage(cr3, pg, frame, fl, o)
      modifies this`ram, this`tree, pmm, pmm.bitmap
      ensures Steady() && (ok ==> PageMapped(pg, frame, fl, o))
      ensures Pays(ok, old(TableCost(o, pg)))
      ensures ok ==> tree.at.Keys == old(tree.at.Keys) + Tables(o, pg) + (if Own(Leaf(o, pg)) then {Leaf(o, pg)} else {})
    {
      ok := MapInto(cr3, pg, frame, fl, o);
    }

    /** Change the flags of a mapped page, keeping its frame. */
    method Protect(pg: Page, fl: Flags, ghost o: Owner) returns (ok: bool)
      requires Valid() && StartsAt(cr3, pg, o) && Own(Leaf(o, pg)) && fl.present && !fl.huge && (fl.user ==> o.Space?)
      modifies this`ram, this`tree, pmm, pmm.bitmap
      ensures Steady() && ok
      ensures ok && old(TreeWalk(ram, tree, o, pg)).None? ==> Valid() && ram == old(ram) && tree == old(tree) && Outside() == old(Outside())
      ensures ok && old(TreeWalk(ram, tree, o, pg)).Some? ==>
        PageMapped(pg, old(TreeWalk(ram, tree, o, pg)).value.frame, fl, o) && Outside() == old(Outside())
    {
      hide Linked, Shared, Granting, KeptWalksBut, MapStep, Pmm.Valid;
      ActiveWalk(cr3, pg, o);
      MappedFrame(ram, tree, o, pg);
      var phys := VirtToPhys(pg, 0);
      if phys == 0 { return true; }
      LiveBounds();
      TablesThere(pg, o);
      ok := Map(pg, phys / PAGE_SIZE, fl, o);
    }

    /** A mapped page needs no more tables. */
    lemma TablesThere(pg: Page, o: Owner)
      requires Good(ram, tree)
      ensures Leaf(o, pg) in tree.at ==> TableCost(o, pg) == 0
    {
    }

    /** Page pg of o no longer maps; the frame that sat there sits nowhere now. */
    twostate predicate PageCleared(pg: Page, o: Owner)
      requires Good(old(ram), old(tree))
      reads this, pmm, pmm.bitmap
    {
      && Valid()
      && Outside() == old(Outside()) + (if Leaf(o, pg) in old(tree).at then {old(tree).at[Leaf(o, pg)]} else {})
      && ClearStep(old(ram), old(tree), ram, tree, o, pg)
    }

    /** The store of unmap. */
    method ClearEntry(pt: nat, pg: Page, ghost o: Owner)
      requires Valid() && PtPath(o, pg) in tree.at && pt == tree.at[PtPath(o, pg)]
      modifies this`ram, this`tree
      ensures PageCleared(pg, o)
    {
      hide Linked, Shared, Granting, KeptWalks, Extends, OnlyTablesOf, OnlyNewTablesOf, Pmm.Valid, ClearStep, Own;
      ghost var ram0, t0 := ram, tree;
      PtNotRoot(ram, tree, o, pg, 0);
      OwnSteps(o, pg);
      LiveBounds();
      ram := Store(ram, pt, pg.i1, ZERO);
      tree := Cleared(tree, o, pg);
      UnmapStep(ram0, t0, ram, o, pg);
      ClearedRoles(t0, o, pg, pmm.Live());
      hide Good;
    }

    /** Remove the mapping of a page in the active address space. The frame is not freed. */
    method Unmap(pg: Page, ghost o: Owner) returns (ok: bool)
      requires Valid() && StartsAt(cr3, pg, o)
      modifies this`ram, this`tree, pmm, pmm.bitmap
      ensures Steady() && (ok ==> PageCleared(pg, o))
      ensures (o.Space? ==> ok) && (!ok ==> pmm.free == {})
    {
      hide Linked, Shared, Granting, KeptWalks, Extends, OnlyTablesOf, OnlyNewTablesOf, Pmm.Valid, ClearStep, Own;
      ghost var ram0, t0 := ram, tree;
      RootEntry(cr3, pg, o);
      FollowShared(tree.role[cr3], pg.i4);
      UpperEntries(ram, tree, o, pg);
      if !ram[cr3][pg.i4].fl.present { NoTableNoPage(ram, tree, o, pg); NothingToClear(ram, tree, o, pg); return true; }
      var pdpt := ram[cr3][pg.i4].frame;
      if !ram[pdpt][pg.i3].fl.present { NoTableNoPage(ram, tree, o, pg); NothingToClear(ram, tree, o, pg); return true; }
      var pd := ram[pdpt][pg.i3].frame;
      ok := UnmapBelow(pd, pg, o);
    }

    /** unmap from the page directory on: a covering 2 MiB entry is split first. */
    method UnmapBelow(pd: nat, pg: Page, ghost o: Owner) returns (ok: bool)
      requires Valid() && Tracked(o, pg) && PdPath(o, pg) in tree.at && pd == tree.at[PdPath(o, pg)]
      modifies this`ram, this`tree, pmm, pmm.bitmap
      ensures Steady() && (ok ==> PageCleared(pg, o))
      ensures (o.Space? ==> ok) && (!ok ==> pmm.free == {})
    {
      hide Linked, Shared, Granting, KeptWalks, Extends, OnlyTablesOf, OnlyNewTablesOf, Pmm.Valid, ClearStep, Own;
      ghost var ram0, t0 := ram, tree;
      OwnSteps(o, pg);
      TableStepRefl(ram, tree, o);
      EntryOf(ram, tree, PdPath(o, pg), pg.i2);
      ok := true;
      if ram[pd][pg.i2].fl.present && ram[pd][pg.i2].fl.huge {
        ok := SplitHugePage(pd, pg.i2, PdPath(o, pg));
        if !ok { return; }
        SplitExtends(ram0, t0, ram, tree, PdPath(o, pg), o);
        EntryOf(ram, tree, PdPath(o, pg), pg.i2);
      }
      ghost var ram1, t1 := ram, tree;
      LeafKept(ram0, t0, ram1, t1, o, pg);
      if !ram[pd][pg.i2].fl.present {
        NoTableNoPage(ram, tree, o, pg);
        NothingToClear(ram, tree, o, pg);
      } else {
        ClearEntry(ram[pd][pg.i2].frame, pg, o);
      }
      ClearStepAfter(ram0, t0, ram1, t1, ram, tree, o, pg);
    }

    // ---- creating a space ----

    /** A fresh frame, zeroed. */
    method AllocZeroed() returns (ok: bool, frame: nat)
      requires Valid()
      modifies this`ram, pmm, pmm.bitmap
      ensures Steady()
      ensures ok ==> Valid() && frame in old(pmm.free) && pmm.free == old(pmm.free) - {frame}
      ensures ok ==> 0 < frame < MAX_FRAMES && frame !in tree.role && frame !in fixed
      ensures ok ==> Outside() == old(Outside()) + {frame} && frame !in old(Outside())
      ensures ok ==> OnlyFrame(old(ram), ram, frame) && forall j: Index :: ram[frame][j] == ZERO
      ensures Pays(ok, 1)
    {
      hide Linked, Shared, Granting, Pmm.Valid;
      ok, frame := Alloc();
      if !ok { return; }
      ghost var ram0 := ram;
      ZeroFrame(frame);
      WriteData(ram0, tree, ram, frame);
      RootKept(ram0);
    }

    lemma RootKept(ram0: Ram)
      requires Good(ram0, tree) && tree.at[Root(Kernel)] == kernelPml4 && |ram| == |ram0|
      requires exists f :: OnlyFrame(ram0, ram, f) && f !in tree.role
      ensures ram[kernelPml4] == ram0[kernelPml4]
    {
    }

    /** The new directory of gigabyte k: the kernel's present entries, except in the window. */
    method CopyPd(kernelPd: nat, pd: nat, k: nat)
      requires |ram| == MAX_FRAMES && kernelPd < |ram| && pd < |ram| && kernelPd != pd && k < 4
      modifies this`ram
      ensures OnlyFrame(old(ram), ram, pd)
      ensures forall j: Index :: ram[pd][j] == CopiedEntry(old(ram)[kernelPd], k, j)
    {
      var j := 0;
      while j < 512
        invariant 0 <= j <= 512 && OnlyFrame(old(ram), ram, pd)
        invariant forall i: Index | i < j :: ram[pd][i] == CopiedEntry(old(ram)[kernelPd], k, i)
      {
        // 2 MiB units: the window is [2 MiB, 16 MiB)
        var unit := k * 512 + j;
        var reserved := 1 <= unit < 8;
        ram := Store(ram, pd, j, if !reserved && ram[kernelPd][j].fl.present then ram[kernelPd][j] else ZERO);
        j := j + 1;
      }
    }

    /** One round of the loop over the low four gigabytes. */
    method CloneLowPd(pdpt: nat, k: nat) returns (ok: bool, pd: nat)
      requires Valid() && pdpt in Outside() && k < 4 && LowPdpt() in tree.at
      modifies this`ram, pmm, pmm.bitmap
      ensures Steady()
      ensures ok ==> Valid() && |ram| == |old(ram)|
      ensures ok && !HasLow(tree, k) ==> pd == 0 && ram == old(ram) && Outside() == old(Outside())
      ensures ok && HasLow(tree, k) ==>
        && 0 < pd < MAX_FRAMES && pd !in tree.role && pd !in old(Outside()) && Outside() == old(Outside()) + {pd}
        && (forall g | 0 <= g < |ram| && g != pd && g != pdpt :: ram[g] == old(ram)[g])
        && ram[pdpt][k] == Entry(pd, LINK_FLAGS) && (forall i: Index | i != k :: ram[pdpt][i] == old(ram)[pdpt][i])
        && (forall j: Index :: ram[pd][j] == CopiedEntry(ram[tree.at[LowPd(k)]], k, j))
      ensures Pays(ok, if HasLow(tree, k) then 1 else 0)
    {
      hide Linked, Shared, Granting, Pmm.Valid, TreeWalk;
      KernelLow(ram, tree, k);
      var kernelPdpt := ram[kernelPml4][0].frame;
      if !ram[kernelPdpt][k].fl.present { return true, 0; }
      var kernelPd := ram[kernelPdpt][k].frame;
      ok, pd := Alloc();
      if !ok { return; }
      FillLow(kernelPd, pd, pdpt, k);
    }

    /** The copy of one directory, and the link to it. */
    method FillLow(kernelPd: nat, pd: nat, pdpt: nat, k: nat)
      requires Valid() && pdpt in Outside() && pd in Outside() && pd != pdpt && k < 4 && HasLow(tree, k) && kernelPd == tree.at[LowPd(k)]
      modifies this`ram
      ensures Valid() && |ram| == |old(ram)|
      ensures forall g | 0 <= g < |ram| && g != pd && g != pdpt :: ram[g] == old(ram)[g]
      ensures 0 < pd < |ram| && pdpt < |ram| && ram[pdpt][k] == Entry(pd, LINK_FLAGS) && (forall i: Index | i != k :: ram[pdpt][i] == old(ram)[pdpt][i])
      ensures forall j: Index :: ram[pd][j] == CopiedEntry(ram[tree.at[LowPd(k)]], k, j)
    {
      hide Linked, Shared, Granting, Pmm.Valid, SameWalks;
      LiveBounds();
      ghost var ram0 := ram;
      CopyPd(kernelPd, pd, k);
      WriteData(ram0, tree, ram, pd);
      ghost var ram1 := ram;
      ram := Store(ram, pdpt, k, Entry(pd, LINK_FLAGS));
      WriteData(ram1, tree, ram, pdpt);
    }

    /** How many of the first k gigabytes the kernel maps by a directory. */
    ghost function LowCount(t: Tree, k: nat): nat
      requires k <= 4
    {
      if k == 0 then 0 else LowCount(t, k - 1) + (if HasLow(t, k - 1) then 1 else 0)
    }

    /** The frames of a new space: its PML4, the table of slot 0 and a directory for each of these
        gigabytes. */
    ghost function CreatePrice(t: Tree): nat { 2 + LowCount(t, 4) }

    /** The loop over the low four gigabytes. */
    method CloneLow(pdpt: nat) returns (ok: bool, ghost pds: seq<nat>)
      requires Valid() && pdpt in Outside() && pdpt < |ram| && forall i: Index :: ram[pdpt][i] == ZERO
      modifies this`ram, pmm, pmm.bitmap
      ensures Steady()
      ensures ok ==> Valid() && |pds| == 4 && LowCloned(tree, old(ram), ram, old(Outside()), Outside(), pdpt, pds)
      ensures Pays(ok, LowCount(tree, 4))
    {
      hide Linked, Shared, Granting, Pmm.Valid, LowCloned;
      LowStart(tree, ram, Outside(), pdpt);
      pds := [];
      KernelLow(ram, tree, 0);
      if !ram[kernelPml4][0].fl.present {
        NoLow();
        NoneLow(tree);
        LowNone(tree, ram, Outside(), pdpt);
        pds := [0, 0, 0, 0];
        return true, pds;
      }
      var k := 0;
      while k < 4
        invariant 0 <= k <= 4 && |pds| == k
        invariant Valid() && pdpt in Outside() && LowCloned(tree, old(ram), ram, old(Outside()), Outside(), pdpt, pds)
        invariant Steady() && tree == old(tree) && |pmm.free| == |old(pmm.free)| - LowCount(tree, k)
      {
        MoreLow(tree, k);
        ghost var ram1, mid := ram, Outside();
        var pd;
        ok, pd := CloneLowPd(pdpt, k);
        if !ok { return; }
        if HasLow(tree, k) {
          LowStep(tree, old(ram), ram1, ram, old(Outside()), mid, pdpt, pds, pd);
        } else {
          LowSkip(tree, old(ram), ram, old(Outside()), Outside(), pdpt, pds);
        }
        pds := pds + [pd];
        k := k + 1;
      }
      ok := true;
    }

    lemma MoreLow(t: Tree, k: nat)
      requires k < 4
      ensures LowCount(t, k + 1) <= LowCount(t, 4)
    {
      assert LowCount(t, 4) == LowCount(t, 3) + (if HasLow(t, 3) then 1 else 0);
      assert LowCount(t, 3) == LowCount(t, 2) + (if HasLow(t, 2) then 1 else 0);
      assert LowCount(t, 2) == LowCount(t, 1) + (if HasLow(t, 1) then 1 else 0);
    }

    lemma NoneLow(t: Tree)
      requires forall k: Index | k < 4 :: !HasLow(t, k)
      ensures LowCount(t, 4) == 0
    {
      assert LowCount(t, 1) == 0 && LowCount(t, 2) == 0 && LowCount(t, 3) == 0;
    }

    lemma NoLow()
      requires Valid() && !ram[kernelPml4][0].fl.present
      ensures forall k: Index | k < 4 :: !HasLow(tree, k)
    {
      forall k: Index | k < 4 ensures !HasLow(tree, k) { KernelLow(ram, tree, k); }
    }

    /** A new space exists; nothing else has changed. */
    twostate predicate SpaceCreated(pml4: nat)
      requires Good(old(ram), old(tree))
      reads this, pmm, pmm.bitmap
    {
      Valid() && Outside() == old(Outside()) && CreateStep(old(ram), old(tree), ram, tree, pml4)
    }

    /** The PML4 of a new space, with the kernel's heap and physmap slots. */
    method NewPml4() returns (ok: bool, pml4: nat)
      requires Valid()
      modifies this`ram, pmm, pmm.bitmap
      ensures Steady()
      ensures ok ==> Valid() && 0 < pml4 < MAX_FRAMES && pml4 !in tree.role && pml4 !in old(Outside())
      ensures ok ==> Outside() == old(Outside()) + {pml4} && SlotsShared(old(ram), tree, ram, pml4)
      ensures Pays(ok, 1)
    {
      hide Linked, Shared, Granting, Pmm.Valid;
      ghost var ram0 := ram;
      ok, pml4 := AllocZeroed();
      if !ok { return; }
      ram := Store(ram, pml4, HEAP_SLOT, ram[kernelPml4][HEAP_SLOT]);
      ram := Store(ram, pml4, PHYSMAP_SLOT, ram[kernelPml4][PHYSMAP_SLOT]);
      WriteData(ram0, tree, ram, pml4);
    }

    /** The tables of a new space, all filled but for the link from slot 0. */
    method NewTables() returns (ok: bool, pml4: nat, pdpt: nat, ghost n: Skeleton)
      requires Valid()
      modifies this`ram, pmm, pmm.bitmap
      ensures Steady()
      ensures ok ==> Valid() && n.pml4 == pml4 < |ram| && n.pdpt == pdpt && |n.pds| == 4 && FreshSkeleton(tree, n)
      ensures ok ==> Outside() == old(Outside()) + NewFrames(tree, n) && old(Outside()) !! NewFrames(tree, n)
      ensures ok ==> Built(old(ram), tree, Store(ram, pml4, 0, Entry(pdpt, LINK_FLAGS)), n)
      ensures Pays(ok, CreatePrice(tree))
    {
      hide Linked, Shared, Granting, Pmm.Valid, LowCloned, Built, FreshSkeleton;
      ghost var ram0 := ram;
      pdpt, n := 0, Skeleton(0, 0, []);
      ok, pml4 := NewPml4();
      if !ok { return; }
      ghost var ram1 := ram;
      ok, pdpt := AllocZeroed();
      if !ok { return; }
      ghost var ram2, before := ram, Outside();
      ghost var pds;
      ok, pds := CloneLow(pdpt);
      if !ok { return; }
      LowSize(tree, ram2, ram, before, Outside(), pdpt, pds);
      n := Skeleton(pml4, pdpt, pds);
      StepsBuild(ram0, tree, ram1, ram2, ram, Store(ram, pml4, 0, Entry(pdpt, LINK_FLAGS)), before, Outside(), n);
      StepsFresh(tree, ram2, ram, before, Outside(), n);
    }

    /** Build a private PML4 that shares the heap, the physmap and the low 4 GiB but the window. */
    method CreateAddressSpace() returns (ok: bool, pml4: nat)
      requires Valid() && Child(Root(Kernel), HEAP_SLOT) in tree.at
      modifies this`ram, this`tree, pmm, pmm.bitmap
      ensures Steady() && (ok ==> SpaceCreated(pml4))
      ensures Pays(ok, CreatePrice(old(tree))) && (ok ==> tree.at.Keys == old(tree.at.Keys) + SpacePaths(old(tree), pml4))
    {
      hide Linked, Shared, Granting, Pmm.Valid, Built, FreshSkeleton, CreateStep, NewFrames, LowCount;
      ghost var ram0 := ram;
      var pdpt;
      ghost var n;
      ok, pml4, pdpt, n := NewTables();
      if !ok { return; }
      LinkSpace(pml4, pdpt, ram0, n);
    }

    /** The link from slot 0 completes the new space. */
    method LinkSpace(pml4: nat, pdpt: nat, ghost ram0: Ram, ghost n: Skeleton)
      requires Valid() && Child(Root(Kernel), HEAP_SLOT) in tree.at && Good(ram0, tree) && kernelPml4 < |ram0| && ram0[kernelPml4][HEAP_SLOT].fl.writable
      requires n.pml4 == pml4 < |ram| && n.pdpt == pdpt && |n.pds| == 4 && FreshSkeleton(tree, n) && NewFrames(tree, n) <= Outside()
      requires Built(ram0, tree, Store(ram, pml4, 0, Entry(pdpt, LINK_FLAGS)), n)
      modifies this`ram, this`tree
      ensures Valid() && Outside() == old(Outside()) - NewFrames(old(tree), n) && CreateStep(ram0, old(tree), ram, tree, pml4)
      ensures tree.at.Keys == old(tree.at.Keys) + SpacePaths(old(tree), pml4)
    {
      hide Linked, Shared, Granting, Pmm.Valid, Built, FreshSkeleton, Grow, CreateStep, NewFrames, SpacePaths;
      ghost var t0 := tree;
      ram := Store(ram, pml4, 0, Entry(pdpt, LINK_FLAGS));
      GrowRoles(ram0, t0, ram, n, pmm.Live());
      SpaceBuilt(ram0, t0, ram, n);
      GrowKeys(t0, n);
      tree := Grow(t0, n);
    }

    // ---- tearing a space down ----

    /** Exactly the frames of `gone`, all live before, have been released, once each. */
    twostate predicate Released(gone: set<nat>)
      reads this, pmm, pmm.bitmap
    {
      && pmm.Valid() && pmm.pool == old(pmm.pool) && pmm.totalFrames == old(pmm.totalFrames)
      && gone <= old(pmm.Live()) && pmm.free == old(pmm.free) + gone
      && pmm.released == old(pmm.released) + multiset(gone)
    }

    /** free_frame on a live frame. */
    method FreeLive(frame: nat)
      requires pmm.Valid() && frame in pmm.Live()
      modifies pmm, pmm.bitmap
      ensures Released({frame})
    {
      pmm.FreeFrame(frame);
    }

    lemma ReleasedThen(free0: set<nat>, free1: set<nat>, free2: set<nat>, rel0: multiset<nat>, rel1: multiset<nat>, rel2: multiset<nat>, a: set<nat>, b: set<nat>)
      requires free1 == free0 + a && rel1 == rel0 + multiset(a)
      requires free2 == free1 + b && rel2 == rel1 + multiset(b) && a !! b
      ensures free2 == free0 + (a + b) && rel2 == rel0 + multiset(a + b)
    {
      assert multiset(a + b) == multiset(a) + multiset(b);
    }

    /** The tables below p are all owned, and p is a table at `level` levels above the pages. */
    ghost predicate FreesWhole(table: nat, level: nat, p: Path)
      reads this, pmm, pmm.bitmap
    {
      && pmm.Valid() && Good(ram, tree) && p in tree.at && table == tree.at[p]
      && level <= 2 && Level(p) == 3 - level && AllOwned(p) && OwnerOf(p).Space?
    }

    /** One round of free_table's loop. */
    method FreeEntry(table: nat, level: nat, i: nat, ghost p: Path)
      requires FreesWhole(table, level, p) && i < 512 && Sub(tree, Child(p, i)) <= pmm.Live()
      modifies pmm, pmm.bitmap
      ensures Released(Sub(tree, Child(p, i)))
      decreases level, 0
    {
      hide Linked, Shared, Granting, Pmm.Valid;
      EntryOf(ram, tree, p, i);
      ghost var c := Child(p, i);
      AllOwnedChild(p, i);
      if !ram[table][i].fl.present || ram[table][i].fl.huge {
        SubAbsent(tree, c);
        return;
      }
      var child := ram[table][i].frame;
      if level == 0 {
        SubLeaf(tree, c);
        FreeLive(child);
      } else {
        FreeTable(child, level - 1, c);
      }
    }

    /** Free every owned frame below a table, then the table. */
    method FreeTable(table: nat, level: nat, ghost p: Path)
      requires FreesWhole(table, level, p) && Sub(tree, p) <= pmm.Live()
      modifies pmm, pmm.bitmap
      ensures Released(Sub(tree, p))
      decreases level, 1
    {
      hide Linked, Shared, Granting, Pmm.Valid;
      SubNone(tree, p);
      var i := 0;
      while i < 512
        invariant 0 <= i <= 512
        invariant Released(SubFirst(tree, p, i))
      {
        SubStep(tree, p, i);
        SubWithin(tree, p, i);
        ghost var free1, rel1 := pmm.free, pmm.released;
        FreeEntry(table, level, i, p);
        ReleasedThen(old(pmm.free), free1, pmm.free, old(pmm.released), rel1, pmm.released, SubFirst(tree, p, i), Sub(tree, Child(p, i)));
        i := i + 1;
      }
      SubAll(tree, p);
      ghost var free1, rel1 := pmm.free, pmm.released;
      FreeLive(table);
      ReleasedThen(old(pmm.free), free1, pmm.free, old(pmm.released), rel1, pmm.released, SubFirst(tree, p, 512), {table});
    }

    /** The private window of a space's first directory: its page tables and their pages. */
    method FreeWindow(pd: nat, ghost p: Path, ghost s: nat)
      requires pmm.Valid() && Good(ram, tree) && p == Child(Child(Root(Space(s)), 0), 0) && p in tree.at && pd == tree.at[p]
      requires Sub(tree, p) <= pmm.Live()
      modifies pmm, pmm.bitmap
      ensures Released(SubFirst(tree, p, 512))
    {
      hide Linked, Shared, Granting, Pmm.Valid;
      SubNone(tree, p);
      var i := 0;
      while i < 512
        invariant 0 <= i <= 512
        invariant Released(SubFirst(tree, p, i))
      {
        SubStep(tree, p, i);
        SubWithin(tree, p, i);
        ghost var free1, rel1 := pmm.free, pmm.released;
        FreeWindowEntry(pd, i, p, s);
        ReleasedThen(old(pmm.free), free1, pmm.free, old(pmm.released), rel1, pmm.released, SubFirst(tree, p, i), Sub(tree, Child(p, i)));
        i := i + 1;
      }
    }

    /** One round of FreeWindow: entries outside [2 MiB, 16 MiB) are borrowed and skipped. */
    method FreeWindowEntry(pd: nat, i: nat, ghost p: Path, ghost s: nat)
      requires pmm.Valid() && Good(ram, tree) && p == Child(Child(Root(Space(s)), 0), 0) && p in tree.at && pd == tree.at[p]
      requires i < 512 && Sub(tree, Child(p, i)) <= pmm.Live()
      modifies pmm, pmm.bitmap
      ensures Released(Sub(tree, Child(p, i)))
    {
      hide Linked, Shared, Granting, Pmm.Valid;
      ghost var c := Child(p, i);
      WindowPath(s, i);
      var virt := i * 0x20_0000;
      if virt < 0x20_0000 || virt >= 0x100_0000 { SubAbsent(tree, c); return; }
      EntryOf(ram, tree, p, i);
      if !ram[pd][i].fl.present { SubAbsent(tree, c); return; }
      FreeTable(ram[pd][i].frame, 0, c);
    }

    /** Free what a space owns under slot 0. */
    method DestroySlot0(pdpt: nat, ghost s: nat)
      requires pmm.Valid() && Good(ram, tree) && Child(Root(Space(s)), 0) in tree.at && pdpt == tree.at[Child(Root(Space(s)), 0)]
      requires Sub(tree, Child(Root(Space(s)), 0)) <= pmm.Live()
      modifies pmm, pmm.bitmap
      ensures Released(Sub(tree, Child(Root(Space(s)), 0)))
    {
      hide Linked, Shared, Granting, Pmm.Valid;
      ghost var p := Child(Root(Space(s)), 0);
      SubNone(tree, p);
      var k := 0;
      while k < 4
        invariant 0 <= k <= 4
        invariant Released(SubFirst(tree, p, k))
      {
        SubStep(tree, p, k);
        SubWithin(tree, p, k);
        ghost var free1, rel1 := pmm.free, pmm.released;
        FreeLowPd(pdpt, k, s);
        ReleasedThen(old(pmm.free), free1, pmm.free, old(pmm.released), rel1, pmm.released, SubFirst(tree, p, k), Sub(tree, Child(p, k)));
        k := k + 1;
      }
      SubAll(tree, p);
      OnlyFourLow(tree, s);
      ghost var free1, rel1 := pmm.free, pmm.released;
      FreeLive(pdpt);
      ReleasedThen(old(pmm.free), free1, pmm.free, old(pmm.released), rel1, pmm.released, SubFirst(tree, p, 4), {pdpt});
    }

    /** One round of DestroySlot0. */
    method FreeLowPd(pdpt: nat, k: nat, ghost s: nat)
      requires pmm.Valid() && Good(ram, tree) && Child(Root(Space(s)), 0) in tree.at && pdpt == tree.at[Child(Root(Space(s)), 0)]
      requires k < 4 && Sub(tree, Child(Child(Root(Space(s)), 0), k)) <= pmm.Live()
      modifies pmm, pmm.bitmap
      ensures Released(Sub(tree, Child(Child(Root(Space(s)), 0), k)))
    {
      hide Linked, Shared, Granting, Pmm.Valid;
      ghost var p := Child(Root(Space(s)), 0);
      ghost var c := Child(p, k);
      assert Level(p) == 1 && Level(c) == 2;
      EntryOf(ram, tree, p, k);
      if !ram[pdpt][k].fl.present { SubAbsent(tree, c); return; }
      var pd := ram[pdpt][k].frame;
      SubAll(tree, c);
      if k == 0 {
        FreeWindow(pd, c, s);
      } else {
        OnlyTheWindow(tree, s, k);
      }
      ghost var free1, rel1 := pmm.free, pmm.released;
      FreeLive(pd);
      ReleasedThen(old(pmm.free), free1, pmm.free, old(pmm.released), rel1, pmm.released, SubFirst(tree, c, 512), {pd});
    }

    /** One round of destroy_address_space's loop over the PML4. */
    method FreeSlot(i: nat, ghost s: nat, pml4: nat)
      requires pmm.Valid() && Good(ram, tree) && s == pml4 && Root(Space(s)) in tree.at && 1 <= i < 512
      requires Sub(tree, Child(Root(Space(s)), i)) <= pmm.Live()
      modifies pmm, pmm.bitmap
      ensures Released(Sub(tree, Child(Root(Space(s)), i)))
    {
      hide Linked, Shared, Granting, Pmm.Valid;
      ghost var p := Root(Space(s));
      ghost var c := Child(p, i);
      assert Level(p) == 0 && Level(c) == 1 && OwnerOf(p) == Space(s) && OwnerOf(c) == Space(s) && AllOwned(c);
      assert tree.at[p] == pml4;
      if i == HEAP_SLOT || i == PHYSMAP_SLOT { SubNotOwned(tree, p, i); return; }
      EntryOf(ram, tree, p, i);
      if !ram[pml4][i].fl.present { SubAbsent(tree, c); return; }
      FreeTable(ram[pml4][i].frame, 2, c);
    }

    /** Every frame of a space is released, once. */
    method FreeSpace(pml4: nat)
      requires pmm.Valid() && Good(ram, tree) && Root(Space(pml4)) in tree.at && FramesOf(tree, Space(pml4)) <= pmm.Live()
      modifies pmm, pmm.bitmap
      ensures Released(FramesOf(tree, Space(pml4)))
    {
      hide Linked, Shared, Granting, Pmm.Valid;
      ghost var p := Root(Space(pml4));
      assert Level(p) == 0 && tree.at[p] == pml4;
      SubRoot(tree, Space(pml4));
      SubNone(tree, p);
      SubStep(tree, p, 0);
      SubWithin(tree, p, 0);
      EntryOf(ram, tree, p, 0);
      if ram[pml4][0].fl.present {
        DestroySlot0(ram[pml4][0].frame, pml4);
      } else {
        SubAbsent(tree, Child(p, 0));
      }
      var i := 1;
      while i < 512
        invariant 1 <= i <= 512
        invariant Released(SubFirst(tree, p, i))
      {
        SubStep(tree, p, i);
        SubWithin(tree, p, i);
        ghost var free1, rel1 := pmm.free, pmm.released;
        FreeSlot(i, pml4, pml4);
        ReleasedThen(old(pmm.free), free1, pmm.free, old(pmm.released), rel1, pmm.released, SubFirst(tree, p, i), Sub(tree, Child(p, i)));
        i := i + 1;
      }
      SubAll(tree, p);
      ghost var free1, rel1 := pmm.free, pmm.released;
      FreeLive(pml4);
      ReleasedThen(old(pmm.free), free1, pmm.free, old(pmm.released), rel1, pmm.released, SubFirst(tree, p, 512), {pml4});
    }

    /** The space at pml4 is gone: every frame it owned is free, each released once, no other frame
        is touched, memory is untouched and every other owner translates as before. */
    twostate predicate SpaceDestroyed(pml4: nat)
      requires Good(old(ram), old(tree))
      reads this, pmm, pmm.bitmap
    {
      && Valid() && Released(FramesOf(old(tree), Space(pml4))) && Outside() == old(Outside())
      && ram == old(ram) && tree == Without(old(tree), Space(pml4))
      && (forall o, pg {:trigger TreeWalk(ram, tree, o, pg)} | Tracked(o, pg) && o != Space(pml4) ::
            TreeWalk(ram, tree, o, pg) == TreeWalk(old(ram), old(tree), o, pg))
    }

    /** Free everything the space at pml4 owns, whether or not CR3 names it. */
    method DestroyAddressSpace(pml4: nat)
      requires Valid() && Root(Space(pml4)) in tree.at
      modifies this`tree, pmm, pmm.bitmap
      ensures cr3 == old(cr3) && SpaceDestroyed(pml4)
    {
      hide Linked, Shared, Granting, Shaped, Pmm.Valid, TreeWalk, Without, FramesOf;
      ghost var t0, free0 := tree, pmm.free;
      RemoveSpace(ram, tree, pml4);
      SpaceLive(pml4);
      FreeSpace(pml4);
      tree := Without(tree, Space(pml4));
      WithoutRoles(t0, Space(pml4));
      KernelStays(t0, pml4);
      OutsideStays(pmm.pool, free0, FramesOf(t0, Space(pml4)), t0.role.Keys);
    }

    /** The frames outside the tree when a part of the tree has been freed and forgotten. */
    lemma OutsideStays(pool: set<nat>, free: set<nat>, gone: set<nat>, keys: set<nat>)
      requires gone <= pool - free && gone <= keys
      ensures pool - (free + gone) - (keys - gone) == pool - free - keys
    {
    }

    lemma SpaceLive(s: nat)
      requires Valid()
      ensures FramesOf(tree, Space(s)) <= pmm.Live()
    {
    }

    lemma KernelStays(t: Tree, s: nat)
      requires Good(ram, t)
      ensures Root(Kernel) in Without(t, Space(s)).at && Without(t, Space(s)).at[Root(Kernel)] == t.at[Root(Kernel)]
      ensures Child(Root(Kernel), HEAP_SLOT) in Without(t, Space(s)).at <==> Child(Root(Kernel), HEAP_SLOT) in t.at
    {
      assert OwnerOf(Root(Kernel)) == Kernel && OwnerOf(Child(Root(Kernel), HEAP_SLOT)) == Kernel;
    }

    lemma WithoutRoles(t: Tree, o: Owner)
      ensures Without(t, o).role.Keys == t.role.Keys - FramesOf(t, o) && FramesOf(t, o) <= t.role.Keys
      ensures forall g | g in Without(t, o).role :: g in t.role && Without(t, o).role[g] == t.role[g] && g !in FramesOf(t, o)
    {
    }

    // ---- cloning a space ----

    /** The sweep from page c to c' buys a frame for every copy and every table that is missing on the
        way to one. */
    twostate predicate Sweeps(ok: bool, src: nat, dst: nat, c: nat, c': nat)
      reads this, pmm
    {
      Buys(ok, Copies(old(tree.at.Keys), src, Space(dst), c, c'))
    }

    const ALL_PAGES: nat := 512 * 0x800_0000

    /** The sweep of clone_address_space has passed every private page below c. */
    twostate predicate Cloning(src: nat, dst: nat, c: nat)
      requires Good(old(ram), old(tree))
      reads this, pmm, pmm.bitmap
    {
      && Valid() && Outside() == old(Outside())
      && Root(Space(src)) in tree.at && Root(Space(dst)) in tree.at && src != dst
      && OthersKept(old(ram), old(tree), ram, tree, dst)
      && Partial(ram, tree, src, dst, c)
    }

    /** Copy a frame word by word. */
    method CopyFrame(to: nat, from: nat)
      requires to < |ram| && from < |ram| && to != from
      modifies this`ram
      ensures OnlyFrame(old(ram), ram, to) && ram[to] == old(ram)[from]
    {
      var i := 0;
      while i < 512
        invariant 0 <= i <= 512 && OnlyFrame(old(ram), ram, to)
        invariant forall j: Index | j < i :: ram[to][j] == old(ram)[from][j]
      {
        ram := Store(ram, to, i, ram[from][i]);
        i := i + 1;
      }
      assert ram[to] == old(ram)[from];
    }

    /** A fresh frame with the contents of another. */
    method AllocCopy(from: nat) returns (ok: bool, f: nat)
      requires Valid() && from < |ram| && from !in pmm.free
      modifies this`ram, pmm, pmm.bitmap
      ensures Steady()
      ensures ok ==> Valid() && 0 < f < MAX_FRAMES && f !in tree.role && f !in old(Outside()) && Outside() == old(Outside()) + {f}
      ensures ok ==> OnlyFrame(old(ram), ram, f) && ram[f] == old(ram)[from]
      ensures Pays(ok, 1)
    {
      hide Linked, Shared, Granting, Pmm.Valid;
      ok, f := Alloc();
      if !ok { return; }
      ghost var ram0 := ram;
      CopyFrame(f, from);
      WriteData(ram0, tree, ram, f);
      RootKept(ram0);
    }

    /** Copy one private page into a fresh frame and map it in dst. */
    method CloneLeaf(dst: nat, pg: Page, e: Entry, ghost src: nat) returns (ok: bool)
      requires Valid() && Root(Space(src)) in tree.at && Root(Space(dst)) in tree.at && src != dst && Private(pg)
      requires TreeWalk(ram, tree, Space(src), pg) == Some(e) && Partial(ram, tree, src, dst, Num(pg))
      modifies this`ram, this`tree, pmm, pmm.bitmap
      ensures Steady() && (ok ==> Cloning(src, dst, Num(pg) + 1))
      ensures Sweeps(ok, src, dst, Num(pg), Num(pg) + 1)
    {
      hide Linked, Shared, Granting, Pmm.Valid, Partial, OthersKept, MapStep, Num, TreeWalk, Copies, Bought;
      ghost var ram0, n0 := ram, |pmm.free|;
      LeafToClone(src, dst, pg);
      SourceLeaf(src, pg);
      ghost var price := 1 + TableCost(Space(dst), pg);
      SweepPrice(tree.at.Keys, n0, src, dst, pg);
      var f;
      ok, f := AllocCopy(e.frame);
      if !ok { return; }
      ok := MapCopy(dst, pg, f, CloneFlags(e.fl), src, ram0, n0);
    }

    /** Map the copy. */
    method MapCopy(dst: nat, pg: Page, f: nat, flags: Flags, ghost src: nat, ghost ram0: Ram, ghost n0: nat) returns (ok: bool)
      requires Valid() && Good(ram0, tree) && Root(Space(src)) in tree.at && Root(Space(dst)) in tree.at && src != dst && Private(pg)
      requires Partial(ram0, tree, src, dst, Num(pg)) && TreeWalk(ram0, tree, Space(src), pg).Some?
      requires flags == CloneFlags(TreeWalk(ram0, tree, Space(src), pg).value.fl) && flags.present && !flags.huge
      requires f in Outside() && f !in tree.role && f < |ram0| && OnlyFrame(ram0, ram, f) && TreeWalk(ram0, tree, Space(src), pg).value.frame < |ram0|
      requires ram[f] == ram0[TreeWalk(ram0, tree, Space(src), pg).value.frame]
      requires Leaf(Space(src), pg) in tree.at && Leaf(Space(dst), pg) !in tree.at && |pmm.free| == n0 - 1
      modifies this`ram, this`tree, pmm, pmm.bitmap
      ensures Steady() && (ok <==> n0 >= 1 + old(TableCost(Space(dst), pg))) && (!ok ==> pmm.free == {})
      ensures ok ==> Valid() && Outside() == old(Outside()) - {f} && Root(Space(src)) in tree.at && Root(Space(dst)) in tree.at
      ensures ok ==> OthersKept(ram0, old(tree), ram, tree, dst) && Partial(ram, tree, src, dst, Num(pg) + 1)
      ensures ok ==> Bought(old(tree.at.Keys), n0, tree.at.Keys, |pmm.free|, Copies(old(tree.at.Keys), src, Space(dst), Num(pg), Num(pg) + 1))
    {
      hide Linked, Shared, Granting, Pmm.Valid, Partial, OthersKept, MapStep, Num, TreeWalk, Copies, Bought;
      ghost var ram1, t0 := ram, tree;
      StartForClone(dst, pg, flags);
      ok := MapInto(dst, pg, f, flags, Space(dst));
      if !ok { return; }
      SweepOne(t0.at.Keys, n0, tree.at.Keys, |pmm.free|, src, dst, pg);
      assert LeafCloned(ram0, t0, ram1, ram, tree, src, dst, pg, f);
      CloneOne(ram0, t0, ram1, ram, tree, src, dst, pg, f);
      CloneOthers(ram0, t0, ram1, ram, tree, src, dst, pg, f);
      CloneRoots(ram0, t0, ram1, ram, tree, src, dst, pg, f);
    }

    /** The price of one copy, in the terms of the tables that it needs. */
    lemma SweepPrice(keys: set<Path>, n: nat, src: nat, dst: nat, pg: Page)
      requires keys == tree.at.Keys && Leaf(Space(src), pg) in keys && Leaf(Space(dst), pg) !in keys
      ensures |Copies(keys, src, Space(dst), Num(pg), Num(pg) + 1) - keys| == 1 + TableCost(Space(dst), pg)
    {
      hide Num, Copies, Bought;
      SweepOne(keys, n, keys, n, src, dst, pg);
    }

    lemma LeafToClone(src: nat, dst: nat, pg: Page)
      requires Valid() && Private(pg) && TreeWalk(ram, tree, Space(src), pg).Some? && Partial(ram, tree, src, dst, Num(pg))
      ensures TreeWalk(ram, tree, Space(src), pg).value.fl.present && !TreeWalk(ram, tree, Space(src), pg).value.fl.huge
      ensures TreeWalk(ram, tree, Space(src), pg).value.frame < |ram| && TreeWalk(ram, tree, Space(src), pg).value.frame !in pmm.free
      ensures Leaf(Space(dst), pg) !in tree.at
    {
      TrackedIsPrivate(src, pg);
      TrackedIsPrivate(dst, pg);
      MappedFrame(ram, tree, Space(src), pg);
      OwnSteps(Space(src), pg);
      EntryOf(ram, tree, PtPath(Space(src), pg), pg.i1);
      assert TreeWalk(ram, tree, Space(dst), pg) == None;
      MappedFrame(ram, tree, Space(dst), pg);
    }

    lemma SourceLeaf(src: nat, pg: Page)
      requires Good(ram, tree) && Private(pg) && TreeWalk(ram, tree, Space(src), pg).Some?
      ensures Leaf(Space(src), pg) in tree.at
    {
      TrackedIsPrivate(src, pg);
      MappedFrame(ram, tree, Space(src), pg);
    }

    lemma StartForClone(dst: nat, pg: Page, fl: Flags)
      requires Good(ram, tree) && Root(Space(dst)) in tree.at && Private(pg)
      ensures StartsAt(dst, pg, Space(dst)) && Own(Leaf(Space(dst), pg)) && dst == tree.at[Root(Space(dst))]
    {
      TrackedIsPrivate(dst, pg);
    }

    lemma CloneRoots(ram0: Ram, t0: Tree, ram1: Ram, ram2: Ram, t2: Tree, src: nat, dst: nat, pg: Page, f: nat)
      requires LeafCloned(ram0, t0, ram1, ram2, t2, src, dst, pg, f)
      ensures Root(Space(src)) in t0.at ==> Root(Space(src)) in t2.at
      ensures Root(Space(dst)) in t0.at ==> Root(Space(dst)) in t2.at
    {
    }

    /** clone_pt: every present entry of one source page table. */
    method ClonePt(dst: nat, srcPt: nat, i4: Index, i3: Index, i2: Index, ghost src: nat) returns (ok: bool)
      requires Valid() && Root(Space(src)) in tree.at && Root(Space(dst)) in tree.at && src != dst && OwnPt(src, i4, i3, i2)
      requires PtPath(Space(src), Page(i4, i3, i2, 0)) in tree.at && srcPt == tree.at[PtPath(Space(src), Page(i4, i3, i2, 0))]
      requires Partial(ram, tree, src, dst, Num(Page(i4, i3, i2, 0)))
      modifies this`ram, this`tree, pmm, pmm.bitmap
      ensures Steady() && (ok ==> Cloning(src, dst, Num(Page(i4, i3, i2, 0)) + 512))
      ensures Sweeps(ok, src, dst, Num(Page(i4, i3, i2, 0)), Num(Page(i4, i3, i2, 0)) + 512)
    {
      hide Inv, Granting, Pmm.Valid, Partial, OthersKept, Private, TreeWalk, OwnStep, Own, Tracked, Copies, Bought;
      ghost var ram0, t0, k0, n0 := ram, tree, tree.at.Keys, |pmm.free|;
      OthersKeptRefl(ram, tree, dst);
      SweepNone(k0, n0, src, dst, Num(Page(i4, i3, i2, 0)));
      var i1 := 0;
      while i1 < 512
        invariant Bought(k0, n0, tree.at.Keys, |pmm.free|, Copies(k0, src, Space(dst), Num(Page(i4, i3, i2, 0)), Num(Page(i4, i3, i2, 0)) + i1))
        invariant 0 <= i1 <= 512
        invariant Steady() && Cloning(src, dst, Num(Page(i4, i3, i2, 0)) + i1)
        invariant PtPath(Space(src), Page(i4, i3, i2, 0)) in tree.at && srcPt == tree.at[PtPath(Space(src), Page(i4, i3, i2, 0))]
      {
        ghost var ram1, t1 := ram, tree;
        ghost var k1, n1 := tree.at.Keys, |pmm.free|;
        ok := ClonePtEntry(dst, srcPt, Page(i4, i3, i2, i1), src);
        SweepOn(k0, n0, k1, n1, tree.at.Keys, |pmm.free|, ok, src, dst, Num(Page(i4, i3, i2, 0)), Num(Page(i4, i3, i2, 0)) + i1, Num(Page(i4, i3, i2, 0)) + i1 + 1, Num(Page(i4, i3, i2, 0)) + 512);
        if !ok { return; }
        OthersKeptTrans(ram0, t0, ram1, t1, ram, tree, dst);
        PtStays(ram1, t1, ram, tree, src, dst, i4, i3, i2);
        i1 := i1 + 1;
      }
      Afforded(k0, n0, tree.at.Keys, |pmm.free|, Copies(k0, src, Space(dst), Num(Page(i4, i3, i2, 0)), Num(Page(i4, i3, i2, 0)) + 512));
      ok := true;
    }

    /** One round of clone_pt's loop. */
    method ClonePtEntry(dst: nat, srcPt: nat, pg: Page, ghost src: nat) returns (ok: bool)
      requires Valid() && Root(Space(src)) in tree.at && Root(Space(dst)) in tree.at && src != dst && OwnPt(src, pg.i4, pg.i3, pg.i2)
      requires PtPath(Space(src), pg) in tree.at && srcPt == tree.at[PtPath(Space(src), pg)]
      requires Partial(ram, tree, src, dst, Num(pg))
      modifies this`ram, this`tree, pmm, pmm.bitmap
      ensures Steady() && (ok ==> Cloning(src, dst, Num(pg) + 1))
      ensures Sweeps(ok, src, dst, Num(pg), Num(pg) + 1)
    {
      hide Linked, Shared, Granting, Pmm.Valid, Partial, OthersKept, Private, Num, Copies, Bought;
      TrackedIsPrivate(src, pg);
      TrackedIsPrivate(src, Page(pg.i4, pg.i3, pg.i2, 0));
      SamePrivate(pg, Page(pg.i4, pg.i3, pg.i2, 0));
      if !ram[srcPt][pg.i1].fl.present {
        OthersKeptRefl(ram, tree, dst);
        SkipOne(ram, tree, src, dst, pg);
        SweepSkip(ram, tree, |pmm.free|, src, dst, Num(pg), Num(pg) + 1);
        return true;
      }
      ok := CloneLeaf(dst, pg, ram[srcPt][pg.i1], src);
    }

    /** One entry of a source page directory: its page table, or nothing to copy. */
    method ClonePdEntry(dst: nat, srcPd: nat, i4: Index, i3: Index, i2: Index, ghost src: nat) returns (ok: bool)
      requires Valid() && Root(Space(src)) in tree.at && Root(Space(dst)) in tree.at && src != dst && OwnPt(src, i4, i3, i2)
      requires PdPath(Space(src), Page(i4, i3, i2, 0)) in tree.at && srcPd == tree.at[PdPath(Space(src), Page(i4, i3, i2, 0))]
      requires Partial(ram, tree, src, dst, Num(Page(i4, i3, i2, 0)))
      modifies this`ram, this`tree, pmm, pmm.bitmap
      ensures Steady() && (ok ==> Cloning(src, dst, Num(Page(i4, i3, i2, 0)) + 512))
      ensures Sweeps(ok, src, dst, Num(Page(i4, i3, i2, 0)), Num(Page(i4, i3, i2, 0)) + 512)
    {
      hide Linked, Shared, Granting, Pmm.Valid, Partial, OthersKept, Private, Num, Copies, Bought;
      ghost var pg := Page(i4, i3, i2, 0);
      OwnSteps(Space(src), pg);
      EntryOf(ram, tree, PdPath(Space(src), pg), i2);
      if !ram[srcPd][i2].fl.present {
        OthersKeptRefl(ram, tree, dst);
        SkipPt(ram, tree, src, dst, i4, i3, i2);
        SweepSkip(ram, tree, |pmm.free|, src, dst, Num(Page(i4, i3, i2, 0)), Num(Page(i4, i3, i2, 0)) + 512);
        return true;
      }
      ok := ClonePt(dst, ram[srcPd][i2].frame, i4, i3, i2, src);
    }

    /** One round of the loop over a source page directory outside slot 0. */
    method ClonePdRow(dst: nat, srcPd: nat, i4: Index, i3: Index, i2: Index, ghost src: nat) returns (ok: bool)
      requires Valid() && Root(Space(src)) in tree.at && Root(Space(dst)) in tree.at && src != dst
      requires i4 != 0 && i4 != HEAP_SLOT && i4 != PHYSMAP_SLOT
      requires PdPath(Space(src), Page(i4, i3, 0, 0)) in tree.at && srcPd == tree.at[PdPath(Space(src), Page(i4, i3, 0, 0))]
      requires Partial(ram, tree, src, dst, Num(Page(i4, i3, 0, 0)) + i2 * 512)
      modifies this`ram, this`tree, pmm, pmm.bitmap
      ensures Steady() && (ok ==> Cloning(src, dst, Num(Page(i4, i3, 0, 0)) + (i2 + 1) * 512))
      ensures Sweeps(ok, src, dst, Num(Page(i4, i3, 0, 0)) + i2 * 512, Num(Page(i4, i3, 0, 0)) + (i2 + 1) * 512)
    {
      hide Inv, Granting, Pmm.Valid, Partial, OthersKept, Private, TreeWalk, OwnStep, Own, Tracked, Copies, Bought, Num;
      NumRow(i4, i3, i2);
      TrackedIsPrivate(src, Page(i4, i3, i2, 0));
      PrivateSlot(Page(i4, i3, i2, 0));
      ok := ClonePdEntry(dst, srcPd, i4, i3, i2, src);
    }

    /** The entries of one source page directory outside slot 0. */
    method ClonePd(dst: nat, srcPd: nat, i4: Index, i3: Index, ghost src: nat) returns (ok: bool)
      requires Valid() && Root(Space(src)) in tree.at && Root(Space(dst)) in tree.at && src != dst
      requires i4 != 0 && i4 != HEAP_SLOT && i4 != PHYSMAP_SLOT
      requires PdPath(Space(src), Page(i4, i3, 0, 0)) in tree.at && srcPd == tree.at[PdPath(Space(src), Page(i4, i3, 0, 0))]
      requires Partial(ram, tree, src, dst, Num(Page(i4, i3, 0, 0)))
      modifies this`ram, this`tree, pmm, pmm.bitmap
      ensures Steady() && (ok ==> Cloning(src, dst, Num(Page(i4, i3, 0, 0)) + 0x4_0000))
      ensures Sweeps(ok, src, dst, Num(Page(i4, i3, 0, 0)), Num(Page(i4, i3, 0, 0)) + 0x4_0000)
    {
      hide Inv, Granting, Pmm.Valid, Partial, OthersKept, Private, TreeWalk, OwnStep, Own, Tracked, Copies, Bought, Num;
      ghost var ram0, t0, k0, n0 := ram, tree, tree.at.Keys, |pmm.free|;
      OthersKeptRefl(ram, tree, dst);
      SweepNone(k0, n0, src, dst, Num(Page(i4, i3, 0, 0)));
      var i2 := 0;
      while i2 < 512
        invariant Bought(k0, n0, tree.at.Keys, |pmm.free|, Copies(k0, src, Space(dst), Num(Page(i4, i3, 0, 0)), Num(Page(i4, i3, 0, 0)) + i2 * 512))
        invariant 0 <= i2 <= 512
        invariant Steady() && Cloning(src, dst, Num(Page(i4, i3, 0, 0)) + i2 * 512)
        invariant PdPath(Space(src), Page(i4, i3, 0, 0)) in tree.at && srcPd == tree.at[PdPath(Space(src), Page(i4, i3, 0, 0))]
      {
        ghost var ram1, t1 := ram, tree;
        ghost var k1, n1 := tree.at.Keys, |pmm.free|;
        ok := ClonePdRow(dst, srcPd, i4, i3, i2, src);
        SweepOn(k0, n0, k1, n1, tree.at.Keys, |pmm.free|, ok, src, dst, Num(Page(i4, i3, 0, 0)), Num(Page(i4, i3, 0, 0)) + i2 * 512, Num(Page(i4, i3, 0, 0)) + (i2 + 1) * 512, Num(Page(i4, i3, 0, 0)) + 0x4_0000);
        if !ok { return; }
        OthersKeptTrans(ram0, t0, ram1, t1, ram, tree, dst);
        PtStays(ram1, t1, ram, tree, src, dst, i4, i3, 0);
        i2 := i2 + 1;
      }
      Afforded(k0, n0, tree.at.Keys, |pmm.free|, Copies(k0, src, Space(dst), Num(Page(i4, i3, 0, 0)), Num(Page(i4, i3, 0, 0)) + 0x4_0000));
      ok := true;
    }

    /** One round of the loop over the first directory of slot 0. */
    method CloneWindowRow(dst: nat, srcPd: nat, i2: Index, ghost src: nat) returns (ok: bool)
      requires Valid() && Root(Space(src)) in tree.at && Root(Space(dst)) in tree.at && src != dst
      requires PdPath(Space(src), Page(0, 0, 0, 0)) in tree.at && srcPd == tree.at[PdPath(Space(src), Page(0, 0, 0, 0))]
      requires Partial(ram, tree, src, dst, i2 * 512)
      modifies this`ram, this`tree, pmm, pmm.bitmap
      ensures Steady() && (ok ==> Cloning(src, dst, (i2 + 1) * 512))
      ensures Sweeps(ok, src, dst, i2 * 512, (i2 + 1) * 512)
    {
      hide Inv, Granting, Pmm.Valid, Partial, OthersKept, Private, TreeWalk, OwnStep, Own, Tracked, Copies, Bought, Num, Borrowed;
      BorrowedIs(i2);
      if Borrowed(i2) {
        SkipWindow(ram, tree, |pmm.free|, src, dst, i2);
        return true;
      }
      var low: Index := 0;
      WindowRow(src, low, i2);
      ok := ClonePdEntry(dst, srcPd, low, low, i2, src);
    }

    /** The test on the first address of the entry: it lies outside the window. */
    predicate Borrowed(i2: Index) {
      var virt := i2 * 0x20_0000;
      virt < 0x20_0000 || virt >= 0x100_0000
    }

    lemma BorrowedIs(i2: Index)
      ensures Borrowed(i2) <==> !(1 <= i2 < 8)
    {
    }

    lemma SkipWindow(ram: Ram, t: Tree, n: nat, src: nat, dst: nat, i2: Index)
      requires Good(ram, t) && Partial(ram, t, src, dst, i2 * 512) && !(1 <= i2 < 8)
      ensures OthersKept(ram, t, ram, t, dst) && Partial(ram, t, src, dst, (i2 + 1) * 512)
      ensures Bought(t.at.Keys, n, t.at.Keys, n, Copies(t.at.Keys, src, Space(dst), i2 * 512, (i2 + 1) * 512))
      ensures n >= |Copies(t.at.Keys, src, Space(dst), i2 * 512, (i2 + 1) * 512) - t.at.Keys|
    {
      hide Good, Partial, OthersKept, Copies, Bought;
      assert Inv(ram, t) by { GoodInv(ram, t); }
      OthersKeptRefl(ram, t, dst);
      SkipBorrowed(ram, t, src, dst, i2);
      SweepSkip(ram, t, n, src, dst, i2 * 512, (i2 + 1) * 512);
    }

    lemma GoodInv(ram: Ram, t: Tree)
      requires Good(ram, t)
      ensures Inv(ram, t)
    {
    }

    lemma WindowRow(src: nat, low: Index, i2: Index)
      requires low == 0 && 1 <= i2 < 8
      ensures Num(Page(low, low, i2, 0)) == i2 * 512 && Num(Page(low, low, i2, 0)) + 512 == (i2 + 1) * 512 && OwnPt(src, low, low, i2)
      ensures PdPath(Space(src), Page(low, low, i2, 0)) == PdPath(Space(src), Page(0, 0, 0, 0))
    {
      hide Num;
      NumRow(0, 0, i2);
      TrackedIsPrivate(src, Page(0, 0, i2, 0));
      PrivateWindow(i2);
    }

    /** The window of slot 0: only entries 1 to 7 of the first directory are private. */
    method CloneWindow(dst: nat, srcPd: nat, ghost src: nat) returns (ok: bool)
      requires Valid() && Root(Space(src)) in tree.at && Root(Space(dst)) in tree.at && src != dst
      requires PdPath(Space(src), Page(0, 0, 0, 0)) in tree.at && srcPd == tree.at[PdPath(Space(src), Page(0, 0, 0, 0))]
      requires Partial(ram, tree, src, dst, 0)
      modifies this`ram, this`tree, pmm, pmm.bitmap
      ensures Steady() && (ok ==> Cloning(src, dst, 0x4_0000))
      ensures Sweeps(ok, src, dst, 0, 0x4_0000)
    {
      hide Inv, Granting, Pmm.Valid, Partial, OthersKept, Private, TreeWalk, OwnStep, Own, Tracked, Copies, Bought, Num;
      ghost var ram0, t0, k0, n0 := ram, tree, tree.at.Keys, |pmm.free|;
      OthersKeptRefl(ram, tree, dst);
      SweepNone(k0, n0, src, dst, 0);
      var i2 := 0;
      while i2 < 512
        invariant Bought(k0, n0, tree.at.Keys, |pmm.free|, Copies(k0, src, Space(dst), 0, i2 * 512))
        invariant 0 <= i2 <= 512
        invariant Steady() && Cloning(src, dst, i2 * 512)
        invariant PdPath(Space(src), Page(0, 0, 0, 0)) in tree.at && srcPd == tree.at[PdPath(Space(src), Page(0, 0, 0, 0))]
      {
        ghost var ram1, t1 := ram, tree;
        ghost var k1, n1 := tree.at.Keys, |pmm.free|;
        ok := CloneWindowRow(dst, srcPd, i2, src);
        SweepOn(k0, n0, k1, n1, tree.at.Keys, |pmm.free|, ok, src, dst, 0, i2 * 512, (i2 + 1) * 512, 0x4_0000);
        if !ok { return; }
        OthersKeptTrans(ram0, t0, ram1, t1, ram, tree, dst);
        PtStays(ram1, t1, ram, tree, src, dst, 0, 0, 0);
        i2 := i2 + 1;
      }
      Afforded(k0, n0, tree.at.Keys, |pmm.free|, Copies(k0, src, Space(dst), 0, 0x4_0000));
      ok := true;
    }

    /** One source PDPT outside slot 0. */
    method ClonePdpt(dst: nat, srcPdpt: nat, i4: Index, ghost src: nat) returns (ok: bool)
      requires Valid() && Root(Space(src)) in tree.at && Root(Space(dst)) in tree.at && src != dst
      requires i4 != 0 && i4 != HEAP_SLOT && i4 != PHYSMAP_SLOT
      requires Child(Root(Space(src)), i4) in tree.at && srcPdpt == tree.at[Child(Root(Space(src)), i4)]
      requires Partial(ram, tree, src, dst, i4 * 0x800_0000)
      modifies this`ram, this`tree, pmm, pmm.bitmap
      ensures Steady() && (ok ==> Cloning(src, dst, (i4 + 1) * 0x800_0000))
      ensures Sweeps(ok, src, dst, i4 * 0x800_0000, (i4 + 1) * 0x800_0000)
    {
      hide Inv, Granting, Pmm.Valid, Partial, OthersKept, Private, TreeWalk, OwnStep, Own, Tracked, Copies, Bought;
      ghost var ram0, t0, k0, n0 := ram, tree, tree.at.Keys, |pmm.free|;
      OthersKeptRefl(ram, tree, dst);
      SweepNone(k0, n0, src, dst, i4 * 0x800_0000);
      var i3 := 0;
      while i3 < 512
        invariant Bought(k0, n0, tree.at.Keys, |pmm.free|, Copies(k0, src, Space(dst), i4 * 0x800_0000, i4 * 0x800_0000 + i3 * 0x4_0000))
        invariant 0 <= i3 <= 512
        invariant Steady() && Cloning(src, dst, i4 * 0x800_0000 + i3 * 0x4_0000)
        invariant Child(Root(Space(src)), i4) in tree.at && srcPdpt == tree.at[Child(Root(Space(src)), i4)]
      {
        ghost var ram1, t1 := ram, tree;
        ghost var k1, n1 := tree.at.Keys, |pmm.free|;
        ok := ClonePdptEntry(dst, srcPdpt, i4, i3, src);
        SweepOn(k0, n0, k1, n1, tree.at.Keys, |pmm.free|, ok, src, dst, i4 * 0x800_0000, i4 * 0x800_0000 + i3 * 0x4_0000, i4 * 0x800_0000 + (i3 + 1) * 0x4_0000, (i4 + 1) * 0x800_0000);
        if !ok { return; }
        OthersKeptTrans(ram0, t0, ram1, t1, ram, tree, dst);
        PtStays(ram1, t1, ram, tree, src, dst, i4, i3, 0);
        i3 := i3 + 1;
      }
      Afforded(k0, n0, tree.at.Keys, |pmm.free|, Copies(k0, src, Space(dst), i4 * 0x800_0000, (i4 + 1) * 0x800_0000));
      ok := true;
    }

    /** One entry of a source PDPT. */
    method ClonePdptEntry(dst: nat, srcPdpt: nat, i4: Index, i3: Index, ghost src: nat) returns (ok: bool)
      requires Valid() && Root(Space(src)) in tree.at && Root(Space(dst)) in tree.at && src != dst
      requires i4 != 0 && i4 != HEAP_SLOT && i4 != PHYSMAP_SLOT
      requires Child(Root(Space(src)), i4) in tree.at && srcPdpt == tree.at[Child(Root(Space(src)), i4)]
      requires Partial(ram, tree, src, dst, i4 * 0x800_0000 + i3 * 0x4_0000)
      modifies this`ram, this`tree, pmm, pmm.bitmap
      ensures Steady() && (ok ==> Cloning(src, dst, i4 * 0x800_0000 + i3 * 0x4_0000 + 0x4_0000))
      ensures Sweeps(ok, src, dst, i4 * 0x800_0000 + i3 * 0x4_0000, i4 * 0x800_0000 + i3 * 0x4_0000 + 0x4_0000)
    {
      hide Linked, Shared, Granting, Pmm.Valid, Partial, OthersKept, Private, Copies, Bought;
      TrackedIsPrivate(src, Page(i4, i3, 0, 0));
      PrivateSlot(Page(i4, i3, 0, 0));
      UpperEntries(ram, tree, Space(src), Page(i4, i3, 0, 0));
      if !ram[srcPdpt][i3].fl.present {
        OthersKeptRefl(ram, tree, dst);
        SkipPd(ram, tree, src, dst, i4, i3);
        SweepSkip(ram, tree, |pmm.free|, src, dst, i4 * 0x800_0000 + i3 * 0x4_0000, i4 * 0x800_0000 + i3 * 0x4_0000 + 0x4_0000);
        return true;
      }
      ok := ClonePd(dst, ram[srcPdpt][i3].frame, i4, i3, src);
    }

    /** The walk over slot 0. */
    method CloneSlot0(dst: nat, src: nat) returns (ok: bool)
      requires Valid() && Root(Space(src)) in tree.at && Root(Space(dst)) in tree.at && src != dst
      requires Partial(ram, tree, src, dst, 0)
      modifies this`ram, this`tree, pmm, pmm.bitmap
      ensures Steady() && (ok ==> Cloning(src, dst, 0x800_0000))
      ensures Sweeps(ok, src, dst, 0, 0x800_0000)
    {
      hide Linked, Shared, Granting, Pmm.Valid, Partial, OthersKept, Private, OwnStep, TreeWalk, Copies, Bought;
      ghost var k0, n0 := tree.at.Keys, |pmm.free|;
      OthersKeptRefl(ram, tree, dst);
      WindowEntries(ram, tree, src);
      if !ram[src][0].fl.present { SkipSlot(ram, tree, src, dst, 0); SweepSkip(ram, tree, n0, src, dst, 0, 0x800_0000); return true; }
      var srcPdpt := ram[src][0].frame;
      if !ram[srcPdpt][0].fl.present {
        SkipPd(ram, tree, src, dst, 0, 0);
        SkipSlot0(ram, tree, src, dst);
        SweepSkip(ram, tree, n0, src, dst, 0, 0x800_0000);
        return true;
      }
      SweepNone(k0, n0, src, dst, 0);
      ok := CloneWindow(dst, ram[srcPdpt][0].frame, src);
      SweepOn(k0, n0, k0, n0, tree.at.Keys, |pmm.free|, ok, src, dst, 0, 0, 0x4_0000, 0x800_0000);
      if !ok { return; }
      SkipSlot0(ram, tree, src, dst);
      ghost var k1, n1 := tree.at.Keys, |pmm.free|;
      SweepSkip(ram, tree, n1, src, dst, 0x4_0000, 0x800_0000);
      SweepOn(k0, n0, k1, n1, k1, n1, true, src, dst, 0, 0x4_0000, 0x800_0000, 0x800_0000);
      Afforded(k0, n0, k1, n1, Copies(k0, src, Space(dst), 0, 0x800_0000));
    }

    /** Copy every private page of src into the fresh space dst. */
    method CloneAddressSpace(dst: nat, src: nat) returns (ok: bool)
      requires Valid() && Root(Space(src)) in tree.at && Root(Space(dst)) in tree.at && src != dst
      requires forall pg {:trigger TreeWalk(ram, tree, Space(dst), pg)} | Private(pg) :: TreeWalk(ram, tree, Space(dst), pg) == None
      modifies this`ram, this`tree, pmm, pmm.bitmap
      ensures Steady() && (ok ==> Cloned(src, dst))
      ensures Sweeps(ok, src, dst, 0, ALL_PAGES)
    {
      hide Linked, Shared, Granting, Pmm.Valid, OthersKept, Private, Partial, Copied, TreeWalk, Copies, Bought;
      ghost var ram0, t0, k0, n0 := ram, tree, tree.at.Keys, |pmm.free|;
      StartSweep(ram, tree, src, dst);
      SweepNone(k0, n0, src, dst, 0);
      ok := CloneSlot0(dst, src);
      SweepOn(k0, n0, k0, n0, tree.at.Keys, |pmm.free|, ok, src, dst, 0, 0, 0x800_0000, ALL_PAGES);
      if !ok { return; }
      var i4 := 1;
      while i4 < 512
        invariant Bought(k0, n0, tree.at.Keys, |pmm.free|, Copies(k0, src, Space(dst), 0, i4 * 0x800_0000))
        invariant 1 <= i4 <= 512
        invariant Steady() && Cloning(src, dst, i4 * 0x800_0000)
      {
        ghost var ram1, t1 := ram, tree;
        ghost var k1, n1 := tree.at.Keys, |pmm.free|;
        ok := CloneSlot(dst, src, i4);
        SweepOn(k0, n0, k1, n1, tree.at.Keys, |pmm.free|, ok, src, dst, 0, i4 * 0x800_0000, (i4 + 1) * 0x800_0000, ALL_PAGES);
        if !ok { return; }
        OthersKeptTrans(ram0, t0, ram1, t1, ram, tree, dst);
        i4 := i4 + 1;
      }
      Afforded(k0, n0, tree.at.Keys, |pmm.free|, Copies(k0, src, Space(dst), 0, ALL_PAGES));
      ok := true;
      EndSweep(ram, tree, src, dst);
    }

    /** One slot of the PML4 other than 0. */
    method CloneSlot(dst: nat, src: nat, i4: nat) returns (ok: bool)
      requires Valid() && Root(Space(src)) in tree.at && Root(Space(dst)) in tree.at && src != dst && 1 <= i4 < 512
      requires Partial(ram, tree, src, dst, i4 * 0x800_0000)
      modifies this`ram, this`tree, pmm, pmm.bitmap
      ensures Steady() && (ok ==> Cloning(src, dst, (i4 + 1) * 0x800_0000))
      ensures Sweeps(ok, src, dst, i4 * 0x800_0000, (i4 + 1) * 0x800_0000)
    {
      hide Linked, Shared, Granting, Pmm.Valid, Partial, OthersKept, Private, Copies, Bought;
      OthersKeptRefl(ram, tree, dst);
      if i4 == HEAP_SLOT || i4 == PHYSMAP_SLOT { SkipSlot(ram, tree, src, dst, i4); SweepSkip(ram, tree, |pmm.free|, src, dst, i4 * 0x800_0000, (i4 + 1) * 0x800_0000); return true; }
      TrackedIsPrivate(src, Page(i4, 0, 0, 0));
      PrivateSlot(Page(i4, 0, 0, 0));
      UpperEntries(ram, tree, Space(src), Page(i4, 0, 0, 0));
      assert tree.at[Root(Space(src))] == src;
      if !ram[src][i4].fl.present { SkipSlot(ram, tree, src, dst, i4); SweepSkip(ram, tree, |pmm.free|, src, dst, i4 * 0x800_0000, (i4 + 1) * 0x800_0000); return true; }
      ok := ClonePdpt(dst, ram[src][i4].frame, i4, src);
    }

    /** dst is a private copy of src, page by page, and nothing else has changed. */
    twostate predicate Cloned(src: nat, dst: nat)
      requires Good(old(ram), old(tree))
      reads this, pmm, pmm.bitmap
    {
      && Valid() && Outside() == old(Outside())
      && Root(Space(src)) in tree.at && Root(Space(dst)) in tree.at
      && OthersKept(old(ram), old(tree), ram, tree, dst)
      && forall pg {:trigger TreeWalk(ram, tree, Space(dst), pg)} {:trigger Copied(ram, tree, src, dst, pg)} | Private(pg) :: Copied(ram, tree, src, dst, pg)
    }
  }
}
