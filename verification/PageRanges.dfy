/** Runs of private pages: mapping zeroed frames, unmapping and freeing them. */
module PageRanges {
  import opened Options
  import opened Machine
  import opened FrameBitmap
  import opened PageTables
  import opened PageTableSteps
  import opened SpaceSteps
  import opened MappingSteps
  import opened CloneSteps
  import opened FramePrices
  import opened AddressSpaces

  /** The page with number n of the 48-bit address space. */
  function PageOf(n: nat): Page {
    Page(n / 512 / 512 / 512 % 512, n / 512 / 512 % 512, n / 512 % 512, n % 512)
  }

  lemma NumOfPage(n: nat)
    requires n < 0x10_0000_0000
    ensures Num(PageOf(n)) == n
  {
    var a := n / 512;
    var b := a / 512;
    var c := b / 512;
    assert c % 512 == c;
    assert c * 512 + b % 512 == b;
    assert b * 512 + a % 512 == a;
    assert a * 512 + n % 512 == n;
  }

  /** Page pg of o keeps its translation and its contents. */
  ghost predicate PageKept(ram: Ram, t: Tree, ram': Ram, t': Tree, o: Owner, pg: Page)
    requires Inv(ram, t) && Inv(ram', t')
  {
    && TreeWalk(ram', t', o, pg) == TreeWalk(ram, t, o, pg)
    && (TreeWalk(ram, t, o, pg).Some? ==>
          Load(ram', TreeWalk(ram, t, o, pg).value.frame) == Load(ram, TreeWalk(ram, t, o, pg).value.frame))
  }

  /** Every owned page of everybody is kept, except the pages lo to hi of space s. */
  ghost predicate KeptExcept(ram: Ram, t: Tree, ram': Ram, t': Tree, s: nat, lo: nat, hi: nat)
    requires Inv(ram, t) && Inv(ram', t')
  {
    forall o, pg {:trigger PageKept(ram, t, ram', t', o, pg)} {:trigger TreeWalk(ram', t', o, pg)} |
      Own(Leaf(o, pg)) && !(o == Space(s) && lo <= Num(pg) < hi) :: PageKept(ram, t, ram', t', o, pg)
  }

  lemma KeptExceptTrans(ram0: Ram, t0: Tree, ram1: Ram, t1: Tree, ram2: Ram, t2: Tree, s: nat, lo: nat, mid: nat, hi: nat)
    requires Inv(ram0, t0) && Inv(ram1, t1) && Inv(ram2, t2) && lo <= mid <= hi
    requires KeptExcept(ram0, t0, ram1, t1, s, lo, mid) && KeptExcept(ram1, t1, ram2, t2, s, mid, hi)
    ensures KeptExcept(ram0, t0, ram2, t2, s, lo, hi)
  {
    hide TreeWalk, Inv, Own, Num;
    forall o, pg | Own(Leaf(o, pg)) && !(o == Space(s) && lo <= Num(pg) < hi) ensures PageKept(ram0, t0, ram2, t2, o, pg) {
      assert PageKept(ram0, t0, ram1, t1, o, pg);
      assert PageKept(ram1, t1, ram2, t2, o, pg);
    }
  }

  /** The frame of an owned page is a leaf of the tree. */
  lemma LeafFrameOf(ram: Ram, t: Tree, o: Owner, pg: Page)
    requires Good(ram, t) && Own(Leaf(o, pg)) && TreeWalk(ram, t, o, pg).Some?
    ensures Leaf(o, pg) in t.at && t.at[Leaf(o, pg)] == TreeWalk(ram, t, o, pg).value.frame < |ram|
    ensures t.role[t.at[Leaf(o, pg)]] == Leaf(o, pg) && Level(Leaf(o, pg)) == 4
  {
    MappedFrame(ram, t, o, pg);
    OwnSteps(o, pg);
  }

  /** Editing one page's entry keeps all other owned pages and their contents. */
  lemma StepKeeps(ram: Ram, t: Tree, ram': Ram, t': Tree, s: nat, pg: Page)
    requires Good(ram, t) && Good(ram', t') && KeptWalksBut(ram, t, ram', t', Space(s), pg)
    requires OnlyTablesOf(ram, ram', t', Space(s)) && LeafChange(t, t', Space(s), pg)
    ensures KeptExcept(ram, t, ram', t', s, Num(pg), Num(pg) + 1)
  {
    hide Linked, Shared, Granting, Num, OwnStep;
    forall o, q | Own(Leaf(o, q)) && !(o == Space(s) && Num(pg) <= Num(q) < Num(pg) + 1) ensures PageKept(ram, t, ram', t', o, q) {
      StepKeepsPage(ram, t, ram', t', s, pg, o, q);
    }
  }

  lemma StepKeepsPage(ram: Ram, t: Tree, ram': Ram, t': Tree, s: nat, pg: Page, o: Owner, q: Page)
    requires Good(ram, t) && Good(ram', t') && KeptWalksBut(ram, t, ram', t', Space(s), pg)
    requires OnlyTablesOf(ram, ram', t', Space(s)) && LeafChange(t, t', Space(s), pg)
    requires Own(Leaf(o, q)) && (o, q) != (Space(s), pg)
    ensures PageKept(ram, t, ram', t', o, q)
  {
    hide Linked, Shared, Granting;
    OwnSteps(o, q);
    OwnedTranslates(ram, t, ram', t', s, pg, o, q);
    hide TreeWalk, KeptWalksBut;
    if TreeWalk(ram, t, o, q).Some? {
      LeafFrameOf(ram, t, o, q);
      LeafFrameOf(ram', t', o, q);
    }
  }

  lemma OwnedTranslates(ram: Ram, t: Tree, ram': Ram, t': Tree, s: nat, pg: Page, o: Owner, q: Page)
    requires Inv(ram, t) && Inv(ram', t') && KeptWalksBut(ram, t, ram', t', Space(s), pg)
    requires Own(Leaf(o, q)) && (o, q) != (Space(s), pg)
    ensures TreeWalk(ram', t', o, q) == TreeWalk(ram, t, o, q)
  {
    hide TreeWalk, Inv;
    OwnSteps(o, q);
    assert KeptPage(o, q, TreeWalk(ram, t, o, q), TreeWalk(ram', t', o, q));
  }

  /** A store into the frame of one page keeps all other owned pages. */
  lemma FillKeeps(ram: Ram, t: Tree, ram': Ram, s: nat, pg: Page, f: nat)
    requires Good(ram, t) && Good(ram', t) && OnlyFrame(ram, ram', f) && SameWalks(ram, t, ram', t)
    requires Leaf(Space(s), pg) in t.at && t.at[Leaf(Space(s), pg)] == f
    ensures KeptExcept(ram, t, ram', t, s, Num(pg), Num(pg) + 1)
  {
    hide Linked, Shared, Granting, Num, OwnStep;
    forall o, q | Own(Leaf(o, q)) && !(o == Space(s) && Num(pg) <= Num(q) < Num(pg) + 1) ensures PageKept(ram, t, ram', t, o, q) {
      OwnSteps(o, q);
      assert TreeWalk(ram', t, o, q) == TreeWalk(ram, t, o, q);
      if TreeWalk(ram, t, o, q).Some? { LeafFrameOf(ram, t, o, q); }
    }
  }

  /** Page pg of s maps a frame full of zeros with flags fl. */
  ghost predicate ZeroPage(ram: Ram, t: Tree, s: nat, pg: Page, fl: Flags)
    requires Inv(ram, t)
  {
    && TreeWalk(ram, t, Space(s), pg).Some?
    && TreeWalk(ram, t, Space(s), pg).value.fl == fl
    && forall k: Index :: Load(ram, TreeWalk(ram, t, Space(s), pg).value.frame)[k] == ZERO
  }

  /** Pages lo to hi of s are private. */
  ghost predicate PrivateRun(lo: nat, hi: nat) {
    hi <= 0x10_0000_0000 && forall n: nat {:trigger PageOf(n)} | lo <= n < hi :: Private(PageOf(n))
  }

  /** The space s is active. */
  ghost predicate Active(m: Mmu, s: nat)
    reads m, m.pmm, m.pmm.bitmap
  {
    m.Valid() && m.cr3 == s && Root(Space(s)) in m.tree.at
  }

  /** What one private page operation of the active space may change. */
  twostate predicate PageOp(m: Mmu, s: nat, lo: nat, hi: nat)
    requires Good(old(m.ram), old(m.tree))
    reads m, m.pmm, m.pmm.bitmap
  {
    && m.Outside() == old(m.Outside()) && PageEdit(m, s, lo, hi)
  }

  /** PageOp, but for the frames that sit nowhere. */
  twostate predicate PageEdit(m: Mmu, s: nat, lo: nat, hi: nat)
    requires Good(old(m.ram), old(m.tree))
    reads m, m.pmm, m.pmm.bitmap
  {
    && Active(m, s) && m.pmm.pool == old(m.pmm.pool)
    && KeptExcept(old(m.ram), old(m.tree), m.ram, m.tree, s, lo, hi)
    && OtherRoles(old(m.tree), m.tree, s)
  }

  /** No position of another owner than space s, and no root, has come or gone. */
  ghost predicate OtherRoles(t: Tree, t': Tree, s: nat) {
    && (forall p {:trigger p in t.at} {:trigger p in t'.at} | OwnerOf(p) != Space(s) :: p in t'.at <==> p in t.at)
    && (forall p {:trigger t'.at[p]} | p in t.at && p in t'.at && OwnerOf(p) != Space(s) :: t'.at[p] == t.at[p])
    && (Root(Space(s)) in t'.at <==> Root(Space(s)) in t.at)
  }

  lemma OtherRolesTrans(t0: Tree, t1: Tree, t2: Tree, s: nat)
    requires OtherRoles(t0, t1, s) && OtherRoles(t1, t2, s)
    ensures OtherRoles(t0, t2, s)
  {
  }

  /** Map one fresh frame. */
  method MapFresh(m: Mmu, pg: Page, fl: Flags, ghost s: nat) returns (ok: bool, frame: nat)
    requires Active(m, s) && Private(pg) && Leaf(Space(s), pg) !in m.tree.at && fl.present && !fl.huge
    modifies m`ram, m`tree, m.pmm, m.pmm.bitmap
    ensures ok ==> PageOp(m, s, Num(pg), Num(pg) + 1) && TreeWalk(m.ram, m.tree, Space(s), pg) == Some(Entry(frame, fl))
    ensures ok ==> Leaf(Space(s), pg) in m.tree.at && m.tree.at[Leaf(Space(s), pg)] == frame < |m.ram|
    ensures ok ==> m.pmm.released == old(m.pmm.released)
    ensures m.Buys(ok, Chain(Space(s), pg))
  {
    hide Linked, Shared, Granting, Pmm.Valid, TreeWalk, Num, Chain, Bought, Above;
    ghost var n0 := |m.pmm.free|;
    PagePrice(m.tree.at.Keys, n0, m.tree.at.Keys, n0, Space(s), pg);
    ok, frame := m.Alloc();
    if !ok { return; }
    ok := MapFrame(m, pg, frame, fl, s, n0);
  }

  /** Map a frame that sits nowhere yet. */
  method MapFrame(m: Mmu, pg: Page, frame: nat, fl: Flags, ghost s: nat, ghost n0: nat) returns (ok: bool)
    requires Active(m, s) && Private(pg) && Leaf(Space(s), pg) !in m.tree.at && fl.present && !fl.huge
    requires frame in m.Outside() && frame < |m.ram| && |m.pmm.free| == n0 - 1
    modifies m`ram, m`tree, m.pmm, m.pmm.bitmap
    ensures ok ==> PageEdit(m, s, Num(pg), Num(pg) + 1) && TreeWalk(m.ram, m.tree, Space(s), pg) == Some(Entry(frame, fl))
    ensures ok ==> Leaf(Space(s), pg) in m.tree.at && m.tree.at[Leaf(Space(s), pg)] == frame < |m.ram|
    ensures ok ==> m.pmm.released == old(m.pmm.released) && m.Outside() == old(m.Outside()) - {frame}
    ensures (ok <==> n0 >= 1 + old(m.TableCost(Space(s), pg))) && (!ok ==> m.pmm.free == {})
    ensures ok ==> Bought(old(m.tree.at.Keys), n0, m.tree.at.Keys, |m.pmm.free|, Chain(Space(s), pg))
  {
    hide Linked, Shared, Granting, Pmm.Valid, KeptWalksBut, TreeWalk, OnlyTablesOf, LeafChange, Num, Chain, Bought, Above;
    ghost var ram0, t0 := m.ram, m.tree;
    m.StartForClone(s, pg, fl);
    ok := m.Map(pg, frame, fl, Space(s));
    if !ok { return; }
    PagePrice(t0.at.Keys, n0, m.tree.at.Keys, |m.pmm.free|, Space(s), pg);
    RootsOnlyByCreation(t0, m.tree, s, pg);
    StepKeeps(ram0, t0, m.ram, m.tree, s, pg);
  }

  /** Zero the frame of a mapped page. */
  method ZeroLeaf(m: Mmu, pg: Page, frame: nat, ghost s: nat)
    requires Active(m, s) && Leaf(Space(s), pg) in m.tree.at && m.tree.at[Leaf(Space(s), pg)] == frame < |m.ram|
    modifies m`ram
    ensures PageOp(m, s, Num(pg), Num(pg) + 1)
    ensures TreeWalk(m.ram, m.tree, Space(s), pg) == old(TreeWalk(m.ram, m.tree, Space(s), pg))
    ensures forall j: Index :: m.ram[frame][j] == ZERO
  {
    hide Linked, Shared, Granting, Pmm.Valid, TreeWalk, Num;
    ghost var ram1 := m.ram;
    LeafIsNoTable(ram1, m.tree, Space(s), pg);
    m.ZeroFrame(frame);
    WriteData(ram1, m.tree, m.ram, frame);
    FillKeeps(ram1, m.tree, m.ram, s, pg, frame);
    LeafOwned(m.tree, Space(s), pg);
    SameOn(ram1, m.tree, m.ram, m.tree, Space(s), pg);
  }

  lemma LeafOwned(t: Tree, o: Owner, pg: Page)
    requires Shaped(t) && Leaf(o, pg) in t.at
    ensures Own(Leaf(o, pg))
  {
  }

  /** Map one fresh zeroed frame: the loop body of brk, mmap and the ELF loader. */
  method MapZeroed(m: Mmu, pg: Page, fl: Flags, ghost s: nat) returns (ok: bool, frame: nat)
    requires Active(m, s) && Private(pg) && Leaf(Space(s), pg) !in m.tree.at && fl.present && !fl.huge
    modifies m`ram, m`tree, m.pmm, m.pmm.bitmap
    ensures ok ==> PageOp(m, s, Num(pg), Num(pg) + 1) && ZeroPage(m.ram, m.tree, s, pg, fl)
    ensures ok ==> m.pmm.released == old(m.pmm.released)
    ensures m.Buys(ok, Chain(Space(s), pg))
  {
    hide Inv, Granting, Mmu.Valid, TreeWalk, Num, KeptExcept, Private, Bought, Chain;
    ghost var ram0, t0 := m.ram, m.tree;
    ActiveGood(m, s);
    ok, frame := MapFresh(m, pg, fl, s);
    if !ok { return; }
    ghost var ram1, t1 := m.ram, m.tree;
    ActiveGood(m, s);
    ZeroLeaf(m, pg, frame, s);
    ActiveGood(m, s);
    KeptTwice(ram0, t0, ram1, t1, m.ram, m.tree, s, Num(pg), Num(pg) + 1);
  }

  lemma ActiveGood(m: Mmu, s: nat)
    requires Active(m, s)
    ensures Good(m.ram, m.tree) && |m.ram| == MAX_FRAMES
  {
  }

  lemma KeptTwice(ram0: Ram, t0: Tree, ram1: Ram, t1: Tree, ram2: Ram, t2: Tree, s: nat, lo: nat, hi: nat)
    requires Inv(ram0, t0) && Inv(ram1, t1) && Inv(ram2, t2)
    requires KeptExcept(ram0, t0, ram1, t1, s, lo, hi) && KeptExcept(ram1, t1, ram2, t2, s, lo, hi)
    ensures KeptExcept(ram0, t0, ram2, t2, s, lo, hi)
  {
    hide TreeWalk, Inv, Own, Num;
    forall o, pg | Own(Leaf(o, pg)) && !(o == Space(s) && lo <= Num(pg) < hi) ensures PageKept(ram0, t0, ram2, t2, o, pg) {
      assert PageKept(ram0, t0, ram1, t1, o, pg);
      assert PageKept(ram1, t1, ram2, t2, o, pg);
    }
  }

  lemma SameOn(ram: Ram, t: Tree, ram': Ram, t': Tree, o: Owner, pg: Page)
    requires Inv(ram, t) && Inv(ram', t') && SameWalks(ram, t, ram', t') && Own(Leaf(o, pg))
    ensures TreeWalk(ram', t', o, pg) == TreeWalk(ram, t, o, pg)
  {
    hide TreeWalk, Inv;
    OwnSteps(o, pg);
  }

  lemma LeafIsNoTable(ram: Ram, t: Tree, o: Owner, pg: Page)
    requires Good(ram, t) && Leaf(o, pg) in t.at
    ensures NotTable(t, t.at[Leaf(o, pg)]) && t.at[Leaf(o, pg)] != t.at[Root(Kernel)]
  {
    OwnSteps(o, pg);
  }

  /** Editing a page neither adds nor removes a space, nor anything of another owner. */
  lemma RootsOnlyByCreation(t: Tree, t': Tree, s: nat, pg: Page)
    requires LeafChange(t, t', Space(s), pg) && Root(Space(s)) in t.at
    ensures OtherRoles(t, t', s)
  {
    OwnSteps(Space(s), pg);
  }

  /** virt_to_phys, then unmap: the frame's address is all that is left of the mapping. */
  method UnmapPage(m: Mmu, pg: Page, ghost s: nat) returns (ok: bool, phys: nat)
    requires Active(m, s) && Private(pg)
    modifies m`ram, m`tree, m.pmm, m.pmm.bitmap
    ensures ok ==> PageEdit(m, s, Num(pg), Num(pg) + 1) && TreeWalk(m.ram, m.tree, Space(s), pg) == None
    ensures ok ==> m.Outside() == old(m.Outside()) + HeldBy(old(m.tree), s, pg) && m.pmm.released == old(m.pmm.released)
    ensures HeldBy(old(m.tree), s, pg) == (if phys == 0 then {} else {phys / PAGE_SIZE}) && HeldBy(old(m.tree), s, pg) !! old(m.Outside())
    ensures ok
  {
    hide Linked, Shared, Granting, Pmm.Valid, TreeWalk, Num, KeptWalksBut, OnlyTablesOf, LeafChange;
    ghost var ram0, t0 := m.ram, m.tree;
    m.StartForClone(s, pg, NO_FLAGS);
    phys := m.VirtToPhys(pg, 0);
    PhysIsHeld(m, s, pg, phys);
    ok := m.Unmap(pg, Space(s));
    RootsOnlyByCreation(t0, m.tree, s, pg);
    StepKeeps(ram0, t0, m.ram, m.tree, s, pg);
  }

  lemma PhysIsHeld(m: Mmu, s: nat, pg: Page, phys: nat)
    requires Active(m, s) && Private(pg) && m.StartsAt(m.cr3, pg, Space(s))
    requires phys ==
      match Walk(m.ram, m.cr3, pg)
      case None => 0
      case Some(e) => e.frame * PAGE_SIZE
    ensures HeldBy(m.tree, s, pg) == (if phys == 0 then {} else {phys / PAGE_SIZE}) && HeldBy(m.tree, s, pg) !! m.Outside()
  {
    hide Linked, Shared, Granting, Pmm.Valid, TreeWalk, Walk;
    m.ActiveWalk(m.cr3, pg, Space(s));
    TrackedIsPrivate(s, pg);
    MappedFrame(m.ram, m.tree, Space(s), pg);
  }

  /** Unmap one page and free the frame it had: the loop body of a shrinking brk and of munmap. */
  method UnmapFree(m: Mmu, pg: Page, ghost s: nat) returns (ok: bool)
    requires Active(m, s) && Private(pg)
    modifies m`ram, m`tree, m.pmm, m.pmm.bitmap
    ensures ok ==> PageOp(m, s, Num(pg), Num(pg) + 1) && TreeWalk(m.ram, m.tree, Space(s), pg) == None
    ensures ok ==> m.pmm.released == old(m.pmm.released) + multiset(HeldBy(old(m.tree), s, pg))
    ensures ok
  {
    hide Good, TreeWalk, Num, Pmm.Valid;
    var phys;
    ok, phys := UnmapPage(m, pg, s);
    if phys != 0 { FreeOutside(m, phys / PAGE_SIZE); }
  }

  /** The frame behind a page, if it is mapped. */
  ghost function HeldBy(t: Tree, s: nat, pg: Page): set<nat> {
    if Leaf(Space(s), pg) in t.at then {t.at[Leaf(Space(s), pg)]} else {}
  }

  /** free_frame on a frame that sits nowhere. */
  method FreeOutside(m: Mmu, f: nat)
    requires m.Valid() && f in m.Outside()
    modifies m.pmm, m.pmm.bitmap
    ensures m.Valid() && m.Outside() == old(m.Outside()) - {f} && m.pmm.pool == old(m.pmm.pool)
    ensures m.pmm.free == old(m.pmm.free) + {f} && m.pmm.released == old(m.pmm.released) + multiset{f}
  {
    hide Good;
    m.pmm.FreeFrame(f);
  }

  /** Map fresh zeroed pages lo to hi, as brk and mmap do. */
  method MapRun(m: Mmu, lo: nat, hi: nat, fl: Flags, ghost s: nat) returns (ok: bool)
    requires Active(m, s) && lo <= hi && PrivateRun(lo, hi) && fl.present && !fl.huge
    requires Unmapped(m.tree, s, lo, hi)
    modifies m`ram, m`tree, m.pmm, m.pmm.bitmap
    ensures ok ==> PageOp(m, s, lo, hi) && ZeroRun(m.ram, m.tree, s, lo, hi, fl) && m.pmm.released == old(m.pmm.released)
    ensures m.Buys(ok, RunChains(Space(s), lo, hi))
  {
    hide Inv, Granting, Mmu.Valid, TreeWalk, Num, KeptExcept, Private, PageOf, ZeroPage, Bought, RunChains, Chain;
    ghost var ram0, t0 := m.ram, m.tree;
    ActiveGood(m, s);
    KeptRefl(m.ram, m.tree, s, lo);
    ghost var k0, n0 := t0.at.Keys, |m.pmm.free|;
    RunNone(k0, n0, Space(s), lo);
    var n := lo;
    while n < hi
      invariant Bought(k0, n0, m.tree.at.Keys, |m.pmm.free|, RunChains(Space(s), lo, n))
      invariant lo <= n <= hi && PageOp(m, s, lo, n) && m.pmm.released == old(m.pmm.released)
      invariant Good(m.ram, m.tree) && ZeroRun(m.ram, m.tree, s, lo, n, fl) && Unmapped(m.tree, s, n, hi)
    {
      ghost var ram1, t1 := m.ram, m.tree;
      NumOfPage(n);
      var frame;
      ghost var n1 := |m.pmm.free|;
      ok, frame := MapZeroed(m, PageOf(n), fl, s);
      RunOn(k0, n0, t1.at.Keys, n1, m.tree.at.Keys, |m.pmm.free|, ok, Space(s), lo, n, hi);
      if !ok { return; }
      ActiveGood(m, s);
      KeptExceptTrans(ram0, t0, ram1, t1, m.ram, m.tree, s, lo, n, n + 1);
      ZeroStays(ram1, t1, m.ram, m.tree, s, lo, n, fl);
      UnmappedStays(ram1, t1, m.ram, m.tree, s, n, hi);
      n := n + 1;
    }
    Afforded(k0, n0, m.tree.at.Keys, |m.pmm.free|, RunChains(Space(s), lo, hi));
    ok := true;
  }

  /** The positions behind the pages lo to hi of o. */
  ghost function RunChains(o: Owner, lo: nat, hi: nat): set<Path> {
    set n: nat, q | lo <= n < hi && q in Chain(o, PageOf(n)) :: q
  }

  lemma RunNone(k: set<Path>, n: nat, o: Owner, lo: nat)
    ensures Bought(k, n, k, n, RunChains(o, lo, lo))
  {
    hide Chain;
    assert RunChains(o, lo, lo) == {};
    BoughtNothing(k, n);
  }

  lemma RunMore(o: Owner, lo: nat, n: nat, hi: nat)
    requires lo <= n < hi
    ensures RunChains(o, lo, n) + Chain(o, PageOf(n)) == RunChains(o, lo, n + 1) <= RunChains(o, lo, hi)
  {
    hide Chain, PageOf;
  }

  /** One page more of a run, or its failure. */
  lemma RunOn(k0: set<Path>, n0: int, k1: set<Path>, n1: int, k2: set<Path>, n2: int, ok: bool, o: Owner, lo: nat, n: nat, hi: nat)
    requires lo <= n < hi && Bought(k0, n0, k1, n1, RunChains(o, lo, n))
    requires ok <==> n1 >= |Chain(o, PageOf(n)) - k1|
    requires ok ==> Bought(k1, n1, k2, n2, Chain(o, PageOf(n)))
    ensures ok ==> Bought(k0, n0, k2, n2, RunChains(o, lo, n + 1))
    ensures !ok ==> n0 < |RunChains(o, lo, hi) - k0|
  {
    hide Chain, PageOf, RunChains, Bought;
    RunMore(o, lo, n, hi);
    if ok {
      BoughtThen(k0, n0, k1, n1, k2, n2, RunChains(o, lo, n), Chain(o, PageOf(n)));
    } else {
      Short(k0, n0, k1, n1, RunChains(o, lo, n), Chain(o, PageOf(n)), RunChains(o, lo, hi));
    }
  }

  ghost predicate Unmapped(t: Tree, s: nat, lo: nat, hi: nat) {
    forall n: nat {:trigger PageOf(n)} | lo <= n < hi :: Leaf(Space(s), PageOf(n)) !in t.at
  }

  ghost predicate ZeroRun(ram: Ram, t: Tree, s: nat, lo: nat, hi: nat, fl: Flags)
    requires Inv(ram, t)
  {
    forall n: nat {:trigger PageOf(n)} | lo <= n < hi :: ZeroPage(ram, t, s, PageOf(n), fl)
  }

  lemma KeptRefl(ram: Ram, t: Tree, s: nat, lo: nat)
    requires Inv(ram, t)
    ensures KeptExcept(ram, t, ram, t, s, lo, lo) && OtherRoles(t, t, s)
  {
  }

  /** Pages below n keep their zeros while page n is mapped. */
  lemma ZeroStays(ram: Ram, t: Tree, ram': Ram, t': Tree, s: nat, lo: nat, n: nat, fl: Flags)
    requires Inv(ram, t) && Inv(ram', t') && PrivateRun(lo, n + 1) && lo <= n
    requires ZeroRun(ram, t, s, lo, n, fl) && KeptExcept(ram, t, ram', t', s, n, n + 1)
    requires ZeroPage(ram', t', s, PageOf(n), fl)
    ensures ZeroRun(ram', t', s, lo, n + 1, fl)
  {
    hide Inv, Num, PageOf, Private, TreeWalk;
    forall j: nat | lo <= j < n + 1 ensures ZeroPage(ram', t', s, PageOf(j), fl) {
      if j < n {
        NumOfPage(j);
        TrackedIsPrivate(s, PageOf(j));
        assert PageKept(ram, t, ram', t', Space(s), PageOf(j));
      }
    }
  }

  lemma UnmappedStays(ram: Ram, t: Tree, ram': Ram, t': Tree, s: nat, n: nat, hi: nat)
    requires Good(ram, t) && Good(ram', t') && PrivateRun(n, hi)
    requires Unmapped(t, s, n, hi) && KeptExcept(ram, t, ram', t', s, n, n + 1)
    ensures Unmapped(t', s, n + 1, hi)
  {
    hide Inv, Granting, Num, PageOf, Private, TreeWalk;
    forall j: nat | n + 1 <= j < hi ensures Leaf(Space(s), PageOf(j)) !in t'.at {
      NumOfPage(j);
      TrackedIsPrivate(s, PageOf(j));
      assert PageKept(ram, t, ram', t', Space(s), PageOf(j));
      MappedFrame(ram, t, Space(s), PageOf(j));
      MappedFrame(ram', t', Space(s), PageOf(j));
    }
  }

  /** Unmap and free pages lo to hi, as a shrinking brk and munmap do. */
  method UnmapRun(m: Mmu, lo: nat, hi: nat, ghost s: nat) returns (ok: bool)
    requires Active(m, s) && lo <= hi && PrivateRun(lo, hi)
    modifies m`ram, m`tree, m.pmm, m.pmm.bitmap
    ensures ok ==> PageOp(m, s, lo, hi) && Unmapped(m.tree, s, lo, hi)
    ensures ok
  {
    hide Inv, Granting, Mmu.Valid, TreeWalk, Num, KeptExcept, Private, PageOf;
    ghost var ram0, t0 := m.ram, m.tree;
    ActiveGood(m, s);
    KeptRefl(m.ram, m.tree, s, lo);
    var n := lo;
    while n < hi
      invariant lo <= n <= hi && PageOp(m, s, lo, n)
      invariant Good(m.ram, m.tree) && Unmapped(m.tree, s, lo, n)
    {
      ghost var ram1, t1 := m.ram, m.tree;
      NumOfPage(n);
      ok := UnmapFree(m, PageOf(n), s);
      ActiveGood(m, s);
      KeptExceptTrans(ram0, t0, ram1, t1, m.ram, m.tree, s, lo, n, n + 1);
      UnmappedGrows(ram1, t1, m.ram, m.tree, s, lo, n);
      n := n + 1;
    }
    ok := true;
  }

  lemma UnmappedGrows(ram: Ram, t: Tree, ram': Ram, t': Tree, s: nat, lo: nat, n: nat)
    requires Good(ram, t) && Good(ram', t') && PrivateRun(lo, n + 1) && lo <= n
    requires Unmapped(t, s, lo, n) && KeptExcept(ram, t, ram', t', s, n, n + 1)
    requires TreeWalk(ram', t', Space(s), PageOf(n)) == None
    ensures Unmapped(t', s, lo, n + 1)
  {
    hide Inv, Granting, Num, PageOf, Private, TreeWalk;
    forall j: nat | lo <= j < n + 1 ensures Leaf(Space(s), PageOf(j)) !in t'.at {
      NumOfPage(j);
      TrackedIsPrivate(s, PageOf(j));
      MappedFrame(ram', t', Space(s), PageOf(j));
      if j < n {
        assert PageKept(ram, t, ram', t', Space(s), PageOf(j));
        MappedFrame(ram, t, Space(s), PageOf(j));
      }
    }
  }
}
