/** The memory system calls of a task over its address space: brk, mmap, munmap, mprotect. */
module ProcessMemory {
  import opened Options
  import opened Machine
  import opened FrameBitmap
  import opened PageTables
  import opened PageTableSteps
  import opened SpaceSteps
  import opened MappingSteps
  import opened CloneSteps
  import opened FramePrices
  import opened AddressSpaces
  import opened PageRanges

  const BRK_CEILING: nat := 0x100_0000
  const WINDOW_BASE: nat := 0x20_0000
  const MMAP_BASE: nat := 0x6000_0000_0000

  const ENODEV: int := 19
  const EINVAL: int := 22

  /** USER_RW of brk, and the flags mmap and mprotect derive from the bits PROT_WRITE and PROT_EXEC of
      their protection argument. */
  const USER_RW := Flags(true, true, true, false, true, 0, 0)
  function ProtFlags(prot: nat): Flags { Flags(true, prot / 2 % 2 == 1, true, false, prot / 4 % 2 == 0, 0, 0) }

  // ---- what user code may do ----

  /** On every page from lo to hi user code may read, and write or run what is said here, through all
      four levels of the tables. */
  ghost predicate Grants(ram: Ram, cr3: nat, lo: nat, hi: nat, write: bool, exec: bool) {
    forall n: nat {:trigger PageOf(n)} | lo <= n < hi :: Effective(ram, cr3, PageOf(n)) == Some(Rights(write, true, !exec))
  }

  /** The same for the pages that were mapped; the others are as unmapped as they were. */
  ghost predicate Regrants(ram: Ram, ram': Ram, cr3: nat, lo: nat, hi: nat, write: bool, exec: bool) {
    forall n: nat {:trigger PageOf(n)} | lo <= n < hi ::
      Effective(ram', cr3, PageOf(n)) == if Effective(ram, cr3, PageOf(n)).Some? then Some(Rights(write, true, !exec)) else Option.None
  }

  /** The entry of a private page decides. */
  lemma EntryDecides(ram: Ram, t: Tree, s: nat, pg: Page)
    requires Good(ram, t) && Root(Space(s)) in t.at && Private(pg)
    ensures Effective(ram, s, pg) == match TreeWalk(ram, t, Space(s), pg) case None => Option.None case Some(e) => Some(Of(e))
  {
    RootFrame(ram, t, s);
    hide Inv, Granting, Private, Effective, TreeWalk;
    TrackedIsPrivate(s, pg);
    EffectiveIsLeaf(ram, t, s, pg);
    WalkIsTreeWalk(ram, t, Space(s), pg);
  }

  lemma RootFrame(ram: Ram, t: Tree, s: nat)
    requires Inv(ram, t) && Root(Space(s)) in t.at
    ensures t.at[Root(Space(s))] == s
  {
  }

  lemma RunGrants(ram: Ram, t: Tree, s: nat, lo: nat, hi: nat, fl: Flags, write: bool, exec: bool)
    requires Good(ram, t) && Root(Space(s)) in t.at && PrivateRun(lo, hi)
    requires forall n: nat {:trigger PageOf(n)} | lo <= n < hi :: TreeWalk(ram, t, Space(s), PageOf(n)).Some? && TreeWalk(ram, t, Space(s), PageOf(n)).value.fl == fl
    requires fl.writable == write && fl.user && fl.nx == !exec
    ensures Grants(ram, s, lo, hi, write, exec)
  {
    hide Good, Inv, Granting, Private, Effective, TreeWalk, PageOf;
    forall n: nat | lo <= n < hi ensures Effective(ram, s, PageOf(n)) == Some(Rights(write, true, !exec)) {
      EntryDecides(ram, t, s, PageOf(n));
    }
  }

  lemma ZeroGrants(ram: Ram, t: Tree, s: nat, lo: nat, hi: nat, fl: Flags, write: bool, exec: bool)
    requires Good(ram, t) && Root(Space(s)) in t.at && PrivateRun(lo, hi) && ZeroRun(ram, t, s, lo, hi, fl)
    requires fl.writable == write && fl.user && fl.nx == !exec
    ensures Grants(ram, s, lo, hi, write, exec)
  {
    hide Inv, Granting, Private, TreeWalk, PageOf, Grants;
    forall n: nat {:trigger PageOf(n)} | lo <= n < hi ensures TreeWalk(ram, t, Space(s), PageOf(n)).Some? && TreeWalk(ram, t, Space(s), PageOf(n)).value.fl == fl {
      assert ZeroPage(ram, t, s, PageOf(n), fl);
    }
    RunGrants(ram, t, s, lo, hi, fl, write, exec);
  }

  lemma RunRegrants(ram: Ram, t: Tree, ram': Ram, t': Tree, s: nat, lo: nat, hi: nat, fl: Flags, write: bool, exec: bool)
    requires Good(ram, t) && Good(ram', t') && Root(Space(s)) in t.at && Root(Space(s)) in t'.at && PrivateRun(lo, hi)
    requires ReflaggedRun(ram, t, ram', t', s, lo, hi, fl) && fl.writable == write && fl.user && fl.nx == !exec
    ensures Regrants(ram, ram', s, lo, hi, write, exec)
  {
    hide Inv, Granting, Private, Effective, TreeWalk, PageOf;
    forall n: nat | lo <= n < hi
      ensures Effective(ram', s, PageOf(n)) == if Effective(ram, s, PageOf(n)).Some? then Some(Rights(write, true, !exec)) else Option.None
    {
      EntryDecides(ram, t, s, PageOf(n));
      EntryDecides(ram', t', s, PageOf(n));
      assert Reflagged(ram, t, ram', t', s, PageOf(n), fl);
    }
  }

  // ---- changing permissions ----

  /** Page pg keeps its frame and contents but now carries flags fl, if it was mapped at all. */
  ghost predicate Reflagged(ram: Ram, t: Tree, ram': Ram, t': Tree, s: nat, pg: Page, fl: Flags)
    requires Inv(ram, t) && Inv(ram', t')
  {
    match TreeWalk(ram, t, Space(s), pg)
    case None => TreeWalk(ram', t', Space(s), pg) == None
    case Some(e) => TreeWalk(ram', t', Space(s), pg) == Some(Entry(e.frame, fl)) && Load(ram', e.frame) == Load(ram, e.frame)
  }

  /** protect on a private page. */
  method ProtectPage(m: Mmu, pg: Page, fl: Flags, ghost s: nat) returns (ok: bool)
    requires Active(m, s) && Private(pg) && fl.present && !fl.huge
    modifies m`ram, m`tree, m.pmm, m.pmm.bitmap
    ensures ok ==> PageOp(m, s, Num(pg), Num(pg) + 1)
    ensures ok ==> Reflagged(old(m.ram), old(m.tree), m.ram, m.tree, s, pg, fl)
    ensures ok
  {
    hide Linked, Shared, Granting, Pmm.Valid, TreeWalk, Num, KeptWalksBut, OnlyTablesOf, LeafChange;
    ghost var ram0, t0 := m.ram, m.tree;
    m.StartForClone(s, pg, fl);
    ok := m.Protect(pg, fl, Space(s));
    if TreeWalk(ram0, t0, Space(s), pg).None? {
      KeptRefl(ram0, t0, s, Num(pg));
      KeptWider(ram0, t0, ram0, t0, s, Num(pg), Num(pg) + 1);
    } else {
      RootsOnlyByCreation(t0, m.tree, s, pg);
      StepKeeps(ram0, t0, m.ram, m.tree, s, pg);
      LeafFrameOf(ram0, t0, Space(s), pg);
      LeafFrameOf(m.ram, m.tree, Space(s), pg);
      LeafData(ram0, m.ram, m.tree, Space(s), TreeWalk(ram0, t0, Space(s), pg).value.frame);
    }
  }

  lemma LeafData(ram: Ram, ram': Ram, t': Tree, o: Owner, f: nat)
    requires OnlyTablesOf(ram, ram', t', o) && f < |ram| && f in t'.role && Level(t'.role[f]) == 4
    ensures ram'[f] == ram[f]
  {
  }

  lemma KeptWider(ram: Ram, t: Tree, ram': Ram, t': Tree, s: nat, lo: nat, hi: nat)
    requires Inv(ram, t) && Inv(ram', t') && KeptExcept(ram, t, ram', t', s, lo, lo) && lo <= hi
    ensures KeptExcept(ram, t, ram', t', s, lo, hi)
  {
    hide TreeWalk, Inv, Own, Num;
  }

  ghost predicate ReflaggedRun(ram: Ram, t: Tree, ram': Ram, t': Tree, s: nat, lo: nat, hi: nat, fl: Flags)
    requires Inv(ram, t) && Inv(ram', t')
  {
    forall n: nat {:trigger PageOf(n)} | lo <= n < hi :: Reflagged(ram, t, ram', t', s, PageOf(n), fl)
  }

  /** One page further. */
  lemma ReflagMore(ram0: Ram, t0: Tree, ram1: Ram, t1: Tree, ram2: Ram, t2: Tree, s: nat, lo: nat, n: nat, fl: Flags)
    requires Inv(ram0, t0) && Inv(ram1, t1) && Inv(ram2, t2) && PrivateRun(lo, n + 1) && lo <= n
    requires ReflaggedRun(ram0, t0, ram1, t1, s, lo, n, fl) && KeptExcept(ram0, t0, ram1, t1, s, lo, n)
    requires Reflagged(ram1, t1, ram2, t2, s, PageOf(n), fl) && KeptExcept(ram1, t1, ram2, t2, s, n, n + 1)
    ensures ReflaggedRun(ram0, t0, ram2, t2, s, lo, n + 1, fl)
  {
    hide Inv, Num, PageOf, Private, TreeWalk;
    forall j: nat | lo <= j < n + 1 ensures Reflagged(ram0, t0, ram2, t2, s, PageOf(j), fl) {
      NumOfPage(j);
      TrackedIsPrivate(s, PageOf(j));
      if j < n {
        assert PageKept(ram1, t1, ram2, t2, Space(s), PageOf(j));
      } else {
        assert PageKept(ram0, t0, ram1, t1, Space(s), PageOf(j));
      }
    }
  }

  method ProtectRun(m: Mmu, lo: nat, hi: nat, fl: Flags, ghost s: nat) returns (ok: bool)
    requires Active(m, s) && lo <= hi && PrivateRun(lo, hi) && fl.present && !fl.huge
    modifies m`ram, m`tree, m.pmm, m.pmm.bitmap
    ensures ok ==> PageOp(m, s, lo, hi) && ReflaggedRun(old(m.ram), old(m.tree), m.ram, m.tree, s, lo, hi, fl)
    ensures ok
  {
    hide Inv, Granting, Mmu.Valid, TreeWalk, Num, KeptExcept, Private, PageOf, Reflagged;
    ghost var ram0, t0 := m.ram, m.tree;
    ActiveGood(m, s);
    KeptRefl(m.ram, m.tree, s, lo);
    var n := lo;
    while n < hi
      invariant lo <= n <= hi && PageOp(m, s, lo, n)
      invariant Good(m.ram, m.tree) && ReflaggedRun(ram0, t0, m.ram, m.tree, s, lo, n, fl)
    {
      ghost var ram1, t1 := m.ram, m.tree;
      NumOfPage(n);
      ok := ProtectPage(m, PageOf(n), fl, s);
      ActiveGood(m, s);
      ReflagMore(ram0, t0, ram1, t1, m.ram, m.tree, s, lo, n, fl);
      KeptExceptTrans(ram0, t0, ram1, t1, m.ram, m.tree, s, lo, n, n + 1);
      n := n + 1;
    }
    ok := true;
  }

  // ---- which page numbers are private ----

  lemma WindowIsPrivate(lo: nat, hi: nat)
    requires WINDOW_BASE / PAGE_SIZE <= lo <= hi <= BRK_CEILING / PAGE_SIZE
    ensures PrivateRun(lo, hi)
  {
    forall n: nat | lo <= n < hi ensures Private(PageOf(n)) {
      assert n / 512 < 8 && n / 512 >= 1;
    }
  }

  lemma UpperIsPrivate(lo: nat, hi: nat)
    requires MMAP_BASE / PAGE_SIZE <= lo <= hi <= STACK_TOP / PAGE_SIZE
    ensures PrivateRun(lo, hi)
  {
    forall n: nat | lo <= n < hi ensures Private(PageOf(n)) {
      assert 192 <= n / 512 / 512 / 512 < 256;
    }
  }

  // ---- the system calls ----

  /** The fields of a task that its memory system calls use. */
  class Process {
    const mmu: Mmu
    var cr3: nat
    var brkStart: nat
    var brkCur: nat
    var mmapNext: nat

    constructor (mmu: Mmu, cr3: nat, highest: nat)
      ensures this.mmu == mmu && this.cr3 == cr3 && brkStart == brkCur == highest && mmapNext == 0x6000_0000_0000
    {
      this.mmu, this.cr3, brkStart, brkCur, mmapNext := mmu, cr3, highest, highest, MMAP_BASE;
    }

    /** The address space is in use and the regions are right. */
    ghost predicate Valid()
      reads this, mmu, mmu.pmm, mmu.pmm.bitmap
    {
      Active(mmu, cr3) && Regions()
    }

    /** The break lies in the window, the mmap pointer below the stack, and nothing is mapped in
        the parts of either region that have not been handed out. */
    ghost predicate Regions()
      reads this, mmu
    {
      && WINDOW_BASE <= brkStart <= brkCur <= BRK_CEILING && brkStart % PAGE_SIZE == 0
      && MMAP_BASE <= mmapNext <= STACK_BASE && mmapNext % PAGE_SIZE == 0
      && Unmapped(mmu.tree, cr3, PageUp(brkCur) / PAGE_SIZE, BRK_CEILING / PAGE_SIZE)
      && Unmapped(mmu.tree, cr3, mmapNext / PAGE_SIZE, STACK_BASE / PAGE_SIZE)
    }

    /** brk: move the break, mapping zeroed pages or freeing pages; out of range it stays. */
    method SysBrk(addr: nat) returns (ok: bool, r: nat)
      requires Valid()
      modifies this`brkCur, mmu`ram, mmu`tree, mmu.pmm, mmu.pmm.bitmap
      ensures ok ==> Valid() && r == brkCur
      ensures var lo, hi := PageUp(old(brkCur)) / PAGE_SIZE, PageUp(addr) / PAGE_SIZE;
        if brkStart <= addr <= BRK_CEILING && lo < hi then mmu.Buys(ok, RunChains(Space(cr3), lo, hi)) else ok
      ensures ok ==> brkCur == if addr < brkStart || addr > 0x100_0000 then old(brkCur) else addr
      ensures ok ==>
        var lo, hi := PageUp(old(brkCur)) / PAGE_SIZE, PageUp(brkCur) / PAGE_SIZE;
        PageOp(mmu, cr3, Least(lo, hi), Greatest(lo, hi))
        && (lo <= hi ==> ZeroRun(mmu.ram, mmu.tree, cr3, lo, hi, USER_RW) && Grants(mmu.ram, cr3, lo, hi, true, false))
    {
      hide Inv, Granting, Mmu.Valid, TreeWalk, Num, KeptExcept, Private, PageOf, OtherRoles, ZeroPage, RunChains, Bought;
      ghost var lo := PageUp(brkCur) / PAGE_SIZE;
      ActiveGood(mmu, cr3);
      KeptRefl(mmu.ram, mmu.tree, cr3, lo);
      Pages(brkCur);
      if addr == 0 || addr < brkStart { return true, brkCur; }
      if addr > BRK_CEILING { return true, brkCur; }
      Pages(addr);
      ghost var ram0, t0 := mmu.ram, mmu.tree;
      ok := MoveBreak(PageUp(brkCur) / PAGE_SIZE, PageUp(addr) / PAGE_SIZE);
      r := addr;
      if !ok { return; }
      if lo <= PageUp(addr) / PAGE_SIZE {
        ActiveGood(mmu, cr3);
        WindowIsPrivate(lo, PageUp(addr) / PAGE_SIZE);
        ZeroGrants(mmu.ram, mmu.tree, cr3, lo, PageUp(addr) / PAGE_SIZE, USER_RW, true, false);
      }
      brkCur := addr;
    }

    /** The two loops of brk. */
    method MoveBreak(oldTop: nat, newTop: nat) returns (ok: bool)
      requires Valid() && WINDOW_BASE / PAGE_SIZE <= oldTop <= BRK_CEILING / PAGE_SIZE
      requires WINDOW_BASE / PAGE_SIZE <= newTop <= BRK_CEILING / PAGE_SIZE
      requires Unmapped(mmu.tree, cr3, oldTop, BRK_CEILING / PAGE_SIZE)
      modifies mmu`ram, mmu`tree, mmu.pmm, mmu.pmm.bitmap
      ensures ok ==> PageOp(mmu, cr3, Least(oldTop, newTop), Greatest(oldTop, newTop))
      ensures ok ==> Unmapped(mmu.tree, cr3, newTop, BRK_CEILING / PAGE_SIZE)
      ensures ok ==> Unmapped(mmu.tree, cr3, mmapNext / PAGE_SIZE, STACK_BASE / PAGE_SIZE)
      ensures if oldTop < newTop then mmu.Buys(ok, RunChains(Space(cr3), oldTop, newTop)) else ok
      ensures ok && oldTop <= newTop ==> ZeroRun(mmu.ram, mmu.tree, cr3, oldTop, newTop, USER_RW)
    {
      hide Inv, Granting, Mmu.Valid, TreeWalk, Num, KeptExcept, Private, PageOf, OtherRoles, ZeroPage, RunChains, Bought;
      ghost var ram0, t0 := mmu.ram, mmu.tree;
      ghost var lo, hi := Least(oldTop, newTop), Greatest(oldTop, newTop);
      ActiveGood(mmu, cr3);
      WindowIsPrivate(lo, hi);
      ok := true;
      if newTop > oldTop {
        ok := MapRun(mmu, oldTop, newTop, USER_RW, cr3);
      } else if newTop < oldTop {
        ok := UnmapRun(mmu, newTop, oldTop, cr3);
      } else {
        KeptRefl(mmu.ram, mmu.tree, cr3, lo);
      }
      if !ok { return; }
      ActiveGood(mmu, cr3);
      StillUnmapped(ram0, t0, mmu.ram, mmu.tree, cr3, lo, hi, hi, BRK_CEILING / PAGE_SIZE);
      StillUnmapped(ram0, t0, mmu.ram, mmu.tree, cr3, lo, hi, mmapNext / PAGE_SIZE, STACK_BASE / PAGE_SIZE);
    }

    /** The bit MAP_ANONYMOUS. */
    static predicate Anonymous(flags: nat) { flags / 32 % 2 == 1 }

    /** mmap, anonymous only: the next pages of the bump region, zeroed. A negative result is an error. */
    method SysMmap(len: nat, prot: nat, flags: nat) returns (ok: bool, r: int)
      requires Valid() && mmapNext + PageUp(len) <= STACK_BASE
      modifies this`mmapNext, mmu`ram, mmu`tree, mmu.pmm, mmu.pmm.bitmap
      ensures ok ==> Valid()
      ensures !Anonymous(flags) ==> ok && r == -19
      ensures Anonymous(flags) && len == 0 ==> ok && r == -22
      ensures Anonymous(flags) && len > 0 ==>
        mmu.Buys(ok, RunChains(Space(cr3), old(mmapNext) / PAGE_SIZE, (old(mmapNext) + PageUp(len)) / PAGE_SIZE))
      ensures !Anonymous(flags) || len == 0 ==> mmu.tree == old(mmu.tree) && mmu.ram == old(mmu.ram) && mmapNext == old(mmapNext)
      ensures ok && Anonymous(flags) && len > 0 ==>
        && r == old(mmapNext) && mmapNext == old(mmapNext) + PageUp(len)
        && PageOp(mmu, cr3, old(mmapNext) / PAGE_SIZE, mmapNext / PAGE_SIZE)
        && ZeroRun(mmu.ram, mmu.tree, cr3, old(mmapNext) / PAGE_SIZE, mmapNext / PAGE_SIZE, ProtFlags(prot))
        && Grants(mmu.ram, cr3, old(mmapNext) / PAGE_SIZE, mmapNext / PAGE_SIZE, prot / 2 % 2 == 1, prot / 4 % 2 == 1)
    {
      hide Inv, Granting, Mmu.Valid, TreeWalk, Num, KeptExcept, Private, PageOf, OtherRoles, ZeroPage, RunChains, Bought;
      if flags / 32 % 2 == 0 { return true, -ENODEV; }
      if len == 0 { return true, -EINVAL; }
      ghost var ram0, t0 := mmu.ram, mmu.tree;
      var mapLen := PageUp(len);
      var base := mmapNext;
      mmapNext := base + mapLen;
      r := base;
      ghost var lo, hi := base / PAGE_SIZE, mmapNext / PAGE_SIZE;
      MmapPages(base, len);
      ActiveGood(mmu, cr3);
      UpperIsPrivate(lo, hi);
      ok := MapRun(mmu, base / PAGE_SIZE, (base + mapLen) / PAGE_SIZE, ProtFlags(prot), cr3);
      if !ok { return; }
      ActiveGood(mmu, cr3);
      ZeroGrants(mmu.ram, mmu.tree, cr3, lo, hi, ProtFlags(prot), prot / 2 % 2 == 1, prot / 4 % 2 == 1);
      StillUnmapped(ram0, t0, mmu.ram, mmu.tree, cr3, lo, hi, hi, STACK_BASE / PAGE_SIZE);
      StillUnmapped(ram0, t0, mmu.ram, mmu.tree, cr3, lo, hi, PageUp(brkCur) / PAGE_SIZE, BRK_CEILING / PAGE_SIZE);
    }

    /** munmap over private pages: unmap and free every page the range touches. */
    method SysMunmap(addr: nat, len: nat) returns (ok: bool)
      requires Valid() && PrivateRun(addr / PAGE_SIZE, PageUp(addr + len) / PAGE_SIZE)
      modifies mmu`ram, mmu`tree, mmu.pmm, mmu.pmm.bitmap
      ensures ok ==> Valid()
      ensures ok ==> PageOp(mmu, cr3, addr / PAGE_SIZE, PageUp(addr + len) / PAGE_SIZE)
      ensures ok ==> Unmapped(mmu.tree, cr3, addr / PAGE_SIZE, PageUp(addr + len) / PAGE_SIZE)
      ensures ok
    {
      hide Inv, Granting, Mmu.Valid, TreeWalk, Num, KeptExcept, Private, PageOf, OtherRoles;
      ghost var ram0, t0 := mmu.ram, mmu.tree;
      var lo, hi := PageDown(addr) / PAGE_SIZE, PageUp(addr + len) / PAGE_SIZE;
      RangePages(addr, len);
      ActiveGood(mmu, cr3);
      ok := UnmapRun(mmu, lo, hi, cr3);
      ActiveGood(mmu, cr3);
      StillUnmappedAfter(ram0, t0, mmu.ram, mmu.tree, cr3, lo, hi, PageUp(brkCur) / PAGE_SIZE, BRK_CEILING / PAGE_SIZE);
      StillUnmappedAfter(ram0, t0, mmu.ram, mmu.tree, cr3, lo, hi, mmapNext / PAGE_SIZE, STACK_BASE / PAGE_SIZE);
    }

    /** mprotect over private pages: mapped pages keep frame and contents under new permissions,
        unmapped ones stay unmapped. */
    method SysMprotect(addr: nat, len: nat, prot: nat) returns (ok: bool)
      requires Valid() && PrivateRun(addr / PAGE_SIZE, PageUp(addr + len) / PAGE_SIZE)
      modifies mmu`ram, mmu`tree, mmu.pmm, mmu.pmm.bitmap
      ensures ok ==> Valid()
      ensures ok ==> PageOp(mmu, cr3, addr / PAGE_SIZE, PageUp(addr + len) / PAGE_SIZE)
      ensures ok ==> ReflaggedRun(old(mmu.ram), old(mmu.tree), mmu.ram, mmu.tree, cr3,
                                  addr / PAGE_SIZE, PageUp(addr + len) / PAGE_SIZE, ProtFlags(prot))
      ensures Regrants(old(mmu.ram), mmu.ram, cr3, addr / PAGE_SIZE, PageUp(addr + len) / PAGE_SIZE, prot / 2 % 2 == 1, prot / 4 % 2 == 1)
      ensures ok
    {
      hide Inv, Granting, Mmu.Valid, TreeWalk, Num, KeptExcept, Private, PageOf, OtherRoles, Reflagged;
      ghost var ram0, t0 := mmu.ram, mmu.tree;
      var lo, hi := PageDown(addr) / PAGE_SIZE, PageUp(addr + len) / PAGE_SIZE;
      RangePages(addr, len);
      ActiveGood(mmu, cr3);
      ok := ProtectRun(mmu, lo, hi, ProtFlags(prot), cr3);
      ActiveGood(mmu, cr3);
      RunRegrants(ram0, t0, mmu.ram, mmu.tree, cr3, lo, hi, ProtFlags(prot), prot / 2 % 2 == 1, prot / 4 % 2 == 1);
      StillUnmappedReflag(ram0, t0, mmu.ram, mmu.tree, cr3, lo, hi, ProtFlags(prot), PageUp(brkCur) / PAGE_SIZE, BRK_CEILING / PAGE_SIZE);
      StillUnmappedReflag(ram0, t0, mmu.ram, mmu.tree, cr3, lo, hi, ProtFlags(prot), mmapNext / PAGE_SIZE, STACK_BASE / PAGE_SIZE);
    }
  }


  lemma Pages(x: nat)
    ensures WINDOW_BASE <= x <= BRK_CEILING ==> WINDOW_BASE / PAGE_SIZE <= PageUp(x) / PAGE_SIZE <= BRK_CEILING / PAGE_SIZE
  {
    DownRounding(x + PAGE_SIZE - 1, 0);
  }

  lemma MmapPages(base: nat, len: nat)
    requires base % PAGE_SIZE == 0 && MMAP_BASE <= base && base + PageUp(len) <= STACK_BASE
    ensures (base + PageUp(len)) % PAGE_SIZE == 0
    ensures MMAP_BASE / PAGE_SIZE <= base / PAGE_SIZE <= (base + PageUp(len)) / PAGE_SIZE <= STACK_BASE / PAGE_SIZE <= STACK_TOP / PAGE_SIZE
  {
    DownRounding(len + PAGE_SIZE - 1, 0);
  }

  lemma RangePages(addr: nat, len: nat)
    ensures PageDown(addr) / PAGE_SIZE == addr / PAGE_SIZE <= PageUp(addr + len) / PAGE_SIZE
  {
  }

  /** Pages outside the edited run that were unmapped stay so. */
  lemma StillUnmapped(ram: Ram, t: Tree, ram': Ram, t': Tree, s: nat, lo: nat, hi: nat, from: nat, to: nat)
    requires Good(ram, t) && Good(ram', t') && KeptExcept(ram, t, ram', t', s, lo, hi)
    requires forall n: nat {:trigger PageOf(n)} | from <= n < to :: Leaf(Space(s), PageOf(n)) !in t.at
    requires to <= 0x10_0000_0000 && (hi <= from || to <= lo)
    ensures Unmapped(t', s, from, to)
  {
    hide Inv, Granting, Num, PageOf, TreeWalk, Private;
    forall n: nat | from <= n < to ensures Leaf(Space(s), PageOf(n)) !in t'.at {
      StillUnmappedPage(ram, t, ram', t', s, lo, hi, n);
    }
  }

  lemma StillUnmappedPage(ram: Ram, t: Tree, ram': Ram, t': Tree, s: nat, lo: nat, hi: nat, n: nat)
    requires Good(ram, t) && Good(ram', t') && KeptExcept(ram, t, ram', t', s, lo, hi)
    requires n < 0x10_0000_0000 && !(lo <= n < hi) && Leaf(Space(s), PageOf(n)) !in t.at
    ensures Leaf(Space(s), PageOf(n)) !in t'.at
  {
    var pg := PageOf(n);
    NumOfPage(n);
    hide Inv, Granting, Num, PageOf, TreeWalk;
    AllOwn(ram', t');
    if Own(Leaf(Space(s), pg)) {
      MappedFrame(ram', t', Space(s), pg);
      MappedFrame(ram, t, Space(s), pg);
      assert PageKept(ram, t, ram', t', Space(s), pg);
    }
  }

  lemma AllOwn(ram: Ram, t: Tree)
    requires Inv(ram, t)
    ensures forall p {:trigger p in t.at} | p in t.at :: Own(p)
  {
  }

  /** After an unmapping run, pages unmapped before stay so inside the run too. */
  lemma StillUnmappedAfter(ram: Ram, t: Tree, ram': Ram, t': Tree, s: nat, lo: nat, hi: nat, from: nat, to: nat)
    requires Good(ram, t) && Good(ram', t') && KeptExcept(ram, t, ram', t', s, lo, hi) && Unmapped(t', s, lo, hi)
    requires to <= 0x10_0000_0000 && Unmapped(t, s, from, to)
    ensures Unmapped(t', s, from, to)
  {
    hide Inv, Granting, Num, PageOf, TreeWalk, Private;
    forall n: nat | from <= n < to ensures Leaf(Space(s), PageOf(n)) !in t'.at {
      if !(lo <= n < hi) { StillUnmappedPage(ram, t, ram', t', s, lo, hi, n); }
    }
  }

  lemma StillUnmappedReflag(ram: Ram, t: Tree, ram': Ram, t': Tree, s: nat, lo: nat, hi: nat, fl: Flags, from: nat, to: nat)
    requires Good(ram, t) && Good(ram', t') && KeptExcept(ram, t, ram', t', s, lo, hi) && ReflaggedRun(ram, t, ram', t', s, lo, hi, fl)
    requires to <= 0x10_0000_0000 && Unmapped(t, s, from, to)
    ensures Unmapped(t', s, from, to)
  {
    hide Inv, Granting, Num, PageOf, TreeWalk, Private;
    AllOwn(ram', t');
    forall n: nat | from <= n < to ensures Leaf(Space(s), PageOf(n)) !in t'.at {
      if !(lo <= n < hi) {
        StillUnmappedPage(ram, t, ram', t', s, lo, hi, n);
      } else if Own(Leaf(Space(s), PageOf(n))) {
        MappedFrame(ram, t, Space(s), PageOf(n));
        MappedFrame(ram', t', Space(s), PageOf(n));
        assert Reflagged(ram, t, ram', t', s, PageOf(n), fl);
      }
    }
  }
}
