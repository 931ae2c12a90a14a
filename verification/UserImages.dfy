/** Putting a program image into the active space: whole pages, and blocks of words that may cross
    page boundaries. */
module UserImages {
  import opened Options
  import opened Machine
  import opened FrameBitmap
  import opened PageTables
  import opened PageTableSteps
  import opened SpaceSteps
  import opened MappingSteps
  import opened CloneSteps
  import opened FramePrices
  import opened AddressSpaces
  import opened PageRanges
  import opened ProcessMemory
  import opened SpaceLifetimes

  // ---- whole pages ----

  /** Page pg of s is mapped with flags fl and holds `words`. */
  ghost predicate ImagePage(ram: Ram, t: Tree, s: nat, pg: Page, fl: Flags, words: Table)
    requires Inv(ram, t)
  {
    && TreeWalk(ram, t, Space(s), pg).Some?
    && TreeWalk(ram, t, Space(s), pg).value.fl == fl
    && Load(ram, TreeWalk(ram, t, Space(s), pg).value.frame) == words
  }

  /** Write n words into a frame from word `off` on. */
  method CopyChunk(m: Mmu, f: nat, off: nat, words: seq<Entry>)
    requires f < |m.ram| && off + |words| <= 512
    modifies m`ram
    ensures OnlyFrame(old(m.ram), m.ram, f)
    ensures forall k: Index :: m.ram[f][k] == if off <= k < off + |words| then words[k - off] else old(m.ram)[f][k]
  {
    var i := 0;
    while i < |words|
      invariant 0 <= i <= |words| && OnlyFrame(old(m.ram), m.ram, f)
      invariant forall k: Index :: m.ram[f][k] == if off <= k < off + i then words[k - off] else old(m.ram)[f][k]
    {
      m.ram := Store(m.ram, f, off + i, words[i]);
      i := i + 1;
    }
  }

  /** Write part of a mapped page of the active space. */
  method FillPage(m: Mmu, pg: Page, f: nat, off: nat, words: seq<Entry>, ghost s: nat)
    requires Active(m, s) && Leaf(Space(s), pg) in m.tree.at && m.tree.at[Leaf(Space(s), pg)] == f < |m.ram|
    requires off + |words| <= 512
    modifies m`ram
    ensures PageOp(m, s, Num(pg), Num(pg) + 1)
    ensures TreeWalk(m.ram, m.tree, Space(s), pg) == old(TreeWalk(m.ram, m.tree, Space(s), pg))
    ensures |m.ram| == |old(m.ram)|
    ensures forall k: Index :: m.ram[f][k] == if off <= k < off + |words| then words[k - off] else old(m.ram)[f][k]
  {
    hide Linked, Shared, Granting, Pmm.Valid, TreeWalk, Num;
    ghost var ram1 := m.ram;
    LeafIsNoTable(ram1, m.tree, Space(s), pg);
    CopyChunk(m, f, off, words);
    WriteData(ram1, m.tree, m.ram, f);
    FillKeeps(ram1, m.tree, m.ram, s, pg, f);
    LeafOwned(m.tree, Space(s), pg);
    SameOn(ram1, m.tree, m.ram, m.tree, Space(s), pg);
  }

  /** The body of the segment loader's loop: a fresh zeroed frame, mapped and filled. */
  method LoadPage(m: Mmu, pg: Page, fl: Flags, words: Table, ghost s: nat) returns (ok: bool)
    requires Active(m, s) && Private(pg) && Leaf(Space(s), pg) !in m.tree.at && fl.present && !fl.huge
    modifies m`ram, m`tree, m.pmm, m.pmm.bitmap
    ensures ok ==> PageOp(m, s, Num(pg), Num(pg) + 1) && ImagePage(m.ram, m.tree, s, pg, fl, words)
    ensures ok ==> m.pmm.released == old(m.pmm.released)
    ensures m.Buys(ok, Chain(Space(s), pg))
  {
    hide Inv, Granting, Mmu.Valid, TreeWalk, Num, KeptExcept, Private, OtherRoles, Chain, Bought;
    ghost var ram0, t0 := m.ram, m.tree;
    ActiveGood(m, s);
    var frame;
    ok, frame := MapZeroed(m, pg, fl, s);
    if !ok { return; }
    ghost var ram1, t1 := m.ram, m.tree;
    ActiveGood(m, s);
    OwnLeaf(s, pg);
    LeafFrameOf(ram1, t1, Space(s), pg);
    ghost var f := TreeWalk(ram1, t1, Space(s), pg).value.frame;
    var phys := m.VirtToPhys(pg, 0);
    ActivePhys(m, s, pg, phys);
    FillPage(m, pg, phys / PAGE_SIZE, 0, words, s);
    ActiveGood(m, s);
    OtherRolesTrans(t0, t1, m.tree, s);
    KeptTwice(ram0, t0, ram1, t1, m.ram, m.tree, s, Num(pg), Num(pg) + 1);
    assert m.ram[f] == words;
  }

  lemma OwnLeaf(s: nat, pg: Page)
    requires Private(pg)
    ensures Own(Leaf(Space(s), pg))
  {
    TrackedIsPrivate(s, pg);
  }

  /** virt_to_phys of a mapped private page of the active space finds its frame. */
  lemma ActivePhys(m: Mmu, s: nat, pg: Page, phys: nat)
    requires Active(m, s) && Private(pg) && TreeWalk(m.ram, m.tree, Space(s), pg).Some?
    requires phys ==
      match Walk(m.ram, m.cr3, pg)
      case None => 0
      case Some(e) => e.frame * PAGE_SIZE
    ensures phys / PAGE_SIZE == TreeWalk(m.ram, m.tree, Space(s), pg).value.frame
  {
    hide Linked, Shared, Granting, Pmm.Valid, TreeWalk, Walk;
    TrackedIsPrivate(s, pg);
    WalkIsTreeWalk(m.ram, m.tree, Space(s), pg);
    assert m.tree.at[Root(Space(s))] == s;
  }

  // ---- segments ----

  /** One loaded segment: its first page number, flags, and the contents of its pages. */
  datatype Piece = Piece(lo: nat, fl: Flags, pages: seq<Table>) {
    function Hi(): nat { lo + |pages| }
  }

  /** No page belongs to two pieces, and every page is private. */
  ghost predicate Plan(plan: seq<Piece>) {
    && (forall i {:trigger plan[i]} | 0 <= i < |plan| :: PrivateRun(plan[i].lo, plan[i].Hi()) && plan[i].fl.present && !plan[i].fl.huge)
    && (forall i, j {:trigger plan[i], plan[j]} | 0 <= i < j < |plan| :: plan[i].Hi() <= plan[j].lo || plan[j].Hi() <= plan[i].lo)
  }

  ghost predicate Covered(plan: seq<Piece>, n: nat) {
    exists i {:trigger plan[i]} :: 0 <= i < |plan| && plan[i].lo <= n < plan[i].Hi()
  }

  ghost predicate PieceLoaded(ram: Ram, t: Tree, s: nat, piece: Piece, count: nat)
    requires Inv(ram, t) && count <= |piece.pages|
  {
    forall n: nat {:trigger PageOf(n)} | piece.lo <= n < piece.lo + count :: ImagePage(ram, t, s, PageOf(n), piece.fl, piece.pages[n - piece.lo])
  }

  /** Loaded pages outside an edited run stay. */
  lemma PieceStays(ram: Ram, t: Tree, ram': Ram, t': Tree, s: nat, piece: Piece, count: nat, lo: nat, hi: nat)
    requires Inv(ram, t) && Inv(ram', t') && count <= |piece.pages| && PrivateRun(piece.lo, piece.Hi())
    requires PieceLoaded(ram, t, s, piece, count) && KeptExcept(ram, t, ram', t', s, lo, hi)
    requires piece.lo + count <= lo || hi <= piece.lo
    ensures PieceLoaded(ram', t', s, piece, count)
  {
    hide Inv, Num, PageOf, Private, TreeWalk;
    forall n: nat | piece.lo <= n < piece.lo + count ensures ImagePage(ram', t', s, PageOf(n), piece.fl, piece.pages[n - piece.lo]) {
      NumOfPage(n);
      TrackedIsPrivate(s, PageOf(n));
      assert PageKept(ram, t, ram', t', Space(s), PageOf(n));
    }
  }

  lemma LoadedNext(ram: Ram, t: Tree, s: nat, piece: Piece, i: nat)
    requires Inv(ram, t) && i < |piece.pages| && PieceLoaded(ram, t, s, piece, i)
    requires ImagePage(ram, t, s, PageOf(piece.lo + i), piece.fl, piece.pages[i])
    ensures PieceLoaded(ram, t, s, piece, i + 1)
  {
    hide Inv, PageOf, ImagePage;
  }

  lemma LoadedNone(ram: Ram, t: Tree, s: nat, piece: Piece)
    requires Inv(ram, t)
    ensures PieceLoaded(ram, t, s, piece, 0)
  {
  }

  lemma FirstUnmapped(t: Tree, s: nat, n: nat, hi: nat)
    requires Unmapped(t, s, n, hi) && n < hi && PrivateRun(n, hi)
    ensures Leaf(Space(s), PageOf(n)) !in t.at && Private(PageOf(n))
  {
  }

  /** load_segment: the pages of one piece, in order. */
  method LoadPiece(m: Mmu, piece: Piece, ghost s: nat) returns (ok: bool)
    requires Active(m, s) && PrivateRun(piece.lo, piece.Hi()) && piece.fl.present && !piece.fl.huge
    requires Unmapped(m.tree, s, piece.lo, piece.Hi())
    modifies m`ram, m`tree, m.pmm, m.pmm.bitmap
    ensures ok ==> PageOp(m, s, piece.lo, piece.Hi()) && PieceLoaded(m.ram, m.tree, s, piece, |piece.pages|)
    ensures ok ==> m.pmm.released == old(m.pmm.released)
    ensures m.Buys(ok, RunChains(Space(s), piece.lo, piece.Hi()))
  {
    hide Inv, Granting, Mmu.Valid, TreeWalk, Num, KeptExcept, Private, PageOf, ImagePage, Chain, RunChains, Bought, Unmapped, PieceLoaded;
    ghost var ram0, t0 := m.ram, m.tree;
    ActiveGood(m, s);
    KeptRefl(m.ram, m.tree, s, piece.lo);
    ghost var k0, n0 := t0.at.Keys, |m.pmm.free|;
    RunNone(k0, n0, Space(s), piece.lo);
    LoadedNone(m.ram, m.tree, s, piece);
    var i := 0;
    while i < |piece.pages|
      invariant Bought(k0, n0, m.tree.at.Keys, |m.pmm.free|, RunChains(Space(s), piece.lo, piece.lo + i))
      invariant 0 <= i <= |piece.pages| && PageOp(m, s, piece.lo, piece.lo + i) && m.pmm.released == old(m.pmm.released)
      invariant Good(m.ram, m.tree) && PieceLoaded(m.ram, m.tree, s, piece, i) && Unmapped(m.tree, s, piece.lo + i, piece.Hi())
    {
      ghost var ram1, t1 := m.ram, m.tree;
      ghost var n := piece.lo + i;
      NumOfPage(n);
      FirstUnmapped(t1, s, n, piece.Hi());
      ghost var n1 := |m.pmm.free|;
      ok := LoadPage(m, PageOf(piece.lo + i), piece.fl, piece.pages[i], s);
      RunOn(k0, n0, t1.at.Keys, n1, m.tree.at.Keys, |m.pmm.free|, ok, Space(s), piece.lo, n, piece.Hi());
      if !ok { return; }
      ActiveGood(m, s);
      KeptExceptTrans(ram0, t0, ram1, t1, m.ram, m.tree, s, piece.lo, n, n + 1);
      PieceStays(ram1, t1, m.ram, m.tree, s, piece, i, n, n + 1);
      LoadedNext(m.ram, m.tree, s, piece, i);
      UnmappedStays(ram1, t1, m.ram, m.tree, s, n, piece.Hi());
      i := i + 1;
    }
    Afforded(k0, n0, m.tree.at.Keys, |m.pmm.free|, RunChains(Space(s), piece.lo, piece.Hi()));
    ok := true;
  }

  /** Space s maps no private page outside the first `count` pieces. */
  ghost predicate OnlyCovered(t: Tree, s: nat, plan: seq<Piece>, count: nat)
    requires count <= |plan|
  {
    forall n: nat {:trigger PageOf(n)} | n < 0x10_0000_0000 && Private(PageOf(n)) && !Covered(plan[..count], n) :: Leaf(Space(s), PageOf(n)) !in t.at
  }

  lemma CoveredNext(plan: seq<Piece>, i: nat, n: nat)
    requires i < |plan|
    ensures Covered(plan[..i + 1], n) <==> Covered(plan[..i], n) || plan[i].lo <= n < plan[i].Hi()
  {
    if Covered(plan[..i], n) {
      var k :| 0 <= k < i && plan[..i][k].lo <= n < plan[..i][k].Hi();
      assert plan[..i + 1][k] == plan[..i][k];
    }
    if plan[i].lo <= n < plan[i].Hi() { assert plan[..i + 1][i] == plan[i]; }
    if Covered(plan[..i + 1], n) && !(plan[i].lo <= n < plan[i].Hi()) {
      var k :| 0 <= k <= i && plan[..i + 1][k].lo <= n < plan[..i + 1][k].Hi();
      assert plan[..i][k] == plan[..i + 1][k];
    }
  }

  lemma CoverageGrows(ram: Ram, t: Tree, ram': Ram, t': Tree, s: nat, plan: seq<Piece>, i: nat)
    requires Good(ram, t) && Good(ram', t') && i < |plan|
    requires OnlyCovered(t, s, plan, i) && KeptExcept(ram, t, ram', t', s, plan[i].lo, plan[i].Hi())
    ensures OnlyCovered(t', s, plan, i + 1)
  {
    hide Inv, Granting, Num, PageOf, TreeWalk, Private, KeptExcept, Covered;
    forall n: nat | n < 0x10_0000_0000 && Private(PageOf(n)) && !Covered(plan[..i + 1], n) ensures Leaf(Space(s), PageOf(n)) !in t'.at {
      CoveredNext(plan, i, n);
      StillUnmappedPage(ram, t, ram', t', s, plan[i].lo, plan[i].Hi(), n);
    }
  }

  /** The pages of a piece are not covered by the ones before it. */
  lemma NextUnmapped(t: Tree, s: nat, plan: seq<Piece>, i: nat)
    requires i < |plan| && Plan(plan) && OnlyCovered(t, s, plan, i)
    ensures Unmapped(t, s, plan[i].lo, plan[i].Hi())
  {
    hide PageOf, Private;
    forall n: nat | plan[i].lo <= n < plan[i].Hi() ensures Leaf(Space(s), PageOf(n)) !in t.at {
      assert Private(PageOf(n));
      forall k | 0 <= k < i ensures !(plan[..i][k].lo <= n < plan[..i][k].Hi()) {
        assert plan[..i][k] == plan[k];
      }
      assert !Covered(plan[..i], n);
    }
  }

  ghost predicate FirstLoaded(ram: Ram, t: Tree, s: nat, plan: seq<Piece>, count: nat)
    requires Inv(ram, t) && count <= |plan|
  {
    forall k {:trigger plan[k]} | 0 <= k < count :: PieceLoaded(ram, t, s, plan[k], |plan[k].pages|)
  }

  lemma EarlierStay(ram: Ram, t: Tree, ram': Ram, t': Tree, s: nat, plan: seq<Piece>, i: nat)
    requires Inv(ram, t) && Inv(ram', t') && Plan(plan) && i < |plan| && FirstLoaded(ram, t, s, plan, i)
    requires KeptExcept(ram, t, ram', t', s, plan[i].lo, plan[i].Hi())
    requires PieceLoaded(ram', t', s, plan[i], |plan[i].pages|)
    ensures FirstLoaded(ram', t', s, plan, i + 1)
  {
    hide Inv, PrivateRun, PieceLoaded, KeptExcept;
    forall k | 0 <= k < i + 1 ensures PieceLoaded(ram', t', s, plan[k], |plan[k].pages|) {
      if k < i {
        assert plan[k].Hi() <= plan[i].lo || plan[i].Hi() <= plan[k].lo;
        PieceStays(ram, t, ram', t', s, plan[k], |plan[k].pages|, plan[i].lo, plan[i].Hi());
      }
    }
  }

  /** All pieces of an image, in order. */
  method LoadPlan(m: Mmu, plan: seq<Piece>, ghost s: nat) returns (ok: bool)
    requires Active(m, s) && Plan(plan) && OnlyCovered(m.tree, s, plan, 0)
    modifies m`ram, m`tree, m.pmm, m.pmm.bitmap
    ensures ok ==> Active(m, s) && m.pmm.pool == old(m.pmm.pool) && m.pmm.released == old(m.pmm.released)
    ensures ok ==> Step(old(Now(m)), Now(m), {Space(s)}, m.fixed)
    ensures ok ==> FirstLoaded(m.ram, m.tree, s, plan, |plan|) && OnlyCovered(m.tree, s, plan, |plan|)
    ensures m.Buys(ok, PlanChains(Space(s), plan, |plan|))
  {
    hide Inv, Granting, Mmu.Valid, TreeWalk, Num, KeptExcept, PrivateRun, PieceLoaded, Step, OnlyCovered, OtherRoles, PlanChains, RunChains, Bought;
    ghost var a := Now(m);
    ValidIsSound(m);
    ActiveGood(m, s);
    StepRefl(a, {Space(s)}, m.fixed);
    ghost var k0, n0 := m.tree.at.Keys, |m.pmm.free|;
    PlanNone(k0, n0, Space(s), plan);
    var i := 0;
    while i < |plan|
      invariant 0 <= i <= |plan| && Bought(k0, n0, m.tree.at.Keys, |m.pmm.free|, PlanChains(Space(s), plan, i))
      invariant 0 <= i <= |plan| && Active(m, s) && m.pmm.pool == old(m.pmm.pool) && m.pmm.released == old(m.pmm.released)
      invariant Good(m.ram, m.tree) && Step(a, Now(m), {Space(s)}, m.fixed)
      invariant FirstLoaded(m.ram, m.tree, s, plan, i) && OnlyCovered(m.tree, s, plan, i)
    {
      ghost var b, n1 := Now(m), |m.pmm.free|;
      ok := LoadNext(m, plan, i, s);
      PlanOn(k0, n0, b.tree.at.Keys, n1, m.tree.at.Keys, |m.pmm.free|, ok, Space(s), plan, i);
      if !ok { return; }
      StepTrans(a, b, Now(m), {Space(s)}, m.fixed);
      i := i + 1;
    }
    Afforded(k0, n0, m.tree.at.Keys, |m.pmm.free|, PlanChains(Space(s), plan, |plan|));
    ok := true;
  }

  /** The positions behind the pages of the first pieces of a plan. */
  ghost function PlanChains(o: Owner, plan: seq<Piece>, count: nat): set<Path>
    requires count <= |plan|
  {
    if count == 0 then {} else PlanChains(o, plan, count - 1) + RunChains(o, plan[count - 1].lo, plan[count - 1].Hi())
  }

  lemma PlanNone(k: set<Path>, n: nat, o: Owner, plan: seq<Piece>)
    ensures Bought(k, n, k, n, PlanChains(o, plan, 0))
  {
    BoughtNothing(k, n);
  }

  lemma {:induction false} PlanGrows(o: Owner, plan: seq<Piece>, i: nat, j: nat)
    requires i <= j <= |plan|
    ensures PlanChains(o, plan, i) <= PlanChains(o, plan, j)
    decreases j
  {
    hide RunChains;
    if i < j { PlanGrows(o, plan, i, j - 1); }
  }

  /** One piece more of a plan, or its failure. */
  lemma PlanOn(k0: set<Path>, n0: int, k1: set<Path>, n1: int, k2: set<Path>, n2: int, ok: bool, o: Owner, plan: seq<Piece>, i: nat)
    requires i < |plan| && Bought(k0, n0, k1, n1, PlanChains(o, plan, i))
    requires ok <==> n1 >= |RunChains(o, plan[i].lo, plan[i].Hi()) - k1|
    requires ok ==> Bought(k1, n1, k2, n2, RunChains(o, plan[i].lo, plan[i].Hi()))
    ensures ok ==> Bought(k0, n0, k2, n2, PlanChains(o, plan, i + 1))
    ensures !ok ==> n0 < |PlanChains(o, plan, |plan|) - k0|
  {
    hide RunChains, Bought;
    var f, g := PlanChains(o, plan, i), RunChains(o, plan[i].lo, plan[i].Hi());
    assert PlanChains(o, plan, i + 1) == f + g;
    if ok {
      BoughtThen(k0, n0, k1, n1, k2, n2, f, g);
    } else {
      PlanGrows(o, plan, i + 1, |plan|);
      Short(k0, n0, k1, n1, f, g, PlanChains(o, plan, |plan|));
    }
  }

  method LoadNext(m: Mmu, plan: seq<Piece>, i: nat, ghost s: nat) returns (ok: bool)
    requires Active(m, s) && Plan(plan) && i < |plan| && Good(m.ram, m.tree)
    requires FirstLoaded(m.ram, m.tree, s, plan, i) && OnlyCovered(m.tree, s, plan, i)
    modifies m`ram, m`tree, m.pmm, m.pmm.bitmap
    ensures ok ==> Active(m, s) && m.pmm.pool == old(m.pmm.pool) && m.pmm.released == old(m.pmm.released)
    ensures ok ==> Good(m.ram, m.tree) && Step(old(Now(m)), Now(m), {Space(s)}, m.fixed)
    ensures ok ==> FirstLoaded(m.ram, m.tree, s, plan, i + 1) && OnlyCovered(m.tree, s, plan, i + 1)
    ensures m.Buys(ok, RunChains(Space(s), plan[i].lo, plan[i].Hi()))
  {
    hide Inv, Granting, Mmu.Valid, TreeWalk, Num, KeptExcept, PrivateRun, PieceLoaded, Step, OnlyCovered, OtherRoles, FirstLoaded, RunChains, Bought;
    ghost var ram0, t0, a := m.ram, m.tree, Now(m);
    ValidIsSound(m);
    NextUnmapped(t0, s, plan, i);
    ok := LoadPiece(m, plan[i], s);
    if !ok { return; }
    ActiveGood(m, s);
    ValidIsSound(m);
    EditIsStep(a, Now(m), s, plan[i].lo, plan[i].Hi(), m.fixed);
    EarlierStay(ram0, t0, m.ram, m.tree, s, plan, i);
    CoverageGrows(ram0, t0, m.ram, m.tree, s, plan, i);
  }

  // ---- the stack ----

  ghost predicate MappedRun(ram: Ram, t: Tree, s: nat, lo: nat, hi: nat, fl: Flags)
    requires Inv(ram, t)
  {
    forall n: nat {:trigger PageOf(n)} | lo <= n < hi ::
      TreeWalk(ram, t, Space(s), PageOf(n)).Some? && TreeWalk(ram, t, Space(s), PageOf(n)).value.fl == fl
  }

  lemma MappedMore(ram: Ram, t: Tree, ram': Ram, t': Tree, s: nat, lo: nat, n: nat, fl: Flags)
    requires Inv(ram, t) && Inv(ram', t') && PrivateRun(lo, n + 1) && lo <= n
    requires MappedRun(ram, t, s, lo, n, fl) && KeptExcept(ram, t, ram', t', s, n, n + 1)
    requires TreeWalk(ram', t', Space(s), PageOf(n)).Some? && TreeWalk(ram', t', Space(s), PageOf(n)).value.fl == fl
    ensures MappedRun(ram', t', s, lo, n + 1, fl)
  {
    hide Inv, Num, PageOf, Private, TreeWalk;
    forall j: nat | lo <= j < n + 1
      ensures TreeWalk(ram', t', Space(s), PageOf(j)).Some? && TreeWalk(ram', t', Space(s), PageOf(j)).value.fl == fl
    {
      if j < n {
        NumOfPage(j);
        TrackedIsPrivate(s, PageOf(j));
        assert PageKept(ram, t, ram', t', Space(s), PageOf(j));
      }
    }
  }

  /** Fresh pages for the stack, left as the allocator hands them out. */
  method MapStack(m: Mmu, lo: nat, hi: nat, fl: Flags, ghost s: nat) returns (ok: bool)
    requires Active(m, s) && lo <= hi && PrivateRun(lo, hi) && fl.present && !fl.huge && Unmapped(m.tree, s, lo, hi)
    modifies m`ram, m`tree, m.pmm, m.pmm.bitmap
    ensures ok ==> PageOp(m, s, lo, hi) && MappedRun(m.ram, m.tree, s, lo, hi, fl) && m.pmm.released == old(m.pmm.released)
    ensures m.Buys(ok, RunChains(Space(s), lo, hi))
  {
    hide Inv, Granting, Mmu.Valid, TreeWalk, Num, KeptExcept, Private, PageOf, Chain, RunChains, Bought;
    ghost var ram0, t0 := m.ram, m.tree;
    ActiveGood(m, s);
    KeptRefl(m.ram, m.tree, s, lo);
    ghost var k0, n0 := t0.at.Keys, |m.pmm.free|;
    RunNone(k0, n0, Space(s), lo);
    var n := lo;
    while n < hi
      invariant Bought(k0, n0, m.tree.at.Keys, |m.pmm.free|, RunChains(Space(s), lo, n))
      invariant lo <= n <= hi && PageOp(m, s, lo, n) && m.pmm.released == old(m.pmm.released)
      invariant Good(m.ram, m.tree) && MappedRun(m.ram, m.tree, s, lo, n, fl) && Unmapped(m.tree, s, n, hi)
    {
      ghost var ram1, t1 := m.ram, m.tree;
      NumOfPage(n);
      var frame;
      ghost var n1 := |m.pmm.free|;
      ok, frame := MapFresh(m, PageOf(n), fl, s);
      RunOn(k0, n0, t1.at.Keys, n1, m.tree.at.Keys, |m.pmm.free|, ok, Space(s), lo, n, hi);
      if !ok { return; }
      ActiveGood(m, s);
      KeptExceptTrans(ram0, t0, ram1, t1, m.ram, m.tree, s, lo, n, n + 1);
      MappedMore(ram1, t1, m.ram, m.tree, s, lo, n, fl);
      UnmappedStays(ram1, t1, m.ram, m.tree, s, n, hi);
      n := n + 1;
    }
    Afforded(k0, n0, m.tree.at.Keys, |m.pmm.free|, RunChains(Space(s), lo, hi));
    ok := true;
  }

  // ---- blocks of words ----

  /** Word n of space s, counting words from address 0. */
  ghost function UserWord(ram: Ram, t: Tree, s: nat, n: nat): Option<Entry>
    requires Inv(ram, t)
  {
    match TreeWalk(ram, t, Space(s), PageOf(n / 512))
    case None => None
    case Some(e) => Some(Load(ram, e.frame)[n % 512])
  }

  /** The words first to first+|words| of pages lo to hi read `words`, the others as before. */
  ghost predicate Written(ram: Ram, t: Tree, ram': Ram, t': Tree, s: nat, lo: nat, hi: nat, first: nat, words: seq<Entry>)
    requires Inv(ram, t) && Inv(ram', t')
  {
    forall n: nat {:trigger UserWord(ram', t', s, n)} | lo <= n / 512 < hi ::
      UserWord(ram', t', s, n) == if first <= n < first + |words| then Some(words[n - first]) else UserWord(ram, t, s, n)
  }

  /** Every page of the run keeps its entry. */
  ghost predicate SameEntries(ram: Ram, t: Tree, ram': Ram, t': Tree, s: nat, lo: nat, hi: nat)
    requires Inv(ram, t) && Inv(ram', t')
  {
    forall n: nat {:trigger PageOf(n)} | lo <= n < hi :: TreeWalk(ram', t', Space(s), PageOf(n)) == TreeWalk(ram, t, Space(s), PageOf(n))
  }

  /** Filling part of page p writes the words that lie there. */
  lemma ChunkWritten(ram: Ram, t: Tree, ram': Ram, s: nat, lo: nat, hi: nat, p: nat, off: nat, words: seq<Entry>)
    requires Inv(ram, t) && Inv(ram', t) && PrivateRun(lo, hi) && lo <= p < hi && off + |words| <= 512
    requires TreeWalk(ram, t, Space(s), PageOf(p)).Some? && TreeWalk(ram', t, Space(s), PageOf(p)) == TreeWalk(ram, t, Space(s), PageOf(p))
    requires var f := TreeWalk(ram, t, Space(s), PageOf(p)).value.frame;
      f < |ram| && forall k: Index :: Load(ram', f)[k] == if off <= k < off + |words| then words[k - off] else Load(ram, f)[k]
    requires KeptExcept(ram, t, ram', t, s, p, p + 1)
    ensures Written(ram, t, ram', t, s, lo, hi, p * 512 + off, words) && SameEntries(ram, t, ram', t, s, lo, hi)
  {
    hide Inv, Num, PageOf, Private, TreeWalk;
    forall n: nat | lo <= n < hi && n != p ensures PageKept(ram, t, ram', t, Space(s), PageOf(n)) {
      NumOfPage(n);
      TrackedIsPrivate(s, PageOf(n));
    }
    forall n: nat | lo <= n / 512 < hi
      ensures UserWord(ram', t, s, n) == if p * 512 + off <= n < p * 512 + off + |words| then Some(words[n - (p * 512 + off)]) else UserWord(ram, t, s, n)
    {
      var q, k := n / 512, n % 512;
      assert n == q * 512 + k;
      if q != p { assert PageKept(ram, t, ram', t, Space(s), PageOf(q)); }
    }
  }

  lemma WrittenThen(ram0: Ram, t: Tree, ram1: Ram, ram2: Ram, s: nat, lo: nat, hi: nat, first: nat, words: seq<Entry>, done: nat, next: nat)
    requires Inv(ram0, t) && Inv(ram1, t) && Inv(ram2, t) && done <= next <= |words|
    requires Written(ram0, t, ram1, t, s, lo, hi, first, words[..done])
    requires Written(ram1, t, ram2, t, s, lo, hi, first + done, words[done..next])
    requires SameEntries(ram0, t, ram1, t, s, lo, hi) && SameEntries(ram1, t, ram2, t, s, lo, hi)
    ensures Written(ram0, t, ram2, t, s, lo, hi, first, words[..next]) && SameEntries(ram0, t, ram2, t, s, lo, hi)
  {
    hide Inv, PageOf, TreeWalk, UserWord;
    forall n: nat | lo <= n / 512 < hi
      ensures UserWord(ram2, t, s, n) == if first <= n < first + next then Some(words[n - first]) else UserWord(ram0, t, s, n)
    {
      assert UserWord(ram1, t, s, n) == if first <= n < first + done then Some(words[n - first]) else UserWord(ram0, t, s, n);
    }
  }

  /** One page's share of a block: translate the page, then copy through the frame. */
  method CopyPart(m: Mmu, p: nat, off: nat, words: seq<Entry>, ghost s: nat, ghost lo: nat, ghost hi: nat)
    requires Active(m, s) && PrivateRun(lo, hi) && lo <= p < hi && off + |words| <= 512
    requires TreeWalk(m.ram, m.tree, Space(s), PageOf(p)).Some?
    modifies m`ram
    ensures PageOp(m, s, p, p + 1) && m.tree == old(m.tree)
    ensures Written(old(m.ram), m.tree, m.ram, m.tree, s, lo, hi, p * 512 + off, words)
    ensures SameEntries(old(m.ram), m.tree, m.ram, m.tree, s, lo, hi)
  {
    hide Inv, Granting, Mmu.Valid, TreeWalk, Num, KeptExcept, Private, PageOf;
    ghost var ram0 := m.ram;
    ActiveGood(m, s);
    NumOfPage(p);
    OwnLeaf(s, PageOf(p));
    LeafFrameOf(m.ram, m.tree, Space(s), PageOf(p));
    var phys := m.VirtToPhys(PageOf(p), 0);
    ActivePhys(m, s, PageOf(p), phys);
    FillPage(m, PageOf(p), phys / PAGE_SIZE, off, words, s);
    ActiveGood(m, s);
    ChunkWritten(ram0, m.tree, m.ram, s, lo, hi, p, off, words);
  }

  /** copy_to_user: page by page, yet the effect is that of one flat copy. */
  method CopyWordsToUser(m: Mmu, first: nat, words: seq<Entry>, ghost s: nat, ghost lo: nat, ghost hi: nat, ghost fl: Flags)
    requires Active(m, s) && PrivateRun(lo, hi) && lo * 512 <= first && first + |words| <= hi * 512
    requires MappedRun(m.ram, m.tree, s, lo, hi, fl)
    modifies m`ram
    ensures PageOp(m, s, lo, hi) && m.tree == old(m.tree) && m.pmm.released == old(m.pmm.released)
    ensures Written(old(m.ram), m.tree, m.ram, m.tree, s, lo, hi, first, words)
    ensures MappedRun(m.ram, m.tree, s, lo, hi, fl)
  {
    hide Inv, Granting, Mmu.Valid, TreeWalk, Num, KeptExcept, Private, PageOf, UserWord;
    ghost var ram0, t := m.ram, m.tree;
    ActiveGood(m, s);
    KeptRefl(ram0, t, s, lo);
    KeptWider(ram0, t, ram0, t, s, lo, hi);
    var done := 0;
    while done < |words|
      invariant 0 <= done <= |words| && m.tree == t
      invariant PageOp(m, s, lo, hi) && Good(m.ram, t)
      invariant Written(ram0, t, m.ram, t, s, lo, hi, first, words[..done]) && SameEntries(ram0, t, m.ram, t, s, lo, hi)
    {
      ghost var ram1 := m.ram;
      var p, off := (first + done) / 512, (first + done) % 512;
      var next := done + (if 512 - off < |words| - done then 512 - off else |words| - done);
      assert TreeWalk(m.ram, t, Space(s), PageOf(p)) == TreeWalk(ram0, t, Space(s), PageOf(p));
      CopyPart(m, p, off, words[done..next], s, lo, hi);
      ActiveGood(m, s);
      KeptInside(ram0, t, ram1, m.ram, s, lo, hi, p);
      WrittenThen(ram0, t, ram1, m.ram, s, lo, hi, first, words, done, next);
      done := next;
    }
    assert words[..|words|] == words;
  }

  lemma KeptInside(ram0: Ram, t: Tree, ram1: Ram, ram2: Ram, s: nat, lo: nat, hi: nat, p: nat)
    requires Inv(ram0, t) && Inv(ram1, t) && Inv(ram2, t) && lo <= p < hi
    requires KeptExcept(ram0, t, ram1, t, s, lo, hi) && KeptExcept(ram1, t, ram2, t, s, p, p + 1)
    ensures KeptExcept(ram0, t, ram2, t, s, lo, hi)
  {
    hide Inv, TreeWalk, Num, Own;
    forall o, pg | Own(Leaf(o, pg)) && !(o == Space(s) && lo <= Num(pg) < hi) ensures PageKept(ram0, t, ram2, t, o, pg) {
      assert PageKept(ram0, t, ram1, t, o, pg);
      assert PageKept(ram1, t, ram2, t, o, pg);
    }
  }
}
