/** The page tables of start-up: slot 0 of the PML4 leads over four directories of 2 MiB entries to the
    first four gigabytes of memory, and slot 384 to the same directories. */
module BootTables {
  import opened Options
  import opened FrameBitmap
  import opened PageTables
  import opened SpaceSteps
  import opened MappingSteps

  /** The frames of the tables inside the kernel image. */
  datatype Image = Image(p4: nat, p3: nat, physmap: nat, pds: seq<nat>) {
    ghost predicate Apart() {
      && |pds| == 4 && p4 != p3 && p4 != physmap && p3 != physmap
      && (forall k {:trigger pds[k]} | 0 <= k < 4 :: pds[k] != p4 && pds[k] != p3 && pds[k] != physmap && 0 < pds[k] < MAX_FRAMES)
      && (forall j, k {:trigger pds[j], pds[k]} | 0 <= j < k < 4 :: pds[j] != pds[k])
      && 0 < p4 < MAX_FRAMES && 0 < p3 < MAX_FRAMES && 0 < physmap < MAX_FRAMES
    }
  }

  const BOOT_LINK := Flags(true, true, false, false, false, 0, 0)
  const BOOT_LARGE := Flags(true, true, false, true, false, 0, 0)

  /** Large entry j of directory k. */
  function LargeEntry(k: nat, j: nat): Entry { Entry((k * 512 + j) * 512, BOOT_LARGE) }

  ghost predicate FilledP4(t: Table, b: Image) {
    forall i: Index :: t[i] == if i == 0 then Entry(b.p3, BOOT_LINK) else if i == PHYSMAP_SLOT then Entry(b.physmap, BOOT_LINK) else ZERO
  }

  ghost predicate FilledP3(t: Table, b: Image)
    requires |b.pds| == 4
  {
    forall i: Index :: t[i] == if i < 4 then Entry(b.pds[i], BOOT_LINK) else ZERO
  }

  ghost predicate FilledPd(t: Table, k: nat) {
    forall j: Index :: t[j] == LargeEntry(k, j)
  }

  /** What set_up_page_tables leaves in memory. */
  ghost predicate Filled(ram: Ram, b: Image) {
    && |ram| == MAX_FRAMES && b.Apart()
    && FilledP4(ram[b.p4], b) && FilledP3(ram[b.p3], b) && FilledP3(ram[b.physmap], b)
    && forall k: nat {:trigger b.pds[k]} | k < 4 :: FilledPd(ram[b.pds[k]], k)
  }

  /** Memory with nothing but these tables in it. */
  ghost function BootRam(b: Image): (ram: Ram)
    requires b.Apart()
    ensures Filled(ram, b)
  {
    seq<Table>(MAX_FRAMES, f requires 0 <= f < MAX_FRAMES => BootTable(b, f))
  }

  function BootTable(b: Image, f: nat): Table
    requires |b.pds| == 4
  {
    if f == b.p4 then seq<Entry>(512, i requires 0 <= i < 512 => if i == 0 then Entry(b.p3, BOOT_LINK) else if i == PHYSMAP_SLOT then Entry(b.physmap, BOOT_LINK) else ZERO)
    else if f == b.p3 || f == b.physmap then seq<Entry>(512, i requires 0 <= i < 512 => if i < 4 then Entry(b.pds[i], BOOT_LINK) else ZERO)
    else if f == b.pds[0] then LargeTable(0) else if f == b.pds[1] then LargeTable(1) else if f == b.pds[2] then LargeTable(2) else if f == b.pds[3] then LargeTable(3)
    else ZeroTable()
  }

  function LargeTable(k: nat): Table { seq<Entry>(512, j requires 0 <= j < 512 => LargeEntry(k, j)) }

  const UPPER := Child(Root(Kernel), 0)

  /** The positions of the tables; the second way to the directories is not owned. */
  predicate BootPath(p: Path) { p == Root(Kernel) || p == UPPER || (p.Child? && p.up == UPPER && p.idx < 4) }

  function BootPaths(): (ps: set<Path>)
    ensures forall p {:trigger p in ps} :: p in ps <==> BootPath(p)
  {
    {Root(Kernel), UPPER, Child(UPPER, 0), Child(UPPER, 1), Child(UPPER, 2), Child(UPPER, 3)}
  }

  function FrameAt(b: Image, p: Path): nat
    requires BootPath(p) && |b.pds| == 4
  {
    if p.Root? then b.p4 else if p == UPPER then b.p3 else b.pds[p.idx]
  }

  function PlaceOf(b: Image, f: nat): Path
    requires |b.pds| == 4
  {
    if f == b.p4 then Root(Kernel) else if f == b.p3 then UPPER
    else if f == b.pds[0] then Child(UPPER, 0) else if f == b.pds[1] then Child(UPPER, 1) else if f == b.pds[2] then Child(UPPER, 2)
    else Child(UPPER, 3)
  }

  lemma PlaceBack(b: Image, p: Path)
    requires b.Apart() && BootPath(p)
    ensures PlaceOf(b, FrameAt(b, p)) == p && 0 < FrameAt(b, p) < MAX_FRAMES
  {
    if p.Child? && p.up == UPPER {
      assert forall k | 0 <= k < 4 && k != p.idx :: b.pds[k] != b.pds[p.idx];
    }
  }

  lemma FrameBack(b: Image, f: nat)
    requires b.Apart() && f in {b.p4, b.p3, b.pds[0], b.pds[1], b.pds[2], b.pds[3]}
    ensures BootPath(PlaceOf(b, f)) && FrameAt(b, PlaceOf(b, f)) == f
  {
  }

  function BootTree(b: Image): Tree
    requires |b.pds| == 4
  {
    Tree(map p | p in BootPaths() :: FrameAt(b, p),
         map f | f in {b.p4, b.p3, b.pds[0], b.pds[1], b.pds[2], b.pds[3]} :: PlaceOf(b, f))
  }

  lemma InTree(b: Image, p: Path)
    requires b.Apart()
    ensures p in BootTree(b).at <==> BootPath(p)
    ensures BootPath(p) ==> BootTree(b).at[p] == FrameAt(b, p) && FrameAt(b, p) in BootTree(b).role && BootTree(b).role[FrameAt(b, p)] == p
  {
    if BootPath(p) {
      PlaceBack(b, p);
      PathFrame(b, p);
    }
  }

  lemma PathFrame(b: Image, p: Path)
    requires BootPath(p) && |b.pds| == 4
    ensures FrameAt(b, p) in {b.p4, b.p3, b.pds[0], b.pds[1], b.pds[2], b.pds[3]}
  {
  }

  lemma PathLevels(p: Path)
    requires BootPath(p)
    ensures Own(p) && OwnerOf(p) == Kernel && Level(p) <= 2 && (p.Child? ==> BootPath(p.up))
  {
    assert Own(Root(Kernel)) && Level(Root(Kernel)) == 0 && OwnerOf(Root(Kernel)) == Kernel;
    assert Own(UPPER) && Level(UPPER) == 1 && OwnerOf(UPPER) == Kernel;
  }

  lemma BootShaped(b: Image)
    requires b.Apart()
    ensures Shaped(BootTree(b)) && BootTree(b).Onto()
    ensures forall p {:trigger p in BootTree(b).at} | p in BootTree(b).at :: OwnerOf(p) == Kernel && Level(p) <= 2
  {
    var t := BootTree(b);
    forall f | f in t.role ensures t.role[f] in t.at && t.at[t.role[f]] == f {
      FrameBack(b, f);
      InTree(b, PlaceOf(b, f));
    }
    hide BootTree, BootPath, FrameAt, PlaceOf, Own;
    forall p | p in t.at
      ensures Own(p) && Level(p) <= 2 && OwnerOf(p) == Kernel && 0 < t.at[p] < MAX_FRAMES && t.at[p] in t.role && t.role[t.at[p]] == p
    {
      InTree(b, p);
      PathLevels(p);
      PlaceBack(b, p);
    }
    forall p, i: Index | Child(p, i) in t.at ensures p in t.at {
      InTree(b, Child(p, i));
      PathLevels(Child(p, i));
      InTree(b, p);
    }
    RootIn(b);
  }

  lemma RootIn(b: Image)
    requires b.Apart()
    ensures Root(Kernel) in BootTree(b).at && Child(Root(Kernel), HEAP_SLOT) !in BootTree(b).at && BootTree(b).at[Root(Kernel)] == b.p4
    ensures forall s: nat {:trigger Root(Space(s))} :: Root(Space(s)) !in BootTree(b).at
  {
    hide BootTree;
    InTree(b, Root(Kernel));
    InTree(b, Child(Root(Kernel), HEAP_SLOT));
    forall s: nat ensures Root(Space(s)) !in BootTree(b).at { InTree(b, Root(Space(s))); }
  }

  /** The entries of each table lead where the tree says. */
  lemma BootLinked(ram: Ram, b: Image, p: Path, i: Index)
    requires Filled(ram, b) && BootPath(p) && OwnStep(p, i)
    ensures p in BootTree(b).at && BootTree(b).at[p] < |ram| && LinkedAt(ram, BootTree(b), p, i)
  {
    hide BootTree;
    var t := BootTree(b);
    InTree(b, p);
    InTree(b, Child(p, i));
    PlaceBack(b, p);
    if p == Root(Kernel) {
      assert ram[b.p4][i] == if i == 0 then Entry(b.p3, BOOT_LINK) else if i == PHYSMAP_SLOT then Entry(b.physmap, BOOT_LINK) else ZERO;
    } else if p == UPPER {
      assert ram[b.p3][i] == if i < 4 then Entry(b.pds[i], BOOT_LINK) else ZERO;
    } else {
      assert FilledPd(ram[b.pds[p.idx]], p.idx);
      assert ram[b.pds[p.idx]][i] == LargeEntry(p.idx, i);
    }
  }

  /** The tables of start-up satisfy the invariant of the address spaces. */
  lemma BootInv(ram: Ram, b: Image)
    requires Filled(ram, b)
    ensures Inv(ram, BootTree(b)) && BootTree(b).Onto() && BootTree(b).at[Root(Kernel)] == b.p4
    ensures Child(Root(Kernel), HEAP_SLOT) !in BootTree(b).at
    ensures forall f {:trigger f in BootTree(b).role} | f in BootTree(b).role ::
      f in {b.p4, b.p3, b.pds[0], b.pds[1], b.pds[2], b.pds[3]} && OwnerOf(BootTree(b).role[f]) == Kernel && Level(BootTree(b).role[f]) <= 2
  {
    var t := BootTree(b);
    assert t.role.Keys == {b.p4, b.p3, b.pds[0], b.pds[1], b.pds[2], b.pds[3]};
    hide BootPath, FrameAt, LinkedAt, OwnStep, BootTree;
    BootShaped(b);
    RootIn(b);
    forall p, i: Index | p in t.at && Level(p) < 4 && OwnStep(p, i) ensures LinkedAt(ram, t, p, i) {
      InTree(b, p);
      BootLinked(ram, b, p, i);
    }
  }

  /** They map the first four gigabytes to themselves, and once more from slot 384 on. */
  lemma BootWalk(ram: Ram, b: Image, pg: Page)
    requires Filled(ram, b) && (pg.i4 == 0 || pg.i4 == PHYSMAP_SLOT)
    ensures Walk(ram, b.p4, pg) ==
      if pg.i3 < 4 then Some(Entry((pg.i3 * 512 + pg.i2) * 512 + pg.i1, BOOT_LARGE)) else Option.None
  {
    if pg.i3 < 4 {
      assert FilledPd(ram[b.pds[pg.i3]], pg.i3);
      assert ram[b.pds[pg.i3]][pg.i2] == LargeEntry(pg.i3, pg.i2);
    }
  }
}
