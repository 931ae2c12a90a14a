/** Four-level page tables as values: entries, the hardware walk, the positions a table can
    occupy, and the invariant that ties physical memory to a tree of positions.
    Physical memory is a sequence of frames of 512 eight-byte words; a word is kept in decoded
    form, as the fields of a page table entry. */
module PageTables {
  import opened Options
  import opened FrameBitmap

  const HEAP_SLOT: nat := 256
  const PHYSMAP_SLOT: nat := 384

  type Index = i: nat | i < 512

  /** Bits 0, 1, 2, 7 and 63 of an entry; `low` stands for the other flag bits below bit 12 and
      `high` for bits 62:52. */
  datatype Flags = Flags(present: bool, writable: bool, user: bool, huge: bool, nx: bool, low: nat, high: nat)

  /** A 64-bit word read as a page table entry: the frame number (bits 51:12) and the flags. */
  datatype Entry = Entry(frame: nat, fl: Flags)

  const NO_FLAGS := Flags(false, false, false, false, false, 0, 0)
  const ZERO := Entry(0, NO_FLAGS)
  type Table = t: seq<Entry> | |t| == 512 witness seq(512, _ => ZERO)

  function ZeroTable(): (t: Table)
    ensures forall i: Index :: t[i] == ZERO
  {
    seq(512, _ => ZERO)
  }

  type Ram = seq<Table>

  /** The contents of frame f; what lies beyond the installed memory reads as zero. */
  function Load(ram: Ram, f: nat): Table {
    if f < |ram| then ram[f] else ZeroTable()
  }

  function Store(ram: Ram, f: nat, i: Index, e: Entry): (r: Ram)
    requires f < |ram|
    ensures |r| == |ram| && r[f][i] == e
    ensures forall g | 0 <= g < |ram| && g != f :: r[g] == ram[g]
    ensures forall j: Index | j != i :: r[f][j] == ram[f][j]
  {
    ram[f := ram[f][i := e]]
  }

  /** Storing what is already there changes nothing. */
  lemma StoreSame(ram: Ram, f: nat, i: Index)
    requires f < |ram|
    ensures Store(ram, f, i, ram[f][i]) == ram
  {
    assert ram[f][i := ram[f][i]] == ram[f];
  }

  // ---- the walk ----

  /** A 4 KiB page of the 48-bit address space, as its four table indices. */
  datatype Page = Page(i4: Index, i3: Index, i2: Index, i1: Index)

  /** The piece of a 2 MiB entry that page index i1 selects. */
  function Piece2M(e: Entry, i1: Index): Entry {
    Entry(e.frame - e.frame % 512 + i1, e.fl)
  }

  function Piece1G(e: Entry, i2: Index, i1: Index): Entry {
    Entry(e.frame - e.frame % 0x4_0000 + i2 * 512 + i1, e.fl)
  }

  /** The walk of virt_to_phys, with the flags of the entry it ends at. */
  function Walk(ram: Ram, root: nat, pg: Page): Option<Entry> {
    WalkBelow(ram, Load(ram, root)[pg.i4], pg)
  }

  /** The walk from a PML4 entry on. */
  function WalkBelow(ram: Ram, e4: Entry, pg: Page): Option<Entry> {
    if !e4.fl.present then None else
    var e3 := Load(ram, e4.frame)[pg.i3];
    if !e3.fl.present then None else
    if e3.fl.huge then Some(Piece1G(e3, pg.i2, pg.i1)) else
    var e2 := Load(ram, e3.frame)[pg.i2];
    if !e2.fl.present then None else
    if e2.fl.huge then Some(Piece2M(e2, pg.i1)) else
    var e1 := Load(ram, e2.frame)[pg.i1];
    if !e1.fl.present then None else Some(e1)
  }

  /** What an access through a whole chain of entries may do. */
  datatype Rights = Rights(writable: bool, user: bool, nx: bool)

  function Of(e: Entry): Rights { Rights(e.fl.writable, e.fl.user, e.fl.nx) }

  function Meet(a: Rights, b: Rights): Rights {
    Rights(a.writable && b.writable, a.user && b.user, a.nx || b.nx)
  }

  /** The effective permission of a page: every level must grant what the leaf grants. */
  function Effective(ram: Ram, root: nat, pg: Page): Option<Rights> {
    var e4 := Load(ram, root)[pg.i4];
    if !e4.fl.present then None else
    var e3 := Load(ram, e4.frame)[pg.i3];
    if !e3.fl.present then None else
    if e3.fl.huge then Some(Meet(Of(e4), Of(e3))) else
    var e2 := Load(ram, e3.frame)[pg.i2];
    if !e2.fl.present then None else
    if e2.fl.huge then Some(Meet(Meet(Of(e4), Of(e3)), Of(e2))) else
    var e1 := Load(ram, e2.frame)[pg.i1];
    if !e1.fl.present then None else Some(Meet(Meet(Of(e4), Of(e3)), Meet(Of(e2), Of(e1))))
  }

  // ---- positions ----

  datatype Owner = Kernel | Space(root: nat)

  /** Where a frame sits: a PML4, or entry `idx` of the table at `up`. */
  datatype Path = Root(owner: Owner) | Child(up: Path, idx: Index)

  function Level(p: Path): nat {
    match p
    case Root(_) => 0
    case Child(u, _) => 1 + Level(u)
  }

  function OwnerOf(p: Path): Owner {
    match p
    case Root(o) => o
    case Child(u, _) => OwnerOf(u)
  }

  /** Entry i of the table at u belongs to the owner of u.
      A space owns the window [2 MiB, 16 MiB) of slot 0, the tables that lead to it, and every slot
      other than 0, the heap and the physmap. The kernel's own tables are those of slot 0, whose
      leaves are not owned (the identity map reaches every frame), and the whole heap slot. */
  predicate OwnStep(u: Path, i: Index) {
    match u
    case Root(Kernel) => i == 0 || i == HEAP_SLOT
    case Root(Space(_)) => i != HEAP_SLOT && i != PHYSMAP_SLOT
    case Child(Root(Space(_)), k) => k == 0 ==> i < 4
    case Child(Child(Root(Space(_)), k), j) => k == 0 ==> j == 0 && 1 <= i < 8
    case Child(Child(Child(Root(Kernel), k), _), _) => k != 0
    case _ => true
  }

  predicate Own(p: Path) {
    match p
    case Root(_) => true
    case Child(u, i) => Own(u) && OwnStep(u, i)
  }

  /** The page directories of the kernel's identity map: the only place where 2 MiB entries occur. */
  predicate IdentityPd(p: Path) {
    match p
    case Child(Child(Root(Kernel), k), _) => k == 0
    case _ => false
  }

  function PdPath(o: Owner, pg: Page): Path { Child(Child(Root(o), pg.i4), pg.i3) }
  function PtPath(o: Owner, pg: Page): Path { Child(PdPath(o, pg), pg.i2) }
  function Leaf(o: Owner, pg: Page): Path { Child(PtPath(o, pg), pg.i1) }

  /** The pages whose page table, if there is one, belongs to o. */
  predicate Tracked(o: Owner, pg: Page) { Own(PtPath(o, pg)) }

  /** [2 MiB, 16 MiB) and every slot but 0, heap and physmap. */
  predicate Private(pg: Page) {
    if pg.i4 == 0 then pg.i3 == 0 && 1 <= pg.i2 < 8 else pg.i4 != HEAP_SLOT && pg.i4 != PHYSMAP_SLOT
  }

  /** Ownership of a page's positions, level by level. */
  lemma OwnSteps(o: Owner, pg: Page)
    ensures Own(Child(Root(o), pg.i4)) <==> OwnStep(Root(o), pg.i4)
    ensures Own(PdPath(o, pg)) <==> OwnStep(Root(o), pg.i4) && OwnStep(Child(Root(o), pg.i4), pg.i3)
    ensures Own(PtPath(o, pg)) <==> Own(PdPath(o, pg)) && OwnStep(PdPath(o, pg), pg.i2)
    ensures Own(Leaf(o, pg)) <==> Own(PtPath(o, pg)) && OwnStep(PtPath(o, pg), pg.i1)
    ensures Level(PdPath(o, pg)) == 2 && Level(PtPath(o, pg)) == 3 && Level(Leaf(o, pg)) == 4
    ensures OwnerOf(PdPath(o, pg)) == OwnerOf(PtPath(o, pg)) == OwnerOf(Leaf(o, pg)) == o
  {
    assert Own(Root(o)) && Level(Root(o)) == 0 && OwnerOf(Root(o)) == o;
    var p1 := Child(Root(o), pg.i4);
    assert Own(p1) <==> OwnStep(Root(o), pg.i4);
    assert Level(p1) == 1 && OwnerOf(p1) == o;
    assert Level(PdPath(o, pg)) == 2 && OwnerOf(PdPath(o, pg)) == o;
  }

  lemma TrackedIsPrivate(s: nat, pg: Page)
    ensures Tracked(Space(s), pg) <==> Private(pg)
    ensures Own(Leaf(Space(s), pg)) <==> Private(pg)
  {
    OwnSteps(Space(s), pg);
  }

  lemma TrackedByKernel(pg: Page)
    ensures Tracked(Kernel, pg) <==> pg.i4 == 0 || pg.i4 == HEAP_SLOT
    ensures Own(Leaf(Kernel, pg)) <==> pg.i4 == HEAP_SLOT
  {
    OwnSteps(Kernel, pg);
  }

  // ---- the tree ----

  /** Which frame sits at each owned position, and back. */
  datatype Tree = Tree(at: map<Path, nat>, role: map<nat, Path>) {
    /** No frame sits at two positions. */
    ghost predicate Injective() {
      forall p {:trigger at[p]} | p in at :: at[p] in role && role[at[p]] == p
    }

    /** Every frame with a role sits where its role says. */
    ghost predicate Onto() {
      forall f {:trigger role[f]} | f in role :: role[f] in at && at[role[f]] == f
    }

    function Add(p: Path, f: nat): Tree {
      Tree(at[p := f], role[f := p])
    }

    function Drop(p: Path): Tree
      requires p in at
    {
      Tree(at - {p}, role - {at[p]})
    }

    /** Put f at p, replacing what was there. */
    function Put(p: Path, f: nat): Tree {
      Tree(at[p := f], (if p in at then role - {at[p]} else role)[f := p])
    }
  }

  ghost predicate Shaped(t: Tree) {
    && t.Injective()
    && Root(Kernel) in t.at
    && (forall p {:trigger p in t.at} | p in t.at :: Own(p) && Level(p) <= 4 && 0 < t.at[p] < MAX_FRAMES)
    && (forall p, i: Index {:trigger Child(p, i)} | Child(p, i) in t.at :: p in t.at)
    && (forall s: nat {:trigger Root(Space(s))} | Root(Space(s)) in t.at :: t.at[Root(Space(s))] == s)
  }

  /** What the table at p must hold in entry i: the entry of the table that sits there, or, in the
      identity map, one of the 2 MiB entries of start-up, for the kernel only and executable. */
  ghost predicate LinkedAt(ram: Ram, t: Tree, p: Path, i: Index)
    requires p in t.at && t.at[p] < |ram|
  {
    var e := ram[t.at[p]][i];
    && (Child(p, i) in t.at ==> e.fl.present && !e.fl.huge && e.frame == t.at[Child(p, i)])
    && (e.fl.present && Child(p, i) !in t.at ==> IdentityPd(p) && e.fl.huge && !e.fl.user && !e.fl.nx)
  }

  ghost predicate Linked(ram: Ram, t: Tree)
    requires |ram| == MAX_FRAMES && Shaped(t)
  {
    forall p, i: Index {:trigger Child(p, i)} | p in t.at && Level(p) < 4 && OwnStep(p, i) :: LinkedAt(ram, t, p, i)
  }

  /** Every space carries the kernel's heap and physmap slots. */
  ghost predicate Shared(ram: Ram, t: Tree)
    requires |ram| == MAX_FRAMES && Shaped(t)
  {
    forall s: nat | Root(Space(s)) in t.at ::
      && Child(Root(Kernel), HEAP_SLOT) in t.at
      && ram[s][HEAP_SLOT] == ram[t.at[Root(Kernel)]][HEAP_SLOT]
      && ram[s][PHYSMAP_SLOT] == ram[t.at[Root(Kernel)]][PHYSMAP_SLOT]
  }

  ghost predicate Inv(ram: Ram, t: Tree) {
    |ram| == MAX_FRAMES && Shaped(t) && Linked(ram, t) && Shared(ram, t)
  }

  lemma LinkOf(ram: Ram, t: Tree, p: Path, i: Index)
    requires Inv(ram, t) && p in t.at && Level(p) < 4 && OwnStep(p, i)
    ensures |ram| == MAX_FRAMES && t.at[p] < |ram| && LinkedAt(ram, t, p, i)
  {
    hide Shared;
  }

  // ---- the walk against the tree ----

  /** What the tree says about page pg of owner o. */
  ghost function TreeWalk(ram: Ram, t: Tree, o: Owner, pg: Page): Option<Entry>
    requires Inv(ram, t)
  {
    if PtPath(o, pg) in t.at then
      var e := ram[t.at[PtPath(o, pg)]][pg.i1];
      if e.fl.present then Some(e) else None
    else if PdPath(o, pg) in t.at && ram[t.at[PdPath(o, pg)]][pg.i2].fl.present then
      Some(Piece2M(ram[t.at[PdPath(o, pg)]][pg.i2], pg.i1))
    else None
  }

  lemma WalkIsTreeWalk(ram: Ram, t: Tree, o: Owner, pg: Page)
    requires Inv(ram, t) && Root(o) in t.at && Tracked(o, pg)
    ensures Walk(ram, t.at[Root(o)], pg) == TreeWalk(ram, t, o, pg)
  {
    var p0 := Root(o);
    var p1 := Child(p0, pg.i4);
    var p2 := Child(p1, pg.i3);
    var p3 := Child(p2, pg.i2);
    assert Level(p0) == 0 && Level(p1) == 1 && Level(p2) == 2;
    assert Own(p3) && Own(p2) && Own(p1);
    assert LinkedAt(ram, t, p0, pg.i4);
    if p1 in t.at {
      assert LinkedAt(ram, t, p1, pg.i3);
      if p2 in t.at {
        assert LinkedAt(ram, t, p2, pg.i2);
      } else {
        assert p3 !in t.at;
      }
    } else {
      assert p2 !in t.at;
      assert p3 !in t.at;
    }
  }
}
