/** Permissions along a walk, splitting a 2 MiB entry, and adding or removing a whole space. */
module SpaceSteps {
  import opened Options
  import opened FrameBitmap
  import opened PageTables
  import opened PageTableSteps

  // ---- effective permissions ----

  /** Entry i of the table at p, which leads to another table, grants at least what the
      entries of that table grant. */
  ghost predicate GrantsAt(ram: Ram, t: Tree, p: Path, i: Index)
    requires Inv(ram, t) && p in t.at && Child(p, i) in t.at
  {
    var e := ram[t.at[p]][i];
    && e.fl.writable && !e.fl.nx
    && forall j: Index {:trigger ram[t.at[Child(p, i)]][j]} | OwnStep(Child(p, i), j) :: ram[t.at[Child(p, i)]][j].fl.user ==> e.fl.user
  }

  /** In the tables of a space, every intermediate entry grants what lies below it. */
  ghost predicate Granting(ram: Ram, t: Tree)
    requires Inv(ram, t)
  {
    forall p, i: Index {:trigger Child(p, i)} | Child(p, i) in t.at && OwnerOf(p).Space? && Level(p) <= 2 :: GrantsAt(ram, t, p, i)
  }

  /** The permission of a private page is the one its own entry states. */
  lemma EffectiveIsLeaf(ram: Ram, t: Tree, s: nat, pg: Page)
    requires Inv(ram, t) && Granting(ram, t) && Root(Space(s)) in t.at && Private(pg)
    ensures Effective(ram, s, pg) ==
      match Walk(ram, s, pg)
      case None => Option.None
      case Some(e) => Some(Of(e))
  {
    var o := Space(s);
    TrackedIsPrivate(s, pg);
    OwnSteps(o, pg);
    WalkIsTreeWalk(ram, t, o, pg);
    var p0 := Root(o);
    var p1 := Child(p0, pg.i4);
    var p2 := PdPath(o, pg);
    var p3 := PtPath(o, pg);
    assert Level(p0) == 0 && Level(p1) == 1 && OwnerOf(p0) == OwnerOf(p1) == o;
    assert LinkedAt(ram, t, p0, pg.i4);
    if p1 in t.at {
      assert GrantsAt(ram, t, p0, pg.i4);
      assert LinkedAt(ram, t, p1, pg.i3);
      if p2 in t.at {
        assert GrantsAt(ram, t, p1, pg.i3);
        assert LinkedAt(ram, t, p2, pg.i2);
        if p3 in t.at {
          assert GrantsAt(ram, t, p2, pg.i2);
        }
      }
    }
  }

  /** The parent entry of the table at p already grants user access. */
  ghost predicate UserAbove(ram: Ram, t: Tree, p: Path)
    requires Inv(ram, t) && p in t.at
  {
    p.Child? ==> p.up in t.at && ram[t.at[p.up]][p.idx].fl.user
  }

  lemma AddGrants(ram: Ram, t: Tree, ram': Ram, p: Path, i: Index, f: nat, fl: Flags)
    requires CanAdd(ram, t, p, i, f, fl) && LinkedNew(ram, ram', f, t.at[p], i, fl)
    requires Granting(ram, t) && Inv(ram', t.Add(Child(p, i), f))
    requires fl.writable && !fl.nx && (fl.user ==> UserAbove(ram, t, p))
    ensures Granting(ram', t.Add(Child(p, i), f))
  {
    var t' := t.Add(Child(p, i), f);
    forall q, j: Index | Child(q, j) in t'.at && OwnerOf(q).Space? && Level(q) <= 2 ensures GrantsAt(ram', t', q, j) {
      if Child(q, j) in t.at {
        assert GrantsAt(ram, t, q, j);
      }
    }
  }

  lemma WidenGrants(ram: Ram, t: Tree, ram': Ram, p: Path, i: Index, writable: bool, user: bool)
    requires CanWiden(ram, t, ram', p, i, writable, user)
    requires Granting(ram, t) && Inv(ram', t)
    requires user ==> UserAbove(ram, t, p)
    ensures Granting(ram', t)
  {
    forall q, j: Index | Child(q, j) in t.at && OwnerOf(q).Space? && Level(q) <= 2 ensures GrantsAt(ram', t, q, j) {
      assert GrantsAt(ram, t, q, j);
    }
  }

  lemma MapGrants(ram: Ram, t: Tree, ram': Ram, o: Owner, pg: Page, f: nat, fl: Flags)
    requires CanMap(ram, t, ram', o, pg, f, fl)
    requires Granting(ram, t) && Inv(ram', Mapped(t, o, pg, f))
    requires fl.user ==> UserAbove(ram, t, PtPath(o, pg))
    ensures Granting(ram', Mapped(t, o, pg, f))
  {
    OwnSteps(o, pg);
    var t' := Mapped(t, o, pg, f);
    forall q, j: Index | Child(q, j) in t'.at && OwnerOf(q).Space? && Level(q) <= 2 ensures GrantsAt(ram', t', q, j) {
      assert Level(Child(q, j)) == Level(q) + 1;
      assert GrantsAt(ram, t, q, j);
    }
  }

  lemma ClearGrants(ram: Ram, t: Tree, ram': Ram, o: Owner, pg: Page)
    requires CanClear(ram, t, ram', o, pg)
    requires Granting(ram, t) && Inv(ram', Cleared(t, o, pg))
    ensures Granting(ram', Cleared(t, o, pg))
  {
    OwnSteps(o, pg);
    var t' := Cleared(t, o, pg);
    forall q, j: Index | Child(q, j) in t'.at && OwnerOf(q).Space? && Level(q) <= 2 ensures GrantsAt(ram', t', q, j) {
      assert Level(Child(q, j)) == Level(q) + 1;
      assert GrantsAt(ram, t, q, j);
    }
  }

  // ---- splitting a 2 MiB entry ----

  /** The flags split_huge_page carries over: the low twelve bits without the huge bit. */
  function Carried(fl: Flags): Flags {
    fl.(huge := false, nx := false, high := 0)
  }

  const TABLE_FLAGS := Flags(true, true, false, false, false, 0, 0)

  /** The side conditions of splitting entry i of the page directory at p into the fresh table f. */
  ghost predicate CanSplit(ram: Ram, t: Tree, ram': Ram, p: Path, i: Index, f: nat) {
    && Inv(ram, t) && p in t.at && Level(p) == 2 && OwnStep(p, i)
    && f !in t.role && 0 < f < MAX_FRAMES
    && ram[t.at[p]][i].fl.present && ram[t.at[p]][i].fl.huge
    && |ram'| == |ram|
    && (forall g | 0 <= g < |ram| && g != f && g != t.at[p] :: ram'[g] == ram[g])
    && ram'[t.at[p]][i] == Entry(f, TABLE_FLAGS)
    && (forall j: Index | j != i :: ram'[t.at[p]][j] == ram[t.at[p]][j])
    && (forall j: Index :: ram'[f][j] == Entry(Piece2M(ram[t.at[p]][i], j).frame, Carried(ram[t.at[p]][i].fl)))
  }

  /** Same frame; the flags either untouched or, for a 2 MiB entry, carried through its split. */
  ghost predicate SameFrame(a: Option<Entry>, b: Option<Entry>) {
    match (a, b)
    case (None, None) => true
    case (Some(x), Some(y)) => x.frame == y.frame && (y.fl == x.fl || (x.fl.huge && y.fl == Carried(x.fl)))
    case _ => false
  }

  /** Each page keeps its frame, and outside the kernel's identity map its flags too. */
  ghost predicate KeptPage(o: Owner, pg: Page, before: Option<Entry>, after: Option<Entry>) {
    if o == Kernel && pg.i4 == 0 then SameFrame(before, after) else after == before
  }

  ghost predicate KeptWalks(ram: Ram, t: Tree, ram': Ram, t': Tree)
    requires Inv(ram, t) && Inv(ram', t')
  {
    forall o, pg {:trigger TreeWalk(ram', t', o, pg)} | Tracked(o, pg) ::
      KeptPage(o, pg, TreeWalk(ram, t, o, pg), TreeWalk(ram', t', o, pg))
  }

  lemma SplitLinked(ram: Ram, t: Tree, ram': Ram, p: Path, i: Index, f: nat, q: Path, j: Index)
    requires CanSplit(ram, t, ram', p, i, f) && IdentityPd(p) && Child(p, i) !in t.at
    requires q in t.at && Level(q) < 4 && OwnStep(q, j)
    ensures LinkedAt(ram', t.Add(Child(p, i), f), q, j)
  {
    assert LinkedAt(ram, t, q, j);
  }

  /** A split keeps every translation of every owner, and links one table more. */
  lemma SplitEntry(ram: Ram, t: Tree, ram': Ram, p: Path, i: Index, f: nat)
    requires CanSplit(ram, t, ram', p, i, f)
    ensures IdentityPd(p) && Child(p, i) !in t.at
    ensures Inv(ram', t.Add(Child(p, i), f))
    ensures KeptWalks(ram, t, ram', t.Add(Child(p, i), f))
  {
    var t' := t.Add(Child(p, i), f);
    assert LinkedAt(ram, t, p, i);
    AddShaped(t, p, i, f);
    assert Level(Child(p, i)) == 3;
    forall q, j: Index | q in t'.at && Level(q) < 4 && OwnStep(q, j) ensures LinkedAt(ram', t', q, j) {
      if q != Child(p, i) {
        SplitLinked(ram, t, ram', p, i, f, q, j);
      }
    }
    SplitShared(ram, t, ram', p, i, f);
    forall o, pg | Tracked(o, pg) ensures KeptPage(o, pg, TreeWalk(ram, t, o, pg), TreeWalk(ram', t', o, pg)) {
      SplitWalk(ram, t, ram', p, i, f, o, pg);
    }
  }

  lemma SplitShared(ram: Ram, t: Tree, ram': Ram, p: Path, i: Index, f: nat)
    requires CanSplit(ram, t, ram', p, i, f) && Shaped(t.Add(Child(p, i), f))
    ensures Shared(ram', t.Add(Child(p, i), f))
  {
    assert Level(Root(Kernel)) == 0;
    forall s: nat | Root(Space(s)) in t.Add(Child(p, i), f).at
      ensures Root(Space(s)) in t.at && ram'[s] == ram[s]
    {
      assert Level(Root(Space(s))) == 0;
    }
  }

  lemma SplitWalk(ram: Ram, t: Tree, ram': Ram, p: Path, i: Index, f: nat, o: Owner, pg: Page)
    requires CanSplit(ram, t, ram', p, i, f) && Child(p, i) !in t.at && Inv(ram', t.Add(Child(p, i), f))
    requires Tracked(o, pg) && IdentityPd(p)
    ensures KeptPage(o, pg, TreeWalk(ram, t, o, pg), TreeWalk(ram', t.Add(Child(p, i), f), o, pg))
  {
    OwnSteps(o, pg);
    if PtPath(o, pg) in t.at {
      assert LinkedAt(ram, t, PdPath(o, pg), pg.i2);
    } else if PdPath(o, pg) in t.at {
      assert LinkedAt(ram, t, PdPath(o, pg), pg.i2);
    }
  }

  // ---- permissions across a split ----

  /** The walk from root to pg ends at a 2 MiB entry in ram, and in ram' goes on through the table f
      that split_huge_page has put there. */
  ghost predicate SplitUnder(ram: Ram, ram': Ram, root: nat, pg: Page, f: nat) {
    var e4 := Load(ram, root)[pg.i4];
    var e3 := Load(ram, e4.frame)[pg.i3];
    var e2 := Load(ram, e3.frame)[pg.i2];
    && e4.fl.present && e3.fl.present && !e3.fl.huge && e2.fl.present && e2.fl.huge
    && Load(ram', root)[pg.i4] == e4 && Load(ram', e4.frame)[pg.i3] == e3
    && Load(ram', e3.frame)[pg.i2] == Entry(f, TABLE_FLAGS)
    && Load(ram', f)[pg.i1] == Entry(Piece2M(e2, pg.i1).frame, Carried(e2.fl))
  }

  /** Exactly when a split keeps the effective permission of a page below the entry, whatever the
      tables hold: the page must not be accessible to user code, and its entry must not be the only
      one on the way that forbids execution. */
  lemma SplitRights(ram: Ram, ram': Ram, root: nat, pg: Page, f: nat)
    requires SplitUnder(ram, ram', root, pg, f)
    ensures var e4 := Load(ram, root)[pg.i4];
      var e3 := Load(ram, e4.frame)[pg.i3];
      var e2 := Load(ram, e3.frame)[pg.i2];
      Effective(ram', root, pg) == Effective(ram, root, pg) <==>
        !(e4.fl.user && e3.fl.user && e2.fl.user) && (e2.fl.nx ==> e4.fl.nx || e3.fl.nx)
  {
    var e4 := Load(ram, root)[pg.i4];
    var e3 := Load(ram, e4.frame)[pg.i3];
    var e2 := Load(ram, e3.frame)[pg.i2];
    var above := Meet(Of(e4), Of(e3));
    assert Effective(ram, root, pg) == Some(Meet(above, Of(e2)));
    assert Effective(ram', root, pg) == Some(Meet(above, Meet(Of(Entry(f, TABLE_FLAGS)), Of(Entry(e2.frame, Carried(e2.fl))))));
  }

  /** Every entry of the tree's tables but the split one is as it was. */
  lemma WalkStays(ram: Ram, t: Tree, ram': Ram, p: Path, i: Index, f: nat, q: Path, j: Index)
    requires CanSplit(ram, t, ram', p, i, f) && q in t.at && Level(q) < 4 && (q != p || j != i)
    ensures Load(ram', t.at[q])[j] == Load(ram, t.at[q])[j]
  {
    if q != p { assert t.role[t.at[q]] == q && t.role[t.at[p]] == p; }
  }

  /** So no split the kernel ever makes changes an effective permission: the 2 MiB entries are those of
      start-up, which user code cannot reach and which allow execution. */
  lemma SplitKeepsRights(ram: Ram, t: Tree, ram': Ram, p: Path, i: Index, f: nat, o: Owner, pg: Page)
    requires CanSplit(ram, t, ram', p, i, f) && Root(o) in t.at && Tracked(o, pg)
    ensures Effective(ram', t.at[Root(o)], pg) == Effective(ram, t.at[Root(o)], pg)
  {
    hide Inv, Linked, Shared;
    OwnSteps(o, pg);
    var p0, p1, p2, p3 := Root(o), Child(Root(o), pg.i4), PdPath(o, pg), PtPath(o, pg);
    assert Level(p0) == 0 && Level(p1) == 1;
    LinkOf(ram, t, p0, pg.i4);
    LinkOf(ram, t, p, i);
    WalkStays(ram, t, ram', p, i, f, p0, pg.i4);
    if p1 in t.at {
      LinkOf(ram, t, p1, pg.i3);
      WalkStays(ram, t, ram', p, i, f, p1, pg.i3);
      if p2 in t.at {
        LinkOf(ram, t, p2, pg.i2);
        if p2 == p && pg.i2 == i {
          SplitRights(ram, ram', t.at[p0], pg, f);
        } else {
          WalkStays(ram, t, ram', p, i, f, p2, pg.i2);
          if p3 in t.at { WalkStays(ram, t, ram', p, i, f, p3, pg.i1); }
        }
      }
    }
  }

  /** Every page has the permission it had, from every PML4 of the tree. */
  ghost predicate SameRights(ram: Ram, t: Tree, ram': Ram, t': Tree) {
    forall o, pg {:trigger Tracked(o, pg)} | Root(o) in t.at && Tracked(o, pg) ::
      Root(o) in t'.at && Effective(ram', t'.at[Root(o)], pg) == Effective(ram, t.at[Root(o)], pg)
  }

  lemma SplitSameRights(ram: Ram, t: Tree, ram': Ram, p: Path, i: Index, f: nat)
    requires CanSplit(ram, t, ram', p, i, f)
    ensures SameRights(ram, t, ram', t.Add(Child(p, i), f))
  {
    hide CanSplit, Effective, Own;
    forall o, pg | Root(o) in t.at && Tracked(o, pg) ensures Effective(ram', t.at[Root(o)], pg) == Effective(ram, t.at[Root(o)], pg) {
      SplitKeepsRights(ram, t, ram', p, i, f, o, pg);
    }
  }

  /** On tables that start-up does not build a split can make a page executable: an entry with bit 63
      set loses it. */
  lemma SplitDropsNx() returns (ram: Ram, ram': Ram)
    ensures SplitUnder(ram, ram', 0, Page(0, 0, 0, 0), 3)
    ensures Effective(ram, 0, Page(0, 0, 0, 0)) == Some(Rights(true, false, true))
    ensures Effective(ram', 0, Page(0, 0, 0, 0)) == Some(Rights(true, false, false))
  {
    ram := FourTables(TABLE_FLAGS, Entry(512, NX_LARGE), ZERO);
    ram' := FourTables(TABLE_FLAGS, Entry(3, TABLE_FLAGS), Entry(512, Carried(NX_LARGE)));
    NxLost(ram, ram', 0, Page(0, 0, 0, 0), 3) by { hide FourTables, ZeroTable; }
    hide *;
  }

  /** Under two links that user code cannot pass, a no-execute entry loses its bit 63. */
  lemma NxLost(ram: Ram, ram': Ram, root: nat, pg: Page, f: nat)
    requires Load(ram, root)[pg.i4].fl == Load(ram, Load(ram, root)[pg.i4].frame)[pg.i3].fl == TABLE_FLAGS
    requires Load(ram, Load(ram, Load(ram, root)[pg.i4].frame)[pg.i3].frame)[pg.i2].fl == NX_LARGE
    requires SplitUnder(ram, ram', root, pg, f)
    ensures Effective(ram, root, pg) == Some(Rights(true, false, true)) && Effective(ram', root, pg) == Some(Rights(true, false, false))
  {
    hide Load;
  }

  const NX_LARGE := Flags(true, true, false, true, true, 0, 0)

  /** Four tables whose first entries lead from each to the next. */
  function FourTables(fl: Flags, e2: Entry, e1: Entry): (ram: Ram)
    ensures Load(ram, 0)[0] == Entry(1, fl) && Load(ram, 1)[0] == Entry(2, fl) && Load(ram, 2)[0] == e2 && Load(ram, 3)[0] == e1
  {
    [OneEntry(Entry(1, fl)), OneEntry(Entry(2, fl)), OneEntry(e2), OneEntry(e1)]
  }

  function OneEntry(e: Entry): (t: Table)
    ensures t[0] == e
  {
    ZeroTable()[0 := e]
  }

  // ---- storing into a data page ----

  /** ram' differs from ram at most inside frame f. */
  ghost predicate OnlyFrame(ram: Ram, ram': Ram, f: nat) {
    |ram'| == |ram| && forall g | 0 <= g < |ram| && g != f :: ram'[g] == ram[g]
  }

  /** f is not one of the tables of the tree. */
  ghost predicate NotTable(t: Tree, f: nat) {
    f in t.role ==> Level(t.role[f]) == 4
  }

  /** A store to a frame that is no table changes no translation and no permission. */
  lemma WriteData(ram: Ram, t: Tree, ram': Ram, f: nat)
    requires Inv(ram, t) && OnlyFrame(ram, ram', f) && NotTable(t, f)
    ensures Inv(ram', t) && SameWalks(ram, t, ram', t)
    ensures Granting(ram, t) ==> Granting(ram', t)
  {
    forall q | q in t.at && Level(q) < 4 ensures ram'[t.at[q]] == ram[t.at[q]] {
      assert t.role[t.at[q]] == q;
    }
    forall q, j: Index | q in t.at && Level(q) < 4 && OwnStep(q, j) ensures LinkedAt(ram', t, q, j) {
      assert LinkedAt(ram, t, q, j);
    }
    DataShared(ram, t, ram');
    forall o, pg | Tracked(o, pg) ensures TreeWalk(ram', t, o, pg) == TreeWalk(ram, t, o, pg) {
      OwnSteps(o, pg);
    }
    if Granting(ram, t) {
      forall q, j: Index | Child(q, j) in t.at && OwnerOf(q).Space? && Level(q) <= 2 ensures GrantsAt(ram', t, q, j) {
        assert GrantsAt(ram, t, q, j);
        assert Level(Child(q, j)) == Level(q) + 1;
      }
    }
  }

  lemma DataShared(ram: Ram, t: Tree, ram': Ram)
    requires Inv(ram, t) && |ram'| == |ram|
    requires forall q | q in t.at && Level(q) < 4 :: ram'[t.at[q]] == ram[t.at[q]]
    ensures Shared(ram', t)
  {
    assert Level(Root(Kernel)) == 0;
    forall s: nat | Root(Space(s)) in t.at ensures ram'[s] == ram[s] {
      assert Level(Root(Space(s))) == 0;
    }
  }

  // ---- removing a space ----

  /** The tree without anything of owner o. */
  ghost function Without(t: Tree, o: Owner): Tree {
    Tree(map p | p in t.at && OwnerOf(p) != o :: t.at[p],
         map f | f in t.role && OwnerOf(t.role[f]) != o :: t.role[f])
  }

  /** Forgetting a space leaves every other owner's translations and permissions. */
  lemma RemoveSpace(ram: Ram, t: Tree, s: nat)
    requires Inv(ram, t)
    ensures Inv(ram, Without(t, Space(s)))
    ensures Granting(ram, t) ==> Granting(ram, Without(t, Space(s)))
    ensures t.Onto() ==> Without(t, Space(s)).Onto()
    ensures forall o, pg {:trigger TreeWalk(ram, Without(t, Space(s)), o, pg)} | Tracked(o, pg) && o != Space(s) ::
      TreeWalk(ram, Without(t, Space(s)), o, pg) == TreeWalk(ram, t, o, pg)
  {
    var t' := Without(t, Space(s));
    assert OwnerOf(Root(Kernel)) == Kernel;
    forall p, i: Index | Child(p, i) in t'.at ensures p in t'.at {
      assert OwnerOf(Child(p, i)) == OwnerOf(p);
    }
    forall q, j: Index | q in t'.at && Level(q) < 4 && OwnStep(q, j) ensures LinkedAt(ram, t', q, j) {
      assert OwnerOf(Child(q, j)) == OwnerOf(q);
      assert LinkedAt(ram, t, q, j);
    }
    assert OwnerOf(Child(Root(Kernel), HEAP_SLOT)) == Kernel;
    forall o, pg | Tracked(o, pg) && o != Space(s) ensures TreeWalk(ram, t', o, pg) == TreeWalk(ram, t, o, pg) {
      OwnSteps(o, pg);
    }
    if Granting(ram, t) {
      forall q, j: Index | Child(q, j) in t'.at && OwnerOf(q).Space? && Level(q) <= 2 ensures GrantsAt(ram, t', q, j) {
        assert GrantsAt(ram, t, q, j);
      }
    }
  }

  // ---- adding a space ----

  /** The frames of a new space: its PML4, the table of slot 0, and for each of the four low
      directories the frame of its copy, or 0 where the kernel has none. */
  datatype Skeleton = Skeleton(pml4: nat, pdpt: nat, pds: seq<nat>)

  /** 2 MiB entry j of low directory k lies in the window that stays private. */
  predicate Reserved(k: nat, j: nat) { k == 0 && 1 <= j < 8 }

  /** Entry j of a new space's copy of low directory k. */
  function CopiedEntry(kernelPd: Table, k: nat, j: Index): Entry {
    if !Reserved(k, j) && kernelPd[j].fl.present then kernelPd[j] else ZERO
  }

  const LINK_FLAGS := Flags(true, true, true, false, false, 0, 0)

  function LowPdpt(): Path { Child(Root(Kernel), 0) }
  function LowPd(k: Index): Path { Child(LowPdpt(), k) }

  /** The kernel has a directory for gigabyte k of the identity map. */
  ghost predicate HasLow(t: Tree, k: Index) { LowPd(k) in t.at }

  /** The frames of a skeleton are distinct and new. */
  ghost predicate FreshSkeleton(t: Tree, n: Skeleton) {
    && |n.pds| == 4
    && n.pml4 !in t.role && 0 < n.pml4 < MAX_FRAMES
    && n.pdpt !in t.role && 0 < n.pdpt < MAX_FRAMES && n.pdpt != n.pml4
    && (forall k: nat {:trigger n.pds[k]} | k < 4 :: if HasLow(t, k) then
          n.pds[k] !in t.role && 0 < n.pds[k] < MAX_FRAMES && n.pds[k] != n.pml4 && n.pds[k] != n.pdpt
        else n.pds[k] == 0)
    && (forall k: nat, l: nat {:trigger n.pds[k], n.pds[l]} | k < l < 4 && HasLow(t, k) && HasLow(t, l) :: n.pds[k] != n.pds[l])
  }

  /** What create_address_space leaves in memory. */
  ghost predicate Built(ram: Ram, t: Tree, ram': Ram, n: Skeleton)
    requires Inv(ram, t) && FreshSkeleton(t, n)
  {
    && |ram'| == |ram|
    && (forall g | 0 <= g < |ram| && g !in NewFrames(t, n) :: ram'[g] == ram[g])
    && (forall i: Index :: ram'[n.pml4][i] ==
          if i == 0 then Entry(n.pdpt, LINK_FLAGS)
          else if i == HEAP_SLOT || i == PHYSMAP_SLOT then ram[t.at[Root(Kernel)]][i]
          else ZERO)
    && (forall i: Index :: ram'[n.pdpt][i] == if i < 4 && HasLow(t, i) then Entry(n.pds[i], LINK_FLAGS) else ZERO)
    && (forall k: nat, j: Index {:trigger ram'[n.pds[k]][j]} | k < 4 && HasLow(t, k) ::
          ram'[n.pds[k]][j] == CopiedEntry(ram[t.at[LowPd(k)]], k, j))
  }

  function NewRoot(n: Skeleton): Path { Root(Space(n.pml4)) }
  function NewPdpt(n: Skeleton): Path { Child(NewRoot(n), 0) }
  function NewPd(n: Skeleton, k: Index): Path { Child(NewPdpt(n), k) }

  ghost function FrameOf(n: Skeleton, q: Path): nat
    requires |n.pds| == 4
  {
    if q == NewRoot(n) then n.pml4
    else if q == NewPdpt(n) then n.pdpt
    else if q.Child? && q.idx < 4 then n.pds[q.idx] else 0
  }

  /** A position in the tree has its root in the tree. */
  lemma {:induction false} RootInTree(t: Tree, p: Path)
    requires Shaped(t) && p in t.at
    ensures Root(OwnerOf(p)) in t.at
    decreases p
  {
    match p
    case Root(_) =>
    case Child(u, i) =>
      assert Child(u, i) in t.at;
      RootInTree(t, u);
  }

  ghost function PathOf(t: Tree, n: Skeleton, f: nat): Path
    requires |n.pds| == 4
  {
    if f == n.pml4 then NewRoot(n)
    else if f == n.pdpt then NewPdpt(n)
    else if HasLow(t, 0) && f == n.pds[0] then NewPd(n, 0)
    else if HasLow(t, 1) && f == n.pds[1] then NewPd(n, 1)
    else if HasLow(t, 2) && f == n.pds[2] then NewPd(n, 2)
    else NewPd(n, 3)
  }

  /** The positions create_address_space fills, and their frames. */
  ghost function NewPaths(t: Tree, n: Skeleton): set<Path> {
    {NewRoot(n), NewPdpt(n)} + set k: Index | k < 4 && HasLow(t, k) :: NewPd(n, k)
  }

  ghost function NewFrames(t: Tree, n: Skeleton): set<nat>
    requires |n.pds| == 4
  {
    {n.pml4, n.pdpt} + set k: Index | k < 4 && HasLow(t, k) :: n.pds[k]
  }

  /** The tree that create_address_space ends with. */
  ghost function Grow(t: Tree, n: Skeleton): Tree
    requires |n.pds| == 4
  {
    Tree(t.at + (map q | q in NewPaths(t, n) :: FrameOf(n, q)), t.role + (map f | f in NewFrames(t, n) :: PathOf(t, n, f)))
  }

  /** The positions of a new space: its PML4, the table of slot 0 and a directory for each gigabyte that
      the kernel maps by one. */
  ghost function SpacePaths(t: Tree, s: nat): set<Path> {
    {Root(Space(s)), Child(Root(Space(s)), 0)} + set k: Index | k < 4 && HasLow(t, k) :: Child(Child(Root(Space(s)), 0), k)
  }

  lemma GrowKeys(t: Tree, n: Skeleton)
    requires |n.pds| == 4
    ensures Grow(t, n).at.Keys == t.at.Keys + SpacePaths(t, n.pml4)
  {
    assert NewPaths(t, n) == SpacePaths(t, n.pml4);
  }

  lemma NothingNewInOld(t: Tree, n: Skeleton, q: Path)
    requires Shaped(t) && FreshSkeleton(t, n) && q in NewPaths(t, n)
    ensures q !in t.at
  {
    assert OwnerOf(NewRoot(n)) == OwnerOf(NewPdpt(n)) == Space(n.pml4);
    if q in t.at {
      RootInTree(t, q);
    }
  }

  /** The new positions and the new frames correspond. */
  lemma SkeletonMatches(t: Tree, n: Skeleton, q: Path)
    requires Shaped(t) && FreshSkeleton(t, n) && q in NewPaths(t, n)
    ensures FrameOf(n, q) in NewFrames(t, n) && PathOf(t, n, FrameOf(n, q)) == q
    ensures FrameOf(n, q) !in t.role && 0 < FrameOf(n, q) < MAX_FRAMES
    ensures Own(q) && Level(q) <= 2
  {
    assert Own(NewRoot(n)) && Own(NewPdpt(n)) && Level(NewRoot(n)) == 0 && Level(NewPdpt(n)) == 1;
    if q != NewRoot(n) && q != NewPdpt(n) {
      var k: Index :| k < 4 && HasLow(t, k) && q == NewPd(n, k);
      assert Level(q) == 2 && q.up == NewPdpt(n);
      assert n.pds[0] == n.pds[0] && n.pds[1] == n.pds[1] && n.pds[2] == n.pds[2] && n.pds[3] == n.pds[3];
    }
  }

  /** SkeletonMatches for every new position. */
  ghost predicate Matched(t: Tree, n: Skeleton)
    requires |n.pds| == 4
  {
    forall q {:trigger q in NewPaths(t, n)} {:trigger FrameOf(n, q)} | q in NewPaths(t, n) ::
      && q !in t.at && Own(q) && Level(q) <= 2
      && FrameOf(n, q) in NewFrames(t, n) && PathOf(t, n, FrameOf(n, q)) == q
      && FrameOf(n, q) !in t.role && 0 < FrameOf(n, q) < MAX_FRAMES
  }

  lemma AllMatched(t: Tree, n: Skeleton)
    requires Shaped(t) && FreshSkeleton(t, n)
    ensures Matched(t, n)
  {
    forall q | q in NewPaths(t, n)
      ensures q !in t.at && Own(q) && Level(q) <= 2
      ensures FrameOf(n, q) in NewFrames(t, n) && PathOf(t, n, FrameOf(n, q)) == q
      ensures FrameOf(n, q) !in t.role && 0 < FrameOf(n, q) < MAX_FRAMES
    {
      NothingNewInOld(t, n, q);
      SkeletonMatches(t, n, q);
    }
  }

  lemma GrowInjective(t: Tree, n: Skeleton)
    requires Shaped(t) && FreshSkeleton(t, n) && |n.pds| == 4 && Matched(t, n)
    ensures Grow(t, n).Injective()
  {
    hide PathOf;
    hide NewFrames;
    hide NewPaths;
    hide FrameOf;
    hide FreshSkeleton;
    forall f | f in t.role ensures f !in NewFrames(t, n) { NewFramesFresh(t, n, f); }
  }

  lemma NewFramesFresh(t: Tree, n: Skeleton, f: nat)
    requires FreshSkeleton(t, n) && f in t.role
    ensures f !in NewFrames(t, n)
  {
  }

  lemma GrowShaped(t: Tree, n: Skeleton)
    requires Shaped(t) && FreshSkeleton(t, n)
    ensures Shaped(Grow(t, n)) && Matched(t, n)
  {
    AllMatched(t, n);
    GrowInjective(t, n);
    GrowClosed(t, n);
  }

  lemma GrowClosed(t: Tree, n: Skeleton)
    requires Shaped(t) && FreshSkeleton(t, n) && |n.pds| == 4 && Matched(t, n)
    ensures var t' := Grow(t, n);
      && (forall p, i: Index {:trigger Child(p, i)} | Child(p, i) in t'.at :: p in t'.at)
      && (forall s: nat {:trigger Root(Space(s))} | Root(Space(s)) in t'.at :: t'.at[Root(Space(s))] == s)
  {
    hide PathOf;
    hide NewFrames;
    hide FreshSkeleton;
    var t' := Grow(t, n);
    forall p, i: Index | Child(p, i) in t'.at ensures p in t'.at {
      if Child(p, i) !in t.at {
        assert Child(p, i) in NewPaths(t, n);
      }
    }
    forall s: nat | Root(Space(s)) in t'.at ensures t'.at[Root(Space(s))] == s {
      if Root(Space(s)) !in t.at {
        assert Root(Space(s)) in NewPaths(t, n);
      }
    }
  }

  lemma GrowOnto(t: Tree, n: Skeleton)
    requires Shaped(t) && FreshSkeleton(t, n) && t.Onto()
    ensures Grow(t, n).Onto()
  {
    var t' := Grow(t, n);
    AllMatched(t, n);
    assert n.pds[0] == n.pds[0] && n.pds[1] == n.pds[1] && n.pds[2] == n.pds[2] && n.pds[3] == n.pds[3];
    forall f | f in t'.role ensures t'.role[f] in t'.at && t'.at[t'.role[f]] == f {
      if f in NewFrames(t, n) {
        PathOfIsNew(t, n, f);
      }
    }
  }

  lemma PathOfIsNew(t: Tree, n: Skeleton, f: nat)
    requires FreshSkeleton(t, n) && f in NewFrames(t, n)
    ensures PathOf(t, n, f) in NewPaths(t, n) && FrameOf(n, PathOf(t, n, f)) == f
  {
    if f != n.pml4 && f != n.pdpt {
      var k: Index :| k < 4 && HasLow(t, k) && f == n.pds[k];
    }
  }

  /** Old positions keep their children. */
  lemma OldChild(t: Tree, n: Skeleton, q: Path, j: Index)
    requires Shaped(t) && |n.pds| == 4 && Matched(t, n) && q in t.at
    ensures q in Grow(t, n).at && Grow(t, n).at[q] == t.at[q]
    ensures Child(q, j) in Grow(t, n).at <==> Child(q, j) in t.at
    ensures Child(q, j) in t.at ==> Grow(t, n).at[Child(q, j)] == t.at[Child(q, j)]
  {
    assert Child(q, j) in NewPaths(t, n) ==> q in NewPaths(t, n);
  }

  /** Which children of the new positions are new. */
  lemma NewChildPath(t: Tree, n: Skeleton, q: Path, j: Index)
    requires q in NewPaths(t, n)
    ensures Child(q, j) in NewPaths(t, n) <==> (q == NewRoot(n) && j == 0) || (q == NewPdpt(n) && j < 4 && HasLow(t, j))
  {
    var c := Child(q, j);
    assert Level(c) == Level(q) + 1;
    assert Level(NewRoot(n)) == 0 && Level(NewPdpt(n)) == 1;
    if c in NewPaths(t, n) && c != NewPdpt(n) {
      var k: Index :| k < 4 && HasLow(t, k) && c == NewPd(n, k);
    }
  }

  /** The children of the new positions. */
  lemma NewChild(t: Tree, n: Skeleton, q: Path, j: Index)
    requires Shaped(t) && |n.pds| == 4 && Matched(t, n) && q in NewPaths(t, n)
    ensures Grow(t, n).at[q] == FrameOf(n, q)
    ensures Child(q, j) in Grow(t, n).at <==> Child(q, j) in NewPaths(t, n)
    ensures Child(q, j) in NewPaths(t, n) ==> Grow(t, n).at[Child(q, j)] == FrameOf(n, Child(q, j))
  {
    hide NewPaths;
    hide NewFrames;
    hide FrameOf;
    assert Child(q, j) !in t.at;
  }

  ghost predicate NewSpace(ram: Ram, t: Tree, ram': Ram, n: Skeleton) {
    Inv(ram, t) && FreshSkeleton(t, n) && Built(ram, t, ram', n) && Shaped(Grow(t, n)) && Matched(t, n)
  }

  lemma NewLinkedRoot(ram: Ram, t: Tree, ram': Ram, n: Skeleton, j: Index)
    requires NewSpace(ram, t, ram', n) && OwnStep(NewRoot(n), j)
    ensures LinkedAt(ram', Grow(t, n), NewRoot(n), j)
  {
    NewChild(t, n, NewRoot(n), j);
    NewChildPath(t, n, NewRoot(n), j);
    hide Grow, Linked, Shared, Shaped, NewPaths, NewFrames;
  }

  lemma NewLinkedPdpt(ram: Ram, t: Tree, ram': Ram, n: Skeleton, j: Index)
    requires NewSpace(ram, t, ram', n) && OwnStep(NewPdpt(n), j)
    ensures LinkedAt(ram', Grow(t, n), NewPdpt(n), j)
  {
    NewChild(t, n, NewPdpt(n), j);
    NewChildPath(t, n, NewPdpt(n), j);
    hide Grow, Linked, Shared, Shaped, NewPaths, NewFrames;
  }

  lemma NewLinkedPd(ram: Ram, t: Tree, ram': Ram, n: Skeleton, k: Index, j: Index)
    requires NewSpace(ram, t, ram', n) && k < 4 && HasLow(t, k) && OwnStep(NewPd(n, k), j)
    ensures LinkedAt(ram', Grow(t, n), NewPd(n, k), j)
  {
    assert NewPd(n, k) in NewPaths(t, n);
    NewChild(t, n, NewPd(n, k), j);
    NewChildPath(t, n, NewPd(n, k), j);
    hide Grow, Linked, Shared, Shaped, NewPaths, NewFrames;
    assert Reserved(k, j);
    assert ram'[n.pds[k]][j] == ZERO;
  }

  /** The entries of the tables of a new space. */
  lemma NewLinked(ram: Ram, t: Tree, ram': Ram, n: Skeleton, q: Path, j: Index)
    requires NewSpace(ram, t, ram', n) && q in NewPaths(t, n) && OwnStep(q, j)
    ensures LinkedAt(ram', Grow(t, n), q, j)
  {
    hide LinkedAt, Shaped;
    if q == NewRoot(n) {
      NewLinkedRoot(ram, t, ram', n, j);
    } else if q == NewPdpt(n) {
      NewLinkedPdpt(ram, t, ram', n, j);
    } else {
      var k: Index :| k < 4 && HasLow(t, k) && q == NewPd(n, k);
      NewLinkedPd(ram, t, ram', n, k, j);
    }
  }

  /** create_address_space: the invariant holds with the new space in the tree, and nobody else
      notices. */
  lemma BuildSpace(ram: Ram, t: Tree, ram': Ram, n: Skeleton)
    requires Inv(ram, t) && FreshSkeleton(t, n) && Built(ram, t, ram', n)
    requires Child(Root(Kernel), HEAP_SLOT) in t.at
    ensures Inv(ram', Grow(t, n))
  {
    var t' := Grow(t, n);
    GrowShaped(t, n);
    OldTablesKept(ram, t, ram', n);
    forall q, j: Index | q in t'.at && Level(q) < 4 && OwnStep(q, j) ensures LinkedAt(ram', t', q, j) {
      if q in NewPaths(t, n) {
        NewLinked(ram, t, ram', n, q, j);
      } else {
        OldLinked(ram, t, ram', n, q, j);
      }
    }
    BuildShared(ram, t, ram', n);
  }

  lemma OldTablesKept(ram: Ram, t: Tree, ram': Ram, n: Skeleton)
    requires Inv(ram, t) && FreshSkeleton(t, n) && Built(ram, t, ram', n)
    ensures forall q {:trigger t.at[q]} | q in t.at :: ram'[t.at[q]] == ram[t.at[q]]
  {
    forall q | q in t.at ensures ram'[t.at[q]] == ram[t.at[q]] {
      NewFramesFresh(t, n, t.at[q]);
    }
  }

  lemma OldLinked(ram: Ram, t: Tree, ram': Ram, n: Skeleton, q: Path, j: Index)
    requires Inv(ram, t) && FreshSkeleton(t, n) && |n.pds| == 4 && Shaped(Grow(t, n)) && Matched(t, n)
    requires |ram'| == |ram| && forall q {:trigger t.at[q]} | q in t.at :: ram'[t.at[q]] == ram[t.at[q]]
    requires q in t.at && Level(q) < 4 && OwnStep(q, j)
    ensures LinkedAt(ram', Grow(t, n), q, j)
  {
    assert LinkedAt(ram, t, q, j);
    OldChild(t, n, q, j);
  }

  lemma BuildShared(ram: Ram, t: Tree, ram': Ram, n: Skeleton)
    requires Inv(ram, t) && FreshSkeleton(t, n) && Built(ram, t, ram', n) && Shaped(Grow(t, n)) && Matched(t, n)
    requires forall q {:trigger t.at[q]} | q in t.at :: ram'[t.at[q]] == ram[t.at[q]]
    requires Child(Root(Kernel), HEAP_SLOT) in t.at
    ensures Shared(ram', Grow(t, n))
  {
    hide NewFrames;
    var t' := Grow(t, n);
    assert Root(Kernel) !in NewPaths(t, n) && t'.at[Root(Kernel)] == t.at[Root(Kernel)];
    forall s: nat | Root(Space(s)) in t'.at
      ensures ram'[s][HEAP_SLOT] == ram[t.at[Root(Kernel)]][HEAP_SLOT]
      ensures ram'[s][PHYSMAP_SLOT] == ram[t.at[Root(Kernel)]][PHYSMAP_SLOT]
    {
      if Root(Space(s)) !in t.at {
        assert Root(Space(s)) in NewPaths(t, n);
        assert s == n.pml4;
      }
    }
  }

  /** Pages a new space translates as the kernel does: the heap slot, the physmap slot and the
      low 4 GiB outside the private window. */
  predicate SharedPage(pg: Page) {
    pg.i4 == HEAP_SLOT || pg.i4 == PHYSMAP_SLOT || (pg.i4 == 0 && pg.i3 < 4 && !Reserved(pg.i3, pg.i2))
  }

  /** The other owners translate as before. */
  lemma BuildOldWalk(ram: Ram, t: Tree, ram': Ram, n: Skeleton, o: Owner, pg: Page)
    requires NewSpace(ram, t, ram', n) && |n.pds| == 4 && Inv(ram', Grow(t, n)) && o != Space(n.pml4)
    requires forall q {:trigger t.at[q]} | q in t.at :: ram'[t.at[q]] == ram[t.at[q]]
    ensures TreeWalk(ram', Grow(t, n), o, pg) == TreeWalk(ram, t, o, pg)
  {
    hide Grow, Linked, Shared, Shaped, Matched, Built, FreshSkeleton;
    OwnSteps(o, pg);
    OtherOwner(t, n, PtPath(o, pg));
    OtherOwner(t, n, PdPath(o, pg));
  }

  lemma OtherOwner(t: Tree, n: Skeleton, q: Path)
    requires |n.pds| == 4 && OwnerOf(q) != Space(n.pml4)
    ensures q in Grow(t, n).at <==> q in t.at
    ensures q in t.at ==> Grow(t, n).at[q] == t.at[q]
  {
    if q in NewPaths(t, n) {
      assert OwnerOf(NewRoot(n)) == OwnerOf(NewPdpt(n)) == Space(n.pml4);
      assert false;
    }
  }

  /** The new space maps no private page, */
  lemma BuildNewPrivate(ram: Ram, t: Tree, ram': Ram, n: Skeleton, pg: Page)
    requires NewSpace(ram, t, ram', n) && Inv(ram', Grow(t, n)) && Private(pg)
    ensures TreeWalk(ram', Grow(t, n), Space(n.pml4), pg) == None
  {
    var t' := Grow(t, n);
    var o := Space(n.pml4);
    TrackedIsPrivate(n.pml4, pg);
    OwnSteps(o, pg);
    assert NewRoot(n) in NewPaths(t, n);
    NewChild(t, n, NewRoot(n), pg.i4);
    NewChildPath(t, n, NewRoot(n), pg.i4);
    if pg.i4 == 0 {
      assert NewPdpt(n) in NewPaths(t, n);
      NewChild(t, n, NewPdpt(n), pg.i3);
      NewChildPath(t, n, NewPdpt(n), pg.i3);
      if PdPath(o, pg) in t'.at {
        NewChild(t, n, NewPd(n, pg.i3), pg.i2);
        NewChildPath(t, n, NewPd(n, pg.i3), pg.i2);
        assert LinkedAt(ram', t', PdPath(o, pg), pg.i2);
      }
    }
  }

  /** translates every shared page as the kernel's tables do, */
  lemma BuildNewShared(ram: Ram, t: Tree, ram': Ram, n: Skeleton, pg: Page)
    requires NewSpace(ram, t, ram', n) && SharedPage(pg)
    requires forall q {:trigger t.at[q]} | q in t.at :: ram'[t.at[q]] == ram[t.at[q]]
    ensures Walk(ram', n.pml4, pg) == Walk(ram', t.at[Root(Kernel)], pg)
  {
    if pg.i4 == 0 {
      KernelLow(ram, t, pg.i3);
      BuildNewLow(ram, t, ram', n, pg);
    } else {
      assert ram'[n.pml4][pg.i4] == ram'[t.at[Root(Kernel)]][pg.i4];
      hide WalkBelow;
    }
  }

  /** The kernel's entries on the way to gigabyte k of the identity map. */
  lemma KernelLow(ram: Ram, t: Tree, k: Index)
    requires Inv(ram, t) && k < 4
    ensures LowPdpt() in t.at <==> ram[t.at[Root(Kernel)]][0].fl.present
    ensures LowPdpt() in t.at ==> ram[t.at[Root(Kernel)]][0].frame == t.at[LowPdpt()]
    ensures HasLow(t, k) ==> LowPdpt() in t.at
    ensures LowPdpt() in t.at ==> (HasLow(t, k) <==> ram[t.at[LowPdpt()]][k].fl.present)
    ensures HasLow(t, k) ==> ram[t.at[LowPdpt()]][k].frame == t.at[LowPd(k)] && !ram[t.at[LowPdpt()]][k].fl.huge
  {
    assert Level(Root(Kernel)) == 0 && Level(LowPdpt()) == 1;
    assert LinkedAt(ram, t, Root(Kernel), 0);
    if LowPdpt() in t.at {
      assert LinkedAt(ram, t, LowPdpt(), k);
    }
  }

  lemma BuildNewLow(ram: Ram, t: Tree, ram': Ram, n: Skeleton, pg: Page)
    requires NewSpace(ram, t, ram', n) && pg.i4 == 0 && pg.i3 < 4 && !Reserved(pg.i3, pg.i2)
    requires forall q {:trigger t.at[q]} | q in t.at :: ram'[t.at[q]] == ram[t.at[q]]
    requires LowPdpt() in t.at <==> ram[t.at[Root(Kernel)]][0].fl.present
    requires LowPdpt() in t.at ==> ram[t.at[Root(Kernel)]][0].frame == t.at[LowPdpt()]
    requires HasLow(t, pg.i3) ==> LowPdpt() in t.at
    requires LowPdpt() in t.at ==> (HasLow(t, pg.i3) <==> ram[t.at[LowPdpt()]][pg.i3].fl.present)
    requires HasLow(t, pg.i3) ==> ram[t.at[LowPdpt()]][pg.i3].frame == t.at[LowPd(pg.i3)] && !ram[t.at[LowPdpt()]][pg.i3].fl.huge
    ensures Walk(ram', n.pml4, pg) == Walk(ram', t.at[Root(Kernel)], pg)
  {
    hide Linked, Shared, Grow, Matched, NewFrames;
    if HasLow(t, pg.i3) {
      assert ram'[n.pds[pg.i3]][pg.i2] == ram'[n.pds[pg.i3]][pg.i2];
    }
  }

  /** and nothing above 4 GiB in slot 0. */
  lemma BuildNewElsewhere(ram: Ram, t: Tree, ram': Ram, n: Skeleton, pg: Page)
    requires NewSpace(ram, t, ram', n) && pg.i4 == 0 && pg.i3 >= 4
    ensures Walk(ram', n.pml4, pg) == None
  {
  }

  lemma BuildGrants(ram: Ram, t: Tree, ram': Ram, n: Skeleton)
    requires NewSpace(ram, t, ram', n) && Inv(ram', Grow(t, n)) && Granting(ram, t)
    requires forall q {:trigger t.at[q]} | q in t.at :: ram'[t.at[q]] == ram[t.at[q]]
    ensures Granting(ram', Grow(t, n))
  {
    var t' := Grow(t, n);
    forall q, j: Index | Child(q, j) in t'.at && OwnerOf(q).Space? && Level(q) <= 2 ensures GrantsAt(ram', t', q, j) {
      if q in t.at {
        OldChild(t, n, q, j);
        assert GrantsAt(ram, t, q, j);
      } else {
        NewGrants(ram, t, ram', n, q, j);
      }
    }
  }

  lemma NewGrants(ram: Ram, t: Tree, ram': Ram, n: Skeleton, q: Path, j: Index)
    requires NewSpace(ram, t, ram', n) && Inv(ram', Grow(t, n)) && q in Grow(t, n).at && q !in t.at && Child(q, j) in Grow(t, n).at
    ensures GrantsAt(ram', Grow(t, n), q, j)
  {
    assert q in NewPaths(t, n);
    NewChild(t, n, q, j);
    NewChildPath(t, n, q, j);
  }

  lemma SplitGrants(ram: Ram, t: Tree, ram': Ram, p: Path, i: Index, f: nat)
    requires CanSplit(ram, t, ram', p, i, f) && IdentityPd(p) && Granting(ram, t) && Inv(ram', t.Add(Child(p, i), f))
    ensures Granting(ram', t.Add(Child(p, i), f))
  {
    var t' := t.Add(Child(p, i), f);
    assert OwnerOf(p) == Kernel && OwnerOf(Child(p, i)) == Kernel;
    forall q, j: Index | Child(q, j) in t'.at && OwnerOf(q).Space? && Level(q) <= 2 ensures GrantsAt(ram', t', q, j) {
      assert Child(q, j) in t.at;
      assert GrantsAt(ram, t, q, j);
      assert OwnerOf(Child(q, j)) == OwnerOf(q);
    }
  }

  // ---- the loop of create_address_space over the low directories ----

  /** For each low directory the kernel has, a new frame (one of after - before) holds its copy and
      is linked from the new table at pdpt. */
  ghost predicate LowCloned(t: Tree, ram0: Ram, ram: Ram, before: set<nat>, after: set<nat>, pdpt: nat, pds: seq<nat>)
    requires Inv(ram0, t)
  {
    && |pds| <= 4 && |ram| == |ram0| && pdpt < |ram|
    && before <= after
    && (forall f {:trigger f in after} | f in after && f !in before :: exists k: nat {:trigger pds[k]} :: k < |pds| && HasLow(t, k) && pds[k] == f)
    && (forall k: nat {:trigger pds[k]} | k < |pds| :: if HasLow(t, k) then
          pds[k] !in t.role && 0 < pds[k] < MAX_FRAMES && pds[k] !in before && pds[k] in after
        else pds[k] == 0)
    && (forall k: nat, l: nat {:trigger pds[k], pds[l]} | k < l < |pds| && HasLow(t, k) && HasLow(t, l) :: pds[k] != pds[l])
    && (forall g {:trigger ram[g]} | 0 <= g < |ram| && g != pdpt && !(g in after && g !in before) :: ram[g] == ram0[g])
    && (forall i: Index :: ram[pdpt][i] == if i < |pds| && HasLow(t, i) then Entry(pds[i], LINK_FLAGS) else ZERO)
    && (forall k: nat, j: Index {:trigger ram[pds[k]][j]} | k < |pds| && HasLow(t, k) ::
          ram[pds[k]][j] == CopiedEntry(ram0[t.at[LowPd(k)]], k, j))
  }

  lemma LowSize(t: Tree, ram0: Ram, ram: Ram, before: set<nat>, after: set<nat>, pdpt: nat, pds: seq<nat>)
    requires Inv(ram0, t) && LowCloned(t, ram0, ram, before, after, pdpt, pds)
    ensures |ram| == |ram0| && before <= after
  {
  }

  lemma LowStart(t: Tree, ram: Ram, before: set<nat>, pdpt: nat)
    requires Inv(ram, t) && pdpt < |ram| && forall i: Index :: ram[pdpt][i] == ZERO
    ensures LowCloned(t, ram, ram, before, before, pdpt, [])
  {
  }

  lemma LowNone(t: Tree, ram: Ram, before: set<nat>, pdpt: nat)
    requires Inv(ram, t) && pdpt < |ram| && forall i: Index :: ram[pdpt][i] == ZERO
    requires forall k: Index | k < 4 :: !HasLow(t, k)
    ensures LowCloned(t, ram, ram, before, before, pdpt, [0, 0, 0, 0])
  {
  }

  /** One more directory, which the kernel does not have, */
  lemma LowSkip(t: Tree, ram0: Ram, ram: Ram, before: set<nat>, after: set<nat>, pdpt: nat, pds: seq<nat>)
    requires Inv(ram0, t) && LowCloned(t, ram0, ram, before, after, pdpt, pds) && |pds| < 4 && !HasLow(t, |pds|)
    ensures LowCloned(t, ram0, ram, before, after, pdpt, pds + [0])
  {
    hide Linked, Shared, CopiedEntry;
    var pds' := pds + [0];
    assert forall l: nat | l < |pds| :: pds'[l] == pds[l];
    forall f | f in after && f !in before ensures exists l: nat {:trigger pds'[l]} :: l < |pds'| && HasLow(t, l) && pds'[l] == f {
      var l: nat :| l < |pds| && HasLow(t, l) && pds[l] == f;
      assert pds'[l] == f;
    }
  }

  /** or which it does. */
  lemma LowStep(t: Tree, ram0: Ram, ram1: Ram, ram2: Ram, before: set<nat>, mid: set<nat>, pdpt: nat, pds: seq<nat>, pd: nat)
    requires Inv(ram0, t) && LowCloned(t, ram0, ram1, before, mid, pdpt, pds) && |pds| < 4 && |ram2| == |ram1|
    requires pdpt in before && pdpt !in t.role && HasLow(t, |pds|)
    requires 0 < pd < MAX_FRAMES && pd !in t.role && pd !in mid
    requires forall g | 0 <= g < |ram2| && g != pd && g != pdpt :: ram2[g] == ram1[g]
    requires ram2[pdpt][|pds|] == Entry(pd, LINK_FLAGS) && (forall i: Index | i != |pds| :: ram2[pdpt][i] == ram1[pdpt][i])
    requires forall j: Index :: ram2[pd][j] == CopiedEntry(ram2[t.at[LowPd(|pds|)]], |pds|, j)
    ensures LowCloned(t, ram0, ram2, before, mid + {pd}, pdpt, pds + [pd])
  {
    hide Linked, Shared, CopiedEntry;
    var pds' := pds + [pd];
    assert forall l: nat | l < |pds| :: pds'[l] == pds[l];
    assert pds'[|pds|] == pd;
    LowSource(t, ram0, ram1, before, mid, pdpt, pds, |pds|);
    LowFrames(t, before, mid, pds, pd);
  }

  /** The kernel's directories are not written. */
  lemma LowSource(t: Tree, ram0: Ram, ram: Ram, before: set<nat>, after: set<nat>, pdpt: nat, pds: seq<nat>, k: Index)
    requires Inv(ram0, t) && LowCloned(t, ram0, ram, before, after, pdpt, pds) && pdpt !in t.role && HasLow(t, k)
    ensures ram[t.at[LowPd(k)]] == ram0[t.at[LowPd(k)]] && t.at[LowPd(k)] in t.role
  {
  }

  lemma LowFrames(t: Tree, before: set<nat>, mid: set<nat>, pds: seq<nat>, pd: nat)
    requires |pds| < 4 && HasLow(t, |pds|)
    requires forall f {:trigger f in mid} | f in mid && f !in before :: exists k: nat {:trigger pds[k]} :: k < |pds| && HasLow(t, k) && pds[k] == f
    ensures forall f {:trigger f in mid + {pd}} | f in mid + {pd} && f !in before ::
      exists k: nat {:trigger (pds + [pd])[k]} :: k < |pds| + 1 && HasLow(t, k) && (pds + [pd])[k] == f
  {
    var pds' := pds + [pd];
    forall f | f in mid + {pd} && f !in before ensures exists l: nat {:trigger pds'[l]} :: l < |pds'| && HasLow(t, l) && pds'[l] == f {
      if f in mid {
        var l: nat :| l < |pds| && HasLow(t, l) && pds[l] == f;
        assert pds'[l] == f;
      } else {
        assert pds'[|pds|] == f;
      }
    }
  }

  /** The PML4 of a new space before slot 0 is linked. */
  ghost predicate SlotsShared(ram: Ram, t: Tree, ram1: Ram, pml4: nat)
    requires Inv(ram, t)
  {
    && OnlyFrame(ram, ram1, pml4) && pml4 < |ram|
    && forall i: Index :: ram1[pml4][i] == if i == HEAP_SLOT || i == PHYSMAP_SLOT then ram[t.at[Root(Kernel)]][i] else ZERO
  }

  /** The allocations and stores of create_address_space add up to a finished space. */
  lemma StepsBuild(ram0: Ram, t: Tree, ram1: Ram, ram2: Ram, ram3: Ram, ram4: Ram, before: set<nat>, after: set<nat>, n: Skeleton)
    requires Inv(ram0, t) && SlotsShared(ram0, t, ram1, n.pml4)
    requires n.pml4 !in t.role && 0 < n.pml4 < MAX_FRAMES && n.pdpt !in t.role && 0 < n.pdpt < MAX_FRAMES && n.pdpt != n.pml4
    requires OnlyFrame(ram1, ram2, n.pdpt) && Inv(ram2, t)
    requires n.pml4 in before && n.pdpt in before && |n.pds| == 4
    requires LowCloned(t, ram2, ram3, before, after, n.pdpt, n.pds)
    requires Wrote(ram3, ram4, n.pml4, 0, Entry(n.pdpt, LINK_FLAGS))
    ensures FreshSkeleton(t, n)
    ensures Built(ram0, t, ram4, n)
  {
    hide Linked, Shared, CopiedEntry;
    StepsFresh(t, ram2, ram3, before, after, n);
    forall k: Index | k < 4 && HasLow(t, k) ensures ram2[t.at[LowPd(k)]] == ram0[t.at[LowPd(k)]] {
      assert t.at[LowPd(k)] in t.role;
    }
    forall f | f in after && f !in before ensures f in NewFrames(t, n) {
      var k: nat :| k < 4 && HasLow(t, k) && n.pds[k] == f;
    }
  }

  lemma StepsFresh(t: Tree, ram2: Ram, ram3: Ram, before: set<nat>, after: set<nat>, n: Skeleton)
    requires Inv(ram2, t) && |n.pds| == 4
    requires n.pml4 !in t.role && 0 < n.pml4 < MAX_FRAMES && n.pdpt !in t.role && 0 < n.pdpt < MAX_FRAMES && n.pdpt != n.pml4
    requires n.pml4 in before && n.pdpt in before && LowCloned(t, ram2, ram3, before, after, n.pdpt, n.pds)
    ensures FreshSkeleton(t, n)
    ensures after == before + NewFrames(t, n)
    ensures forall f | f in NewFrames(t, n) :: f == n.pml4 || f == n.pdpt || f !in before
  {
    hide Linked, Shared, CopiedEntry;
    forall f | f in after && f !in before ensures f in NewFrames(t, n) {
      var k: nat :| k < 4 && HasLow(t, k) && n.pds[k] == f;
    }
  }
}
