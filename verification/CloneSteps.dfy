/** Copying a space page by page: what holds after each page of the sweep. */
module CloneSteps {
  import opened Options
  import opened FrameBitmap
  import opened PageTables
  import opened PageTableSteps
  import opened SpaceSteps
  import opened MappingSteps

  /** The order in which the nested loops meet the pages. */
  function Num(pg: Page): nat {
    ((pg.i4 * 512 + pg.i3) * 512 + pg.i2) * 512 + pg.i1
  }

  /** The flags clone_leaf keeps. */
  function CloneFlags(fl: Flags): Flags {
    Flags(fl.present, fl.writable, fl.user, false, fl.nx, 0, 0)
  }

  /** Page pg of dst is a private copy of page pg of src: both unmapped, or two frames with equal
      contents and the same permissions. */
  ghost predicate Copied(ram: Ram, t: Tree, src: nat, dst: nat, pg: Page)
    requires Inv(ram, t)
  {
    match (TreeWalk(ram, t, Space(src), pg), TreeWalk(ram, t, Space(dst), pg))
    case (None, None) => true
    case (Some(a), Some(b)) =>
      a.frame < |ram| && b.frame < |ram| && a.frame != b.frame && ram[b.frame] == ram[a.frame] && b.fl == CloneFlags(a.fl)
    case _ => false
  }

  /** The sweep has copied the pages below c and none from c on. */
  ghost predicate Partial(ram: Ram, t: Tree, src: nat, dst: nat, c: nat)
    requires Inv(ram, t)
  {
    && (forall pg {:trigger TreeWalk(ram, t, Space(dst), pg)} {:trigger Copied(ram, t, src, dst, pg)} | Private(pg) && Num(pg) < c :: Copied(ram, t, src, dst, pg))
    && (forall pg {:trigger TreeWalk(ram, t, Space(dst), pg)} | Private(pg) && c <= Num(pg) :: TreeWalk(ram, t, Space(dst), pg) == None)
  }

  /** Nothing that does not belong to the space dst has changed. */
  ghost predicate OthersKept(ram: Ram, t: Tree, ram': Ram, t': Tree, dst: nat) {
    && |ram'| == |ram|
    && (forall p {:trigger p in t.at} {:trigger p in t'.at} | OwnerOf(p) != Space(dst) :: p in t'.at <==> p in t.at)
    && (forall p {:trigger t'.at[p]} | p in t.at && OwnerOf(p) != Space(dst) :: p in t'.at && t'.at[p] == t.at[p])
    && (forall f {:trigger ram'[f]} | 0 <= f < |ram| && !(f in t'.role && OwnerOf(t'.role[f]) == Space(dst)) :: ram'[f] == ram[f])
    && (forall f {:trigger f in t.role} | f in t.role && OwnerOf(t.role[f]) == Space(dst) :: f in t'.role && t'.role[f] == t.role[f])
  }

  lemma OthersKeptTrans(ram0: Ram, t0: Tree, ram1: Ram, t1: Tree, ram2: Ram, t2: Tree, dst: nat)
    requires OthersKept(ram0, t0, ram1, t1, dst) && OthersKept(ram1, t1, ram2, t2, dst)
    ensures OthersKept(ram0, t0, ram2, t2, dst)
  {
  }

  /** A stretch of pages that src does not map needs no copy. */
  lemma Skip(ram: Ram, t: Tree, src: nat, dst: nat, c: nat, c': nat)
    requires Inv(ram, t) && Partial(ram, t, src, dst, c) && c <= c'
    requires forall pg {:trigger TreeWalk(ram, t, Space(src), pg)} | Private(pg) && c <= Num(pg) < c' :: TreeWalk(ram, t, Space(src), pg) == None
    ensures Partial(ram, t, src, dst, c')
  {
    hide TreeWalk, Private, Num;
    forall pg | Private(pg) && Num(pg) < c' ensures Copied(ram, t, src, dst, pg) {
      if c <= Num(pg) {
        assert TreeWalk(ram, t, Space(src), pg) == None;
        assert TreeWalk(ram, t, Space(dst), pg) == None;
      }
    }
  }

  lemma Digit(x: nat, y: nat, i: Index, j: Index)
    requires x * 512 + i == y * 512 + j
    ensures x == y && i == j
  {
  }

  lemma NumInjective(a: Page, b: Page)
    requires Num(a) == Num(b)
    ensures a == b
  {
    Digit((a.i4 * 512 + a.i3) * 512 + a.i2, (b.i4 * 512 + b.i3) * 512 + b.i2, a.i1, b.i1);
    Digit(a.i4 * 512 + a.i3, b.i4 * 512 + b.i3, a.i2, b.i2);
    Digit(a.i4, b.i4, a.i3, b.i3);
  }

  /** The pages under one page table, one directory, one PDPT. */
  lemma NumPrefix(pg: Page, i4: Index, i3: Index, i2: Index)
    ensures ((i4 * 512 + i3) * 512 + i2) * 512 <= Num(pg) < ((i4 * 512 + i3) * 512 + i2) * 512 + 512 <==> pg.i4 == i4 && pg.i3 == i3 && pg.i2 == i2
  {
    var x, y := (pg.i4 * 512 + pg.i3) * 512 + pg.i2, (i4 * 512 + i3) * 512 + i2;
    assert y * 512 <= x * 512 + pg.i1 < y * 512 + 512 <==> x == y;
    if x == y {
      Digit(pg.i4 * 512 + pg.i3, i4 * 512 + i3, pg.i2, i2);
      Digit(pg.i4, i4, pg.i3, i3);
    }
  }

  lemma NumRow(i4: Index, i3: Index, i2: Index)
    ensures Num(Page(i4, i3, i2, 0)) == Num(Page(i4, i3, 0, 0)) + i2 * 512 && Num(Page(0, 0, 0, 0)) == 0
  {
    var x: int := i4 * 512 + i3;
    assert Num(Page(i4, i3, i2, 0)) == (x * 512 + i2) * 512 && Num(Page(i4, i3, 0, 0)) == x * 512 * 512;
  }

  lemma NumPrefix2(pg: Page, i4: Index, i3: Index)
    ensures (i4 * 512 + i3) * 512 * 512 <= Num(pg) < (i4 * 512 + i3) * 512 * 512 + 512 * 512 <==> pg.i4 == i4 && pg.i3 == i3
  {
  }

  lemma NumPrefix1(pg: Page, i4: Index)
    ensures i4 * 512 * 512 * 512 <= Num(pg) < i4 * 512 * 512 * 512 + 512 * 512 * 512 <==> pg.i4 == i4
  {
  }

  /** clone_leaf: a fresh frame f, filled from the source page, is mapped at pg in dst. */
  ghost predicate LeafCloned(ram0: Ram, t0: Tree, ram1: Ram, ram2: Ram, t2: Tree, src: nat, dst: nat, pg: Page, f: nat) {
    && Good(ram0, t0) && Good(ram1, t0) && Good(ram2, t2) && src != dst && Private(pg)
    && f < |ram0| && f !in t0.role && OnlyFrame(ram0, ram1, f)
    && TreeWalk(ram0, t0, Space(src), pg).Some?
    && TreeWalk(ram0, t0, Space(src), pg).value.frame < |ram0|
    && ram1[f] == ram0[TreeWalk(ram0, t0, Space(src), pg).value.frame]
    && MapStep(ram1, t0, ram2, t2, Space(dst), pg, f, CloneFlags(TreeWalk(ram0, t0, Space(src), pg).value.fl))
  }

  /** The other private pages of both spaces translate as before. */
  lemma CloneWalks(ram0: Ram, t0: Tree, ram1: Ram, ram2: Ram, t2: Tree, src: nat, dst: nat, pg: Page, f: nat, o: Owner, pg': Page)
    requires LeafCloned(ram0, t0, ram1, ram2, t2, src, dst, pg, f)
    requires o.Space? && Private(pg') && (o, pg') != (Space(dst), pg)
    ensures TreeWalk(ram2, t2, o, pg') == TreeWalk(ram0, t0, o, pg')
  {
    hide Private;
    TrackedIsPrivate(o.root, pg');
    hide TreeWalk, Inv, Granting, Tracked;
    CloneData(ram0, t0, ram1, f, o, pg');
    assert KeptPage(o, pg', TreeWalk(ram1, t0, o, pg'), TreeWalk(ram2, t2, o, pg'));
  }

  lemma CloneData(ram0: Ram, t0: Tree, ram1: Ram, f: nat, o: Owner, pg: Page)
    requires Inv(ram0, t0) && Inv(ram1, t0) && f !in t0.role && OnlyFrame(ram0, ram1, f)
    ensures TreeWalk(ram1, t0, o, pg) == TreeWalk(ram0, t0, o, pg)
  {
  }

  /** A mapped private page keeps its contents while another page is cloned. */
  lemma CloneContents(ram0: Ram, t0: Tree, ram1: Ram, ram2: Ram, t2: Tree, src: nat, dst: nat, pg: Page, f: nat, o: Owner, pg': Page)
    requires LeafCloned(ram0, t0, ram1, ram2, t2, src, dst, pg, f)
    requires o.Space? && Private(pg') && (o, pg') != (Space(dst), pg) && TreeWalk(ram0, t0, o, pg').Some?
    ensures var a := TreeWalk(ram0, t0, o, pg').value.frame;
            a < |ram0| && a != f && ram2[a] == ram0[a]
  {
    TrackedIsPrivate(o.root, pg');
    MappedFrame(ram0, t0, o, pg');
    var a := TreeWalk(ram0, t0, o, pg').value.frame;
    OwnSteps(o, pg');
    assert a in t0.role && t0.role[a] == Leaf(o, pg');
    OwnSteps(Space(dst), pg);
    assert Leaf(o, pg') != Leaf(Space(dst), pg);
    assert Leaf(o, pg') in t2.at && t2.at[Leaf(o, pg')] == a;
    assert t2.role[a] == Leaf(o, pg');
  }

  lemma CloneCopied(ram0: Ram, t0: Tree, ram1: Ram, ram2: Ram, t2: Tree, src: nat, dst: nat, pg: Page, f: nat, pg': Page)
    requires LeafCloned(ram0, t0, ram1, ram2, t2, src, dst, pg, f)
    requires Private(pg') && pg' != pg && Copied(ram0, t0, src, dst, pg')
    ensures Copied(ram2, t2, src, dst, pg')
  {
    hide Private, MapStep, Granting, Linked, Shared;
    CloneWalks(ram0, t0, ram1, ram2, t2, src, dst, pg, f, Space(src), pg');
    CloneWalks(ram0, t0, ram1, ram2, t2, src, dst, pg, f, Space(dst), pg');
    hide TreeWalk;
    if TreeWalk(ram0, t0, Space(src), pg').Some? {
      CloneContents(ram0, t0, ram1, ram2, t2, src, dst, pg, f, Space(src), pg');
      CloneContents(ram0, t0, ram1, ram2, t2, src, dst, pg, f, Space(dst), pg');
    }
  }

  /** The cloned page itself. */
  lemma CloneThis(ram0: Ram, t0: Tree, ram1: Ram, ram2: Ram, t2: Tree, src: nat, dst: nat, pg: Page, f: nat)
    requires LeafCloned(ram0, t0, ram1, ram2, t2, src, dst, pg, f)
    ensures Copied(ram2, t2, src, dst, pg)
  {
    CloneWalks(ram0, t0, ram1, ram2, t2, src, dst, pg, f, Space(src), pg);
    CloneContents(ram0, t0, ram1, ram2, t2, src, dst, pg, f, Space(src), pg);
    TrackedIsPrivate(dst, pg);
    OwnSteps(Space(dst), pg);
    assert t2.role[f] == Leaf(Space(dst), pg);
  }

  /** One page further. */
  lemma CloneOne(ram0: Ram, t0: Tree, ram1: Ram, ram2: Ram, t2: Tree, src: nat, dst: nat, pg: Page, f: nat)
    requires LeafCloned(ram0, t0, ram1, ram2, t2, src, dst, pg, f) && Partial(ram0, t0, src, dst, Num(pg))
    ensures Partial(ram2, t2, src, dst, Num(pg) + 1)
  {
    hide Private, MapStep, Granting, Inv, TreeWalk, Copied, Num;
    forall pg' | Private(pg') && Num(pg') < Num(pg) + 1 ensures Copied(ram2, t2, src, dst, pg') {
      if Num(pg') == Num(pg) {
        NumInjective(pg', pg);
        CloneThis(ram0, t0, ram1, ram2, t2, src, dst, pg, f);
      } else {
        assert TreeWalk(ram0, t0, Space(dst), pg') == TreeWalk(ram0, t0, Space(dst), pg');
        CloneCopied(ram0, t0, ram1, ram2, t2, src, dst, pg, f, pg');
      }
    }
    forall pg' | Private(pg') && Num(pg) + 1 <= Num(pg') ensures TreeWalk(ram2, t2, Space(dst), pg') == None {
      CloneWalks(ram0, t0, ram1, ram2, t2, src, dst, pg, f, Space(dst), pg');
    }
  }

  lemma CloneOthers(ram0: Ram, t0: Tree, ram1: Ram, ram2: Ram, t2: Tree, src: nat, dst: nat, pg: Page, f: nat)
    requires LeafCloned(ram0, t0, ram1, ram2, t2, src, dst, pg, f) && Leaf(Space(dst), pg) !in t0.at
    ensures OthersKept(ram0, t0, ram2, t2, dst)
  {
    hide TreeWalk, Granting, Linked, Shared, KeptWalksBut;
    TrackedIsPrivate(dst, pg);
    OwnSteps(Space(dst), pg);
    assert t2.at[Leaf(Space(dst), pg)] == f;
    forall g | g in t0.role && OwnerOf(t0.role[g]) == Space(dst) ensures g in t2.role && t2.role[g] == t0.role[g] {
      assert t0.at[t0.role[g]] == g;
    }
  }

  /** A missing table means a stretch of pages without translation. */
  lemma NoPt(ram: Ram, t: Tree, s: nat, i4: Index, i3: Index, i2: Index)
    requires Good(ram, t) && Root(Space(s)) in t.at && OwnPt(s, i4, i3, i2)
    requires PdPath(Space(s), Page(i4, i3, i2, 0)) in t.at
    requires !ram[t.at[PdPath(Space(s), Page(i4, i3, i2, 0))]][i2].fl.present
    ensures forall pg: Page {:trigger TreeWalk(ram, t, Space(s), pg)} | pg.i4 == i4 && pg.i3 == i3 && pg.i2 == i2 :: TreeWalk(ram, t, Space(s), pg) == None
  {
    forall pg: Page | pg.i4 == i4 && pg.i3 == i3 && pg.i2 == i2 ensures TreeWalk(ram, t, Space(s), pg) == None {
      NoTableNoPage(ram, t, Space(s), pg);
    }
  }

  /** The pages of this page table are private. */
  predicate OwnPt(s: nat, i4: Index, i3: Index, i2: Index) {
    Tracked(Space(s), Page(i4, i3, i2, 0))
  }

  lemma NoPd(ram: Ram, t: Tree, s: nat, i4: Index, i3: Index)
    requires Good(ram, t) && PdPath(Space(s), Page(i4, i3, 0, 0)) !in t.at
    ensures forall pg {:trigger TreeWalk(ram, t, Space(s), pg)} | Private(pg) && pg.i4 == i4 && pg.i3 == i3 :: TreeWalk(ram, t, Space(s), pg) == None
  {
    forall pg | Private(pg) && pg.i4 == i4 && pg.i3 == i3 ensures TreeWalk(ram, t, Space(s), pg) == None {
      TrackedIsPrivate(s, pg);
      NoTableNoPage(ram, t, Space(s), pg);
    }
  }

  lemma NoPdpt(ram: Ram, t: Tree, s: nat, i4: Index)
    requires Good(ram, t) && Child(Root(Space(s)), i4) !in t.at
    ensures forall pg {:trigger TreeWalk(ram, t, Space(s), pg)} | Private(pg) && pg.i4 == i4 :: TreeWalk(ram, t, Space(s), pg) == None
  {
    forall pg | Private(pg) && pg.i4 == i4 ensures TreeWalk(ram, t, Space(s), pg) == None {
      assert PdPath(Space(s), pg) !in t.at;
      NoPd(ram, t, s, pg.i4, pg.i3);
    }
  }

  lemma OthersKeptRefl(ram: Ram, t: Tree, dst: nat)
    ensures OthersKept(ram, t, ram, t, dst)
  {
  }

  lemma SamePrivate(a: Page, b: Page)
    requires a.i4 == b.i4 && a.i3 == b.i3 && a.i2 == b.i2
    ensures Private(a) <==> Private(b)
  {
  }

  lemma SkipOne(ram: Ram, t: Tree, src: nat, dst: nat, pg: Page)
    requires Inv(ram, t) && Partial(ram, t, src, dst, Num(pg)) && TreeWalk(ram, t, Space(src), pg) == None
    ensures Partial(ram, t, src, dst, Num(pg) + 1)
  {
    forall pg' | Private(pg') && Num(pg) <= Num(pg') < Num(pg) + 1 ensures TreeWalk(ram, t, Space(src), pg') == None {
      NumInjective(pg', pg);
    }
    Skip(ram, t, src, dst, Num(pg), Num(pg) + 1);
  }

  /** The source keeps its tables while the destination grows. */
  lemma PtStays(ram: Ram, t: Tree, ram': Ram, t': Tree, src: nat, dst: nat, i4: Index, i3: Index, i2: Index)
    requires OthersKept(ram, t, ram', t', dst) && src != dst
    ensures forall p | p in t.at && OwnerOf(p) == Space(src) :: p in t'.at && t'.at[p] == t.at[p]
    ensures PtPath(Space(src), Page(i4, i3, i2, 0)) in t.at ==>
      PtPath(Space(src), Page(i4, i3, i2, 0)) in t'.at && t'.at[PtPath(Space(src), Page(i4, i3, i2, 0))] == t.at[PtPath(Space(src), Page(i4, i3, i2, 0))]
    ensures PdPath(Space(src), Page(i4, i3, i2, 0)) in t.at ==>
      PdPath(Space(src), Page(i4, i3, i2, 0)) in t'.at && t'.at[PdPath(Space(src), Page(i4, i3, i2, 0))] == t.at[PdPath(Space(src), Page(i4, i3, i2, 0))]
    ensures Child(Root(Space(src)), i4) in t.at ==>
      Child(Root(Space(src)), i4) in t'.at && t'.at[Child(Root(Space(src)), i4)] == t.at[Child(Root(Space(src)), i4)]
  {
    OwnSteps(Space(src), Page(i4, i3, i2, 0));
    assert OwnerOf(Root(Space(src))) == Space(src) && OwnerOf(Child(Root(Space(src)), i4)) == Space(src);
  }

  lemma NumBound(pg: Page)
    ensures Num(pg) < 512 * 0x800_0000
  {
  }

  lemma PrivateSlot(pg: Page)
    requires pg.i4 != 0 && pg.i4 != HEAP_SLOT && pg.i4 != PHYSMAP_SLOT
    ensures Private(pg)
  {
  }

  lemma PrivateWindow(i2: Index)
    ensures Private(Page(0, 0, i2, 0)) <==> 1 <= i2 < 8
  {
  }

  lemma SkipPt(ram: Ram, t: Tree, src: nat, dst: nat, i4: Index, i3: Index, i2: Index)
    requires Good(ram, t) && Root(Space(src)) in t.at && OwnPt(src, i4, i3, i2)
    requires PdPath(Space(src), Page(i4, i3, i2, 0)) in t.at
    requires !ram[t.at[PdPath(Space(src), Page(i4, i3, i2, 0))]][i2].fl.present
    requires Partial(ram, t, src, dst, Num(Page(i4, i3, i2, 0)))
    ensures Partial(ram, t, src, dst, Num(Page(i4, i3, i2, 0)) + 512)
  {
    hide Partial, TreeWalk, Private;
    NoPt(ram, t, src, i4, i3, i2);
    var c := Num(Page(i4, i3, i2, 0));
    forall pg | Private(pg) && c <= Num(pg) < c + 512 ensures TreeWalk(ram, t, Space(src), pg) == None {
      NumPrefix(pg, i4, i3, i2);
    }
    Skip(ram, t, src, dst, c, c + 512);
  }

  /** Outside the window, slot 0 holds nothing private. */
  lemma SkipBorrowed(ram: Ram, t: Tree, src: nat, dst: nat, i2: Index)
    requires Inv(ram, t) && Partial(ram, t, src, dst, i2 * 512) && !(1 <= i2 < 8)
    ensures Partial(ram, t, src, dst, (i2 + 1) * 512)
  {
    hide Partial, TreeWalk;
    forall pg | i2 * 512 <= Num(pg) < (i2 + 1) * 512 ensures !Private(pg) {
      NumPrefix(pg, 0, 0, i2);
    }
    Skip(ram, t, src, dst, i2 * 512, (i2 + 1) * 512);
  }

  lemma SkipSlot0(ram: Ram, t: Tree, src: nat, dst: nat)
    requires Inv(ram, t) && Partial(ram, t, src, dst, 0x4_0000)
    ensures Partial(ram, t, src, dst, 0x800_0000)
  {
    hide Partial, TreeWalk;
    forall pg | 0x4_0000 <= Num(pg) < 0x800_0000 ensures !Private(pg) {
      NumPrefix1(pg, 0);
      NumPrefix2(pg, 0, 0);
    }
    Skip(ram, t, src, dst, 0x4_0000, 0x800_0000);
  }

  lemma SkipPd(ram: Ram, t: Tree, src: nat, dst: nat, i4: Index, i3: Index)
    requires Good(ram, t) && PdPath(Space(src), Page(i4, i3, 0, 0)) !in t.at && Partial(ram, t, src, dst, Num(Page(i4, i3, 0, 0)))
    ensures Partial(ram, t, src, dst, Num(Page(i4, i3, 0, 0)) + 0x4_0000)
  {
    hide Partial, TreeWalk, Private;
    NoPd(ram, t, src, i4, i3);
    var c := Num(Page(i4, i3, 0, 0));
    forall pg | Private(pg) && c <= Num(pg) < c + 0x4_0000 ensures TreeWalk(ram, t, Space(src), pg) == None {
      NumPrefix2(pg, i4, i3);
    }
    Skip(ram, t, src, dst, c, c + 0x4_0000);
  }

  /** A slot that is absent, or shared and so not private. */
  lemma SkipSlot(ram: Ram, t: Tree, src: nat, dst: nat, i4: Index)
    requires Good(ram, t) && Partial(ram, t, src, dst, i4 * 0x800_0000)
    requires Child(Root(Space(src)), i4) !in t.at || i4 == HEAP_SLOT || i4 == PHYSMAP_SLOT
    ensures Partial(ram, t, src, dst, (i4 + 1) * 0x800_0000)
  {
    hide Partial, TreeWalk;
    var c := i4 * 0x800_0000;
    forall pg | Private(pg) && c <= Num(pg) < c + 0x800_0000 ensures TreeWalk(ram, t, Space(src), pg) == None {
      NumPrefix1(pg, i4);
      NoPdpt(ram, t, src, i4);
    }
    Skip(ram, t, src, dst, c, c + 0x800_0000);
  }

  /** The sweep starts with an empty destination */
  lemma StartSweep(ram: Ram, t: Tree, src: nat, dst: nat)
    requires Inv(ram, t)
    requires forall pg {:trigger TreeWalk(ram, t, Space(dst), pg)} | Private(pg) :: TreeWalk(ram, t, Space(dst), pg) == None
    ensures Partial(ram, t, src, dst, 0)
  {
    hide TreeWalk, Private, Copied;
  }

  /** and ends with a full copy. */
  lemma EndSweep(ram: Ram, t: Tree, src: nat, dst: nat)
    requires Inv(ram, t) && Partial(ram, t, src, dst, 512 * 0x800_0000)
    ensures forall pg {:trigger TreeWalk(ram, t, Space(dst), pg)} {:trigger Copied(ram, t, src, dst, pg)} | Private(pg) :: Copied(ram, t, src, dst, pg)
  {
    hide TreeWalk, Private, Num, Copied;
    forall pg ensures Num(pg) < 512 * 0x800_0000 { NumBound(pg); }
  }

  /** The source's way to its window. */
  lemma WindowEntries(ram: Ram, t: Tree, s: nat)
    requires Good(ram, t) && Root(Space(s)) in t.at
    ensures t.at[Root(Space(s))] == s
    ensures ram[s][0].fl.present <==> Child(Root(Space(s)), 0) in t.at
    ensures Child(Root(Space(s)), 0) in t.at ==> ram[s][0].frame == t.at[Child(Root(Space(s)), 0)]
    ensures Child(Root(Space(s)), 0) in t.at ==> (ram[ram[s][0].frame][0].fl.present <==> PdPath(Space(s), Page(0, 0, 0, 0)) in t.at)
    ensures PdPath(Space(s), Page(0, 0, 0, 0)) in t.at ==>
      Child(Root(Space(s)), 0) in t.at && ram[ram[s][0].frame][0].frame == t.at[PdPath(Space(s), Page(0, 0, 0, 0))]
  {
    TrackedIsPrivate(s, Page(0, 0, 1, 0));
    PrivateWindow(1);
    UpperEntries(ram, t, Space(s), Page(0, 0, 1, 0));
  }
}
