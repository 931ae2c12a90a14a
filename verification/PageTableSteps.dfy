/** What each single store to a page table does to the invariant and to every translation. */
module PageTableSteps {
  import opened Options
  import opened FrameBitmap
  import opened PageTables

  /** Every tracked page of every owner translates as before. */
  ghost predicate SameWalks(ram: Ram, t: Tree, ram': Ram, t': Tree)
    requires Inv(ram, t) && Inv(ram', t')
  {
    forall o, pg {:trigger TreeWalk(ram', t', o, pg)} | Tracked(o, pg) :: TreeWalk(ram', t', o, pg) == TreeWalk(ram, t, o, pg)
  }

  /** As SameWalks, for all pages but one. */
  ghost predicate SameWalksBut(ram: Ram, t: Tree, ram': Ram, t': Tree, owner: Owner, page: Page)
    requires Inv(ram, t) && Inv(ram', t')
  {
    forall o, pg {:trigger TreeWalk(ram', t', o, pg)} | Tracked(o, pg) && (o, pg) != (owner, page) ::
      TreeWalk(ram', t', o, pg) == TreeWalk(ram, t, o, pg)
  }

  /** ram' is ram with entry i of frame f replaced by e. */
  ghost predicate Wrote(ram: Ram, ram': Ram, f: nat, i: Index, e: Entry) {
    && |ram'| == |ram| && f < |ram|
    && (forall g | 0 <= g < |ram| && g != f :: ram'[g] == ram[g])
    && ram'[f][i] == e
    && (forall j: Index | j != i :: ram'[f][j] == ram[f][j])
  }

  /** ram' is ram with a zeroed table put into frame f and linked from entry i of frame g. */
  ghost predicate LinkedNew(ram: Ram, ram': Ram, f: nat, g: nat, i: Index, fl: Flags) {
    && |ram'| == |ram| && f < |ram| && g < |ram| && f != g
    && (forall h | 0 <= h < |ram| && h != f && h != g :: ram'[h] == ram[h])
    && ram'[g][i] == Entry(f, fl)
    && (forall j: Index | j != i :: ram'[g][j] == ram[g][j])
    && (forall j: Index :: ram'[f][j] == ZERO)
  }

  lemma AddShaped(t: Tree, p: Path, i: Index, f: nat)
    requires Shaped(t) && p in t.at && Level(p) < 4 && OwnStep(p, i) && Child(p, i) !in t.at
    requires f !in t.role && 0 < f < MAX_FRAMES
    ensures Shaped(t.Add(Child(p, i), f))
  {
    hide OwnStep;
    assert Own(Child(p, i)) && Level(Child(p, i)) == Level(p) + 1;
  }

  /** The side conditions of linking a fresh frame f in as child i of p. */
  ghost predicate CanAdd(ram: Ram, t: Tree, p: Path, i: Index, f: nat, fl: Flags) {
    && Inv(ram, t) && p in t.at && Level(p) <= 2 && OwnStep(p, i) && Child(p, i) !in t.at
    && f !in t.role && 0 < f < MAX_FRAMES && fl.present && !fl.huge
  }

  lemma AddLinkedNew(ram: Ram, t: Tree, ram': Ram, p: Path, i: Index, f: nat, fl: Flags, j: Index)
    requires CanAdd(ram, t, p, i, f, fl) && LinkedNew(ram, ram', f, t.at[p], i, fl)
    ensures LinkedAt(ram', t.Add(Child(p, i), f), Child(p, i), j)
  {
    var q := Child(p, i);
    assert Level(Child(q, j)) == Level(q) + 1;
    assert Child(q, j) != q && Child(q, j) !in t.at;
  }

  lemma AddLinkedOld(ram: Ram, t: Tree, ram': Ram, p: Path, i: Index, f: nat, fl: Flags, q: Path, j: Index)
    requires CanAdd(ram, t, p, i, f, fl) && LinkedNew(ram, ram', f, t.at[p], i, fl)
    requires q in t.at && Level(q) < 4 && OwnStep(q, j)
    ensures LinkedAt(ram', t.Add(Child(p, i), f), q, j)
  {
    assert LinkedAt(ram, t, q, j);
  }

  /** ensure_table on an absent entry: a zeroed frame is linked in. */
  lemma AddTable(ram: Ram, t: Tree, ram': Ram, p: Path, i: Index, f: nat, fl: Flags)
    requires CanAdd(ram, t, p, i, f, fl) && LinkedNew(ram, ram', f, t.at[p], i, fl)
    requires !ram[t.at[p]][i].fl.present
    ensures Inv(ram', t.Add(Child(p, i), f)) && SameWalks(ram, t, ram', t.Add(Child(p, i), f))
  {
    var t' := t.Add(Child(p, i), f);
    AddShaped(t, p, i, f);
    forall q, j: Index | q in t'.at && Level(q) < 4 && OwnStep(q, j) ensures LinkedAt(ram', t', q, j) {
      if q == Child(p, i) {
        AddLinkedNew(ram, t, ram', p, i, f, fl, j);
      } else {
        AddLinkedOld(ram, t, ram', p, i, f, fl, q, j);
      }
    }
    AddShared(ram, t, ram', p, i, f, fl);
    AddWalks(ram, t, ram', p, i, f, fl);
  }

  lemma AddShared(ram: Ram, t: Tree, ram': Ram, p: Path, i: Index, f: nat, fl: Flags)
    requires CanAdd(ram, t, p, i, f, fl) && LinkedNew(ram, ram', f, t.at[p], i, fl)
    requires Shaped(t.Add(Child(p, i), f))
    ensures Shared(ram', t.Add(Child(p, i), f))
  {
    var t' := t.Add(Child(p, i), f);
    var k := t.at[Root(Kernel)];
    forall s: nat | Root(Space(s)) in t'.at
      ensures ram'[s][HEAP_SLOT] == ram[s][HEAP_SLOT] && ram'[s][PHYSMAP_SLOT] == ram[s][PHYSMAP_SLOT]
      ensures ram'[k][HEAP_SLOT] == ram[k][HEAP_SLOT] && ram'[k][PHYSMAP_SLOT] == ram[k][PHYSMAP_SLOT]
    {
      assert Root(Space(s)) in t.at;
    }
  }

  lemma AddWalks(ram: Ram, t: Tree, ram': Ram, p: Path, i: Index, f: nat, fl: Flags)
    requires CanAdd(ram, t, p, i, f, fl) && LinkedNew(ram, ram', f, t.at[p], i, fl)
    requires !ram[t.at[p]][i].fl.present
    requires Inv(ram', t.Add(Child(p, i), f))
    ensures SameWalks(ram, t, ram', t.Add(Child(p, i), f))
  {
    hide Own;
    hide OwnStep;
    var t' := t.Add(Child(p, i), f);
    forall o, pg | Tracked(o, pg) ensures TreeWalk(ram', t', o, pg) == TreeWalk(ram, t, o, pg) {
      OwnSteps(o, pg);
    }
  }

  // ---- widening an entry ----

  function Widened(e: Entry, writable: bool, user: bool): Entry {
    e.(fl := e.fl.(writable := e.fl.writable || writable, user := e.fl.user || user))
  }

  /** The side conditions of widening entry i of the table at p. */
  ghost predicate CanWiden(ram: Ram, t: Tree, ram': Ram, p: Path, i: Index, writable: bool, user: bool) {
    && Inv(ram, t) && p in t.at && Level(p) <= 2 && OwnStep(p, i) && Child(p, i) in t.at
    && (p == Root(Kernel) && i == HEAP_SLOT ==> Widened(ram[t.at[p]][i], writable, user) == ram[t.at[p]][i])
    && Wrote(ram, ram', t.at[p], i, Widened(ram[t.at[p]][i], writable, user))
  }

  lemma WidenLinked(ram: Ram, t: Tree, ram': Ram, p: Path, i: Index, writable: bool, user: bool, q: Path, j: Index)
    requires CanWiden(ram, t, ram', p, i, writable, user)
    requires q in t.at && Level(q) < 4 && OwnStep(q, j)
    ensures LinkedAt(ram', t, q, j)
  {
    assert LinkedAt(ram, t, q, j);
    assert LinkedAt(ram, t, p, i);
  }

  /** ensure_table on a present entry: only permissions widen. */
  lemma WidenEntry(ram: Ram, t: Tree, ram': Ram, p: Path, i: Index, writable: bool, user: bool)
    requires CanWiden(ram, t, ram', p, i, writable, user)
    ensures Inv(ram', t) && SameWalks(ram, t, ram', t)
  {
    forall q, j: Index | q in t.at && Level(q) < 4 && OwnStep(q, j) ensures LinkedAt(ram', t, q, j) {
      WidenLinked(ram, t, ram', p, i, writable, user, q, j);
    }
    WidenShared(ram, t, ram', p, i, writable, user);
    forall o, pg | Tracked(o, pg) ensures TreeWalk(ram', t, o, pg) == TreeWalk(ram, t, o, pg) {
      WidenWalk(ram, t, ram', p, i, writable, user, o, pg);
    }
  }

  lemma WidenShared(ram: Ram, t: Tree, ram': Ram, p: Path, i: Index, writable: bool, user: bool)
    requires CanWiden(ram, t, ram', p, i, writable, user)
    ensures Shared(ram', t)
  {
    var k := t.at[Root(Kernel)];
    forall s: nat | Root(Space(s)) in t.at
      ensures ram'[s][HEAP_SLOT] == ram[s][HEAP_SLOT] && ram'[s][PHYSMAP_SLOT] == ram[s][PHYSMAP_SLOT]
      ensures ram'[k][HEAP_SLOT] == ram[k][HEAP_SLOT] && ram'[k][PHYSMAP_SLOT] == ram[k][PHYSMAP_SLOT]
    {
    }
  }

  lemma WidenWalk(ram: Ram, t: Tree, ram': Ram, p: Path, i: Index, writable: bool, user: bool, o: Owner, pg: Page)
    requires CanWiden(ram, t, ram', p, i, writable, user) && Inv(ram', t)
    ensures TreeWalk(ram', t, o, pg) == TreeWalk(ram, t, o, pg)
  {
    OwnSteps(o, pg);
  }

  // ---- writing and clearing a leaf ----

  /** The side conditions of mapping page pg of owner o, whose page table exists, to frame f.
      A leaf position that is owned must receive a frame that sits nowhere else. */
  ghost predicate CanMap(ram: Ram, t: Tree, ram': Ram, o: Owner, pg: Page, f: nat, fl: Flags) {
    && Inv(ram, t) && PtPath(o, pg) in t.at && fl.present && !fl.huge
    && (Own(Leaf(o, pg)) ==> 0 < f < MAX_FRAMES && (f in t.role ==> t.role[f] == Leaf(o, pg)))
    && Wrote(ram, ram', t.at[PtPath(o, pg)], pg.i1, Entry(f, fl))
  }

  /** Where the frames sit once page pg of o maps to f. */
  function Mapped(t: Tree, o: Owner, pg: Page, f: nat): Tree {
    if Own(Leaf(o, pg)) then t.Put(Leaf(o, pg), f) else t
  }

  lemma MapShaped(ram: Ram, t: Tree, ram': Ram, o: Owner, pg: Page, f: nat, fl: Flags)
    requires CanMap(ram, t, ram', o, pg, f, fl)
    ensures Shaped(Mapped(t, o, pg, f))
  {
    OwnSteps(o, pg);
  }

  lemma MapLinked(ram: Ram, t: Tree, ram': Ram, o: Owner, pg: Page, f: nat, fl: Flags, q: Path, j: Index)
    requires CanMap(ram, t, ram', o, pg, f, fl)
    requires q in t.at && Level(q) < 4 && OwnStep(q, j)
    ensures LinkedAt(ram', Mapped(t, o, pg, f), q, j)
  {
    OwnSteps(o, pg);
    assert LinkedAt(ram, t, q, j);
    if Child(q, j) == Leaf(o, pg) {
      assert Own(Leaf(o, pg));
      assert Mapped(t, o, pg, f).at == t.at[Leaf(o, pg) := f];
    }
  }

  /** The last store of map: one page of one owner changes, every other keeps its translation. */
  lemma MapLeaf(ram: Ram, t: Tree, ram': Ram, o: Owner, pg: Page, f: nat, fl: Flags)
    requires CanMap(ram, t, ram', o, pg, f, fl)
    ensures Inv(ram', Mapped(t, o, pg, f)) && SameWalksBut(ram, t, ram', Mapped(t, o, pg, f), o, pg)
    ensures TreeWalk(ram', Mapped(t, o, pg, f), o, pg) == Some(Entry(f, fl))
  {
    var t' := Mapped(t, o, pg, f);
    MapShaped(ram, t, ram', o, pg, f, fl);
    OwnSteps(o, pg);
    forall q, j: Index | q in t'.at && Level(q) < 4 && OwnStep(q, j) ensures LinkedAt(ram', t', q, j) {
      MapLinked(ram, t, ram', o, pg, f, fl, q, j);
    }
    LeafShared(ram, t, ram', t', o, pg);
    forall o', pg' | Tracked(o', pg') && (o', pg') != (o, pg)
      ensures TreeWalk(ram', t', o', pg') == TreeWalk(ram, t, o', pg') {
      LeafWalk(ram, t, ram', t', o, pg, o', pg');
    }
  }

  /** A store to a page table leaves the shared slots alone. */
  lemma LeafShared(ram: Ram, t: Tree, ram': Ram, t': Tree, o: Owner, pg: Page)
    requires Inv(ram, t) && PtPath(o, pg) in t.at && |ram'| == |ram|
    requires forall g | 0 <= g < |ram| && g != t.at[PtPath(o, pg)] :: ram'[g] == ram[g]
    requires Shaped(t') && forall q | Level(q) < 4 :: (q in t'.at <==> q in t.at) && (q in t.at ==> t'.at[q] == t.at[q])
    ensures Shared(ram', t')
  {
    OwnSteps(o, pg);
    assert Level(Root(Kernel)) == 0 && Level(Child(Root(Kernel), HEAP_SLOT)) == 1;
    forall s: nat | Root(Space(s)) in t'.at ensures Root(Space(s)) in t.at && ram'[s] == ram[s] {
      assert Level(Root(Space(s))) == 0;
    }
  }

  /** A store to entry i1 of a page table is seen by that page alone. */
  lemma LeafWalk(ram: Ram, t: Tree, ram': Ram, t': Tree, o: Owner, pg: Page, o': Owner, pg': Page)
    requires Inv(ram, t) && PtPath(o, pg) in t.at && |ram'| == |ram|
    requires forall g | 0 <= g < |ram| && g != t.at[PtPath(o, pg)] :: ram'[g] == ram[g]
    requires forall j: Index | j != pg.i1 :: ram'[t.at[PtPath(o, pg)]][j] == ram[t.at[PtPath(o, pg)]][j]
    requires Inv(ram', t') && forall q | Level(q) < 4 :: (q in t'.at <==> q in t.at) && (q in t.at ==> t'.at[q] == t.at[q])
    requires (o', pg') != (o, pg)
    ensures TreeWalk(ram', t', o', pg') == TreeWalk(ram, t, o', pg')
  {
    OwnSteps(o, pg);
    OwnSteps(o', pg');
  }

  /** The side conditions of clearing the leaf entry of page pg. */
  ghost predicate CanClear(ram: Ram, t: Tree, ram': Ram, o: Owner, pg: Page) {
    && Inv(ram, t) && PtPath(o, pg) in t.at
    && Wrote(ram, ram', t.at[PtPath(o, pg)], pg.i1, ZERO)
  }

  function Cleared(t: Tree, o: Owner, pg: Page): Tree {
    if Leaf(o, pg) in t.at then t.Drop(Leaf(o, pg)) else t
  }

  lemma ClearLinked(ram: Ram, t: Tree, ram': Ram, o: Owner, pg: Page, q: Path, j: Index)
    requires CanClear(ram, t, ram', o, pg) && Shaped(Cleared(t, o, pg))
    requires q in t.at && Level(q) < 4 && OwnStep(q, j)
    ensures LinkedAt(ram', Cleared(t, o, pg), q, j)
  {
    hide Linked, Shared, OwnStep;
    OwnSteps(o, pg);
    LinkOf(ram, t, q, j);
  }

  /** The store of unmap: the page is gone, every other keeps its translation. */
  lemma ClearLeaf(ram: Ram, t: Tree, ram': Ram, o: Owner, pg: Page)
    requires CanClear(ram, t, ram', o, pg)
    ensures Inv(ram', Cleared(t, o, pg)) && SameWalksBut(ram, t, ram', Cleared(t, o, pg), o, pg)
    ensures TreeWalk(ram', Cleared(t, o, pg), o, pg) == None
  {
    var t' := Cleared(t, o, pg);
    OwnSteps(o, pg);
    ClearShaped(t, o, pg);
    forall q, j: Index | q in t'.at && Level(q) < 4 && OwnStep(q, j) ensures LinkedAt(ram', t', q, j) {
      ClearLinked(ram, t, ram', o, pg, q, j);
    }
    LeafShared(ram, t, ram', t', o, pg);
    forall o', pg' | Tracked(o', pg') && (o', pg') != (o, pg)
      ensures TreeWalk(ram', t', o', pg') == TreeWalk(ram, t, o', pg') {
      LeafWalk(ram, t, ram', t', o, pg, o', pg');
    }
  }

  lemma ClearShaped(t: Tree, o: Owner, pg: Page)
    requires Shaped(t)
    ensures Shaped(Cleared(t, o, pg))
  {
    OwnSteps(o, pg);
    var t' := Cleared(t, o, pg);
    forall p, i: Index | Child(p, i) in t'.at ensures p in t'.at {
      assert Level(Child(p, i)) == Level(p) + 1;
    }
  }
}
