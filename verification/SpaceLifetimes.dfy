/** Whole lifetimes of address spaces: what any run of operations keeps and gives back. */
module SpaceLifetimes {
  import opened Options
  import opened FrameBitmap
  import opened PageTables
  import opened PageTableSteps
  import opened SpaceSteps
  import opened MappingSteps
  import opened Subtrees
  import opened CloneSteps
  import opened AddressSpaces
  import opened Isolation
  import opened PageRanges

  // ---- one step ----

  /** Memory, the tree of owned positions, and the allocated frames, at one moment. */
  datatype Moment = Moment(ram: Ram, tree: Tree, live: set<nat>)

  ghost function Now(m: Mmu): Moment
    reads m, m.pmm
  {
    Moment(m.ram, m.tree, m.pmm.Live())
  }

  /** Every position holds a live frame, or one of the fixed kernel tables. */
  ghost predicate Sound(w: Moment, fixed: set<nat>) {
    && Good(w.ram, w.tree) && fixed !! w.live
    && (forall f {:trigger f in w.tree.role} | f in w.tree.role :: f in w.live || f in fixed)
    && (forall f {:trigger f in fixed} | f in w.tree.role && f in fixed :: OwnerOf(w.tree.role[f]) == Kernel)
  }

  /** Positions of owners outside `who` stay, with their frames. */
  ghost predicate PlacesKept(t: Tree, t': Tree, who: set<Owner>) {
    && (forall p {:trigger p in t.at} {:trigger p in t'.at} | OwnerOf(p) !in who :: p in t'.at <==> p in t.at)
    && (forall p {:trigger t'.at[p]} | p in t.at && OwnerOf(p) !in who && p in t'.at :: t'.at[p] == t.at[p])
  }

  /** Owned pages of owners outside `who` keep translation and contents. */
  ghost predicate PagesKept(a: Moment, b: Moment, who: set<Owner>)
    requires Inv(a.ram, a.tree) && Inv(b.ram, b.tree)
  {
    forall o, pg {:trigger PageKept(a.ram, a.tree, b.ram, b.tree, o, pg)} {:trigger TreeWalk(b.ram, b.tree, o, pg)} |
      Own(Leaf(o, pg)) && o !in who :: PageKept(a.ram, a.tree, b.ram, b.tree, o, pg)
  }

  /** What may happen between two moments when only the owners in `who` are worked on, and no frame
      is left allocated without a place. */
  ghost predicate Step(a: Moment, b: Moment, who: set<Owner>, fixed: set<nat>) {
    && Sound(a, fixed) && Sound(b, fixed)
    && b.live - b.tree.role.Keys == a.live - a.tree.role.Keys
    && PlacesKept(a.tree, b.tree, who) && PagesKept(a, b, who)
  }

  lemma StepRefl(a: Moment, who: set<Owner>, fixed: set<nat>)
    requires Sound(a, fixed)
    ensures Step(a, a, who, fixed)
  {
    hide TreeWalk, Inv, Own;
  }

  lemma StepTrans(a: Moment, b: Moment, c: Moment, who: set<Owner>, fixed: set<nat>)
    requires Step(a, b, who, fixed) && Step(b, c, who, fixed)
    ensures Step(a, c, who, fixed)
  {
    hide TreeWalk, Inv, Own, Granting;
    forall o, pg | Own(Leaf(o, pg)) && o !in who ensures PageKept(a.ram, a.tree, c.ram, c.tree, o, pg) {
      assert PageKept(a.ram, a.tree, b.ram, b.tree, o, pg);
      assert PageKept(b.ram, b.tree, c.ram, c.tree, o, pg);
    }
  }

  lemma StepWider(a: Moment, b: Moment, who: set<Owner>, more: set<Owner>, fixed: set<nat>)
    requires Step(a, b, who, fixed) && who <= more
    ensures Step(a, b, more, fixed)
  {
    hide TreeWalk, Inv, Own, Granting;
  }

  /** o has nothing. */
  ghost predicate Vacant(t: Tree, o: Owner) {
    forall p {:trigger p in t.at} | p in t.at :: OwnerOf(p) != o
  }

  /** An owner that has nothing before and nothing after was not worked on. */
  lemma StepNarrow(a: Moment, b: Moment, who: set<Owner>, o: Owner, fixed: set<nat>)
    requires Step(a, b, who + {o}, fixed) && Vacant(a.tree, o) && Vacant(b.tree, o)
    ensures Step(a, b, who, fixed)
  {
    hide TreeWalk, Inv, Granting;
    forall q, pg | Own(Leaf(q, pg)) && q !in who ensures PageKept(a.ram, a.tree, b.ram, b.tree, q, pg) {
      if q == o {
        OwnSteps(o, pg);
        MappedFrame(a.ram, a.tree, o, pg);
        MappedFrame(b.ram, b.tree, o, pg);
      } else {
        assert q !in who + {o};
      }
    }
  }

  // ---- conservation ----

  /** The frames of a group of owners. */
  ghost function FramesOfAll(t: Tree, who: set<Owner>): set<nat> {
    set f | f in t.role && OwnerOf(t.role[f]) in who
  }

  /** A frame that is allocated and not held by `who` still is after a step of `who`. */
  lemma StaysLive(a: Moment, b: Moment, who: set<Owner>, fixed: set<nat>, f: nat)
    requires Step(a, b, who, fixed) && f in a.live && f !in FramesOfAll(a.tree, who)
    ensures f in b.live && f !in FramesOfAll(b.tree, who)
  {
    hide PagesKept, Inv, Granting;
    Shapes(a, b, who, fixed);
    if f in a.tree.role {
      var p := a.tree.role[f];
      assert p in a.tree.at && a.tree.at[p] == f;
      assert p in b.tree.at && b.tree.at[p] == f;
    } else {
      assert f in a.live - a.tree.role.Keys;
    }
  }

  lemma Shapes(a: Moment, b: Moment, who: set<Owner>, fixed: set<nat>)
    requires Step(a, b, who, fixed)
    ensures a.tree.Injective() && a.tree.Onto() && b.tree.Injective() && b.tree.Onto()
  {
  }

  lemma StepBack(a: Moment, b: Moment, who: set<Owner>, fixed: set<nat>)
    requires Step(a, b, who, fixed)
    ensures Step(b, a, who, fixed)
  {
    hide TreeWalk, Inv, Own, Granting;
    forall o, pg | Own(Leaf(o, pg)) && o !in who ensures PageKept(b.ram, b.tree, a.ram, a.tree, o, pg) {
      assert PageKept(a.ram, a.tree, b.ram, b.tree, o, pg);
    }
  }

  /** Whatever `who` does, every other allocated frame stays allocated and no new one appears. */
  lemma Conservation(a: Moment, b: Moment, who: set<Owner>, fixed: set<nat>)
    requires Step(a, b, who, fixed)
    ensures b.live - FramesOfAll(b.tree, who) == a.live - FramesOfAll(a.tree, who)
    ensures FramesOfAll(b.tree, who) - fixed <= b.live && FramesOfAll(a.tree, who) - fixed <= a.live
  {
    StepBack(a, b, who, fixed);
    forall f | f in a.live && f !in FramesOfAll(a.tree, who) ensures f in b.live && f !in FramesOfAll(b.tree, who) {
      StaysLive(a, b, who, fixed, f);
    }
    forall f | f in b.live && f !in FramesOfAll(b.tree, who) ensures f in a.live && f !in FramesOfAll(a.tree, who) {
      StaysLive(b, a, who, fixed, f);
    }
  }

  /** A run whose every step works on `who`. */
  ghost predicate Run(run: seq<Moment>, who: set<Owner>, fixed: set<nat>) {
    && |run| > 0 && Sound(run[0], fixed)
    && forall i {:trigger run[i + 1]} | 0 <= i < |run| - 1 :: Step(run[i], run[i + 1], who, fixed)
  }

  lemma {:induction false} RunIsStep(run: seq<Moment>, who: set<Owner>, fixed: set<nat>)
    requires Run(run, who, fixed)
    ensures Step(run[0], run[|run| - 1], who, fixed)
    decreases |run|
  {
    hide Step;
    StepRefl(run[0], who, fixed);
    if |run| > 1 {
      var n := |run| - 2;
      forall i {:trigger run[..n + 1][i + 1]} | 0 <= i < n ensures Step(run[..n + 1][i], run[..n + 1][i + 1], who, fixed) {
        assert Step(run[i], run[i + 1], who, fixed);
      }
      RunIsStep(run[..n + 1], who, fixed);
      assert Step(run[n], run[n + 1], who, fixed);
      StepTrans(run[0], run[n], run[n + 1], who, fixed);
    }
  }

  /** Exact teardown: any run that works only on owners that have nothing at its start and nothing
      at its end gives back exactly the frames it took, and leaves everybody else's pages alone. */
  lemma ExactTeardown(run: seq<Moment>, who: set<Owner>, fixed: set<nat>)
    requires Run(run, who, fixed)
    requires forall o | o in who :: Vacant(run[0].tree, o) && Vacant(run[|run| - 1].tree, o)
    ensures run[|run| - 1].live == run[0].live
    ensures Step(run[0], run[|run| - 1], {}, fixed)
  {
    RunIsStep(run, who, fixed);
    BothVacant(run[0], run[|run| - 1], who, fixed);
  }

  lemma BothVacant(a: Moment, b: Moment, who: set<Owner>, fixed: set<nat>)
    requires Step(a, b, who, fixed)
    requires forall o | o in who :: Vacant(a.tree, o) && Vacant(b.tree, o)
    ensures b.live == a.live && Step(a, b, {}, fixed)
  {
    hide TreeWalk, Inv, Own, Granting, Vacant;
    Conservation(a, b, who, fixed);
    VacantHasNothing(a, who, fixed);
    VacantHasNothing(b, who, fixed);
    NarrowAll(a, b, who, fixed);
    assert a.live - {} == a.live && b.live - {} == b.live;
  }

  lemma VacantHasNothing(a: Moment, who: set<Owner>, fixed: set<nat>)
    requires Sound(a, fixed) && forall o | o in who :: Vacant(a.tree, o)
    ensures FramesOfAll(a.tree, who) == {}
  {
    forall f | f in a.tree.role ensures OwnerOf(a.tree.role[f]) !in who {
      assert a.tree.role[f] in a.tree.at;
    }
  }

  lemma {:induction false} NarrowAll(a: Moment, b: Moment, who: set<Owner>, fixed: set<nat>)
    requires Step(a, b, who, fixed)
    requires forall o | o in who :: Vacant(a.tree, o) && Vacant(b.tree, o)
    ensures Step(a, b, {}, fixed)
  {
    hide Step, Vacant;
    if who != {} {
      var o :| o in who;
      assert who - {o} + {o} == who;
      StepNarrow(a, b, who - {o}, o, fixed);
      NarrowAll(a, b, who - {o}, fixed);
    } else {
      assert who == {};
    }
  }

  // ---- the operations are steps ----

  lemma ValidIsSound(m: Mmu)
    requires m.Valid()
    ensures Sound(Now(m), m.fixed)
  {
    hide Good;
  }

  /** A page operation of a space works on that space only. */
  lemma EditIsStep(a: Moment, b: Moment, s: nat, lo: nat, hi: nat, fixed: set<nat>)
    requires Sound(a, fixed) && Sound(b, fixed) && b.live - b.tree.role.Keys == a.live - a.tree.role.Keys
    requires KeptExcept(a.ram, a.tree, b.ram, b.tree, s, lo, hi) && OtherRoles(a.tree, b.tree, s)
    ensures Step(a, b, {Space(s)}, fixed)
  {
    hide Inv, Granting, Num, TreeWalk, Own;
    forall o, pg | Own(Leaf(o, pg)) && o !in {Space(s)} ensures PageKept(a.ram, a.tree, b.ram, b.tree, o, pg) {
      assert o != Space(s);
    }
  }

  /** A space whose frame sits nowhere has nothing. */
  lemma FreshIsVacant(ram: Ram, t: Tree, s: nat)
    requires Good(ram, t) && s !in t.role
    ensures Vacant(t, Space(s))
  {
    assert Root(Space(s)) !in t.at;
    forall p | p in t.at ensures OwnerOf(p) != Space(s) {
      UnderRoot(Space(s), p);
      if Under(Root(Space(s)), p) { NothingBelowAbsent(t, Root(Space(s)), p); }
    }
  }

  /** Creating a space works on that space only. */
  lemma CreateIsStep(a: Moment, b: Moment, s: nat, fixed: set<nat>)
    requires Sound(a, fixed) && Sound(b, fixed) && CreateStep(a.ram, a.tree, b.ram, b.tree, s)
    requires b.live - b.tree.role.Keys == a.live - a.tree.role.Keys
    ensures Step(a, b, {Space(s)}, fixed) && Vacant(a.tree, Space(s))
  {
    FreshIsVacant(a.ram, a.tree, s);
    hide Inv, Granting, TreeWalk;
    forall o, pg | Own(Leaf(o, pg)) && o !in {Space(s)} ensures PageKept(a.ram, a.tree, b.ram, b.tree, o, pg) {
      assert o != Space(s);
      OwnSteps(o, pg);
      assert TreeWalk(b.ram, b.tree, o, pg) == TreeWalk(a.ram, a.tree, o, pg);
      if TreeWalk(a.ram, a.tree, o, pg).Some? {
        LeafFrameOf(a.ram, a.tree, o, pg);
        LeafFrameOf(b.ram, b.tree, o, pg);
      }
    }
  }

  /** Cloning into a space works on that space only. */
  lemma CloneIsStep(a: Moment, b: Moment, dst: nat, fixed: set<nat>)
    requires Sound(a, fixed) && Sound(b, fixed) && OthersKept(a.ram, a.tree, b.ram, b.tree, dst)
    requires b.live - b.tree.role.Keys == a.live - a.tree.role.Keys
    ensures Step(a, b, {Space(dst)}, fixed)
  {
    hide Inv, Granting, TreeWalk;
    forall o, pg | Own(Leaf(o, pg)) && o !in {Space(dst)} ensures PageKept(a.ram, a.tree, b.ram, b.tree, o, pg) {
      assert o != Space(dst);
      OthersWalk(a.ram, a.tree, b.ram, b.tree, dst, o, pg);
      if TreeWalk(a.ram, a.tree, o, pg).Some? {
        LeafFrameOf(a.ram, a.tree, o, pg);
        LeafFrameOf(b.ram, b.tree, o, pg);
        OwnSteps(o, pg);
      }
    }
  }

  lemma OthersWalk(ram: Ram, t: Tree, ram': Ram, t': Tree, dst: nat, o: Owner, pg: Page)
    requires Good(ram, t) && Good(ram', t') && OthersKept(ram, t, ram', t', dst) && o != Space(dst)
    ensures TreeWalk(ram', t', o, pg) == TreeWalk(ram, t, o, pg)
  {
    OwnSteps(o, pg);
    OthersTable(ram, t, ram', t', dst, PtPath(o, pg));
    OthersTable(ram, t, ram', t', dst, PdPath(o, pg));
  }

  lemma OthersTable(ram: Ram, t: Tree, ram': Ram, t': Tree, dst: nat, p: Path)
    requires Good(ram, t) && Good(ram', t') && OthersKept(ram, t, ram', t', dst) && OwnerOf(p) != Space(dst)
    ensures p in t'.at <==> p in t.at
    ensures p in t.at ==> t'.at[p] == t.at[p] && ram'[t.at[p]] == ram[t.at[p]]
  {
    if p in t.at { assert t'.role[t'.at[p]] == p; }
  }

  /** Destroying a space works on that space only, and leaves it with nothing. */
  lemma DestroyIsStep(a: Moment, b: Moment, s: nat, fixed: set<nat>)
    requires Sound(a, fixed) && Sound(b, fixed) && b.ram == a.ram && b.tree == Without(a.tree, Space(s))
    requires b.live - b.tree.role.Keys == a.live - a.tree.role.Keys
    requires forall o, pg {:trigger TreeWalk(b.ram, b.tree, o, pg)} | Tracked(o, pg) && o != Space(s) ::
      TreeWalk(b.ram, b.tree, o, pg) == TreeWalk(a.ram, a.tree, o, pg)
    ensures Step(a, b, {Space(s)}, fixed) && Vacant(b.tree, Space(s))
  {
    hide Inv, Granting, TreeWalk;
    forall o, pg | Own(Leaf(o, pg)) && o !in {Space(s)} ensures PageKept(a.ram, a.tree, b.ram, b.tree, o, pg) {
      assert o != Space(s);
      OwnSteps(o, pg);
      assert TreeWalk(b.ram, b.tree, o, pg) == TreeWalk(a.ram, a.tree, o, pg);
    }
  }

  /** A store by user code works on the space it runs in only. */
  lemma WriteIsStep(a: Moment, b: Moment, s: nat, pg: Page, k: Index, w: Entry, fixed: set<nat>)
    requires Sound(a, fixed) && Root(Space(s)) in a.tree.at && Private(pg)
    requires b == Moment(WriteWord(a.ram, s, pg, k, w), a.tree, a.live)
    ensures Step(a, b, {Space(s)}, fixed)
  {
    PrivateFrame(a.ram, a.tree, s, pg);
    WriteKeepsTables(a.ram, a.tree, s, pg, k, w);
    TrackedIsPrivate(s, pg);
    hide Inv, Granting, TreeWalk, Num, Walk;
    if Walk(a.ram, s, pg).Some? {
      ghost var f := Walk(a.ram, s, pg).value.frame;
      FillKeeps(a.ram, a.tree, b.ram, s, pg, f);
    } else {
      StepRefl(a, {Space(s)}, fixed);
    }
    forall o, q | Own(Leaf(o, q)) && o !in {Space(s)} ensures PageKept(a.ram, a.tree, b.ram, b.tree, o, q) {
      assert o != Space(s);
    }
  }
}
