/** What building tables costs: one frame for every position that is wanted and not yet there. */
module FramePrices {
  import opened Options
  import opened PageTables
  import opened SpaceSteps
  import opened MappingSteps
  import opened CloneSteps

  /** From the positions k0 and n0 free frames to k1 and n1: the wanted positions are there, the missing
      ones have cost a frame each, and nothing else was added. */
  ghost predicate Bought(k0: set<Path>, n0: int, k1: set<Path>, n1: int, wanted: set<Path>) {
    k1 == k0 + wanted && n1 == n0 - |wanted - k0|
  }

  lemma BoughtNothing(k: set<Path>, n: int)
    ensures Bought(k, n, k, n, {})
  {
    assert {} - k == {};
  }

  lemma BothMissing(k: set<Path>, f: set<Path>, g: set<Path>)
    ensures |(f + g) - k| == |f - k| + |g - (k + f)|
  {
    assert (f + g) - k == (f - k) + (g - (k + f));
  }

  lemma BoughtThen(k0: set<Path>, n0: int, k1: set<Path>, n1: int, k2: set<Path>, n2: int, f: set<Path>, g: set<Path>)
    requires Bought(k0, n0, k1, n1, f) && Bought(k1, n1, k2, n2, g)
    ensures Bought(k0, n0, k2, n2, f + g)
  {
    BothMissing(k0, f, g);
  }

  /** A purchase that cannot be finished could not have been started with so few frames. */
  lemma Short(k0: set<Path>, n0: int, k1: set<Path>, n1: int, f: set<Path>, g: set<Path>, all: set<Path>)
    requires Bought(k0, n0, k1, n1, f) && n1 < |g - k1| && f + g <= all
    ensures n0 < |all - k0|
  {
    BothMissing(k0, f, g);
    BothMissing(k0, f + g, all);
    assert (f + g) + all == all;
  }

  // ---- pages ----

  /** The positions behind page pg of o: three tables and the page. */
  function Chain(o: Owner, pg: Page): set<Path> {
    {Child(Root(o), pg.i4)} + ({PdPath(o, pg)} + ({PtPath(o, pg)} + {Leaf(o, pg)}))
  }

  function Missing(keys: set<Path>, p: Path): nat { if p in keys then 0 else 1 }

  /** A page that is not there costs its frame and its missing tables. */
  lemma ChainPrice(keys: set<Path>, o: Owner, pg: Page)
    requires Leaf(o, pg) !in keys
    ensures |Chain(o, pg) - keys| == 1 + Missing(keys, Child(Root(o), pg.i4)) + Missing(keys, PdPath(o, pg)) + Missing(keys, PtPath(o, pg))
  {
    var p1, p2, p3, p4 := Child(Root(o), pg.i4), PdPath(o, pg), PtPath(o, pg), Leaf(o, pg);
    Distinct4(o, pg);
    hide PdPath, PtPath, Leaf;
    FourPrice(keys, p1, p2, p3, p4);
  }

  lemma Distinct4(o: Owner, pg: Page)
    ensures var p1, p2, p3, p4 := Child(Root(o), pg.i4), PdPath(o, pg), PtPath(o, pg), Leaf(o, pg);
      p1 != p2 && p1 != p3 && p1 != p4 && p2 != p3 && p2 != p4 && p3 != p4
  {
    OwnSteps(o, pg);
    assert Level(Root(o)) == 0 && Level(Child(Root(o), pg.i4)) == 1;
  }

  lemma FourPrice(keys: set<Path>, p1: Path, p2: Path, p3: Path, p4: Path)
    requires p1 != p2 && p1 != p3 && p1 != p4 && p2 != p3 && p2 != p4 && p3 != p4
    ensures |({p1} + ({p2} + ({p3} + {p4}))) - keys| == Missing(keys, p1) + Missing(keys, p2) + Missing(keys, p3) + Missing(keys, p4)
  {
    OnePrice(keys, p1, {p2} + ({p3} + {p4}));
    OnePrice(keys, p2, {p3} + {p4});
    OnePrice(keys, p3, {p4});
    assert {p4} - keys == if p4 in keys then {} else {p4};
  }

  lemma OnePrice(keys: set<Path>, p: Path, rest: set<Path>)
    requires p !in rest
    ensures |({p} + rest) - keys| == Missing(keys, p) + |rest - keys|
  {
    if p in keys {
      assert ({p} + rest) - keys == rest - keys;
    } else {
      assert ({p} + rest) - keys == {p} + (rest - keys);
    }
  }

  // ---- the pages of a space ----

  /** The page whose position p is. */
  function PageAt(p: Path): Option<Page> {
    match p
    case Child(Child(Child(Child(Root(_), i4), i3), i2), i1) => Some(Page(i4, i3, i2, i1))
    case _ => None
  }

  lemma PageAtLeaf(o: Owner, pg: Page)
    ensures PageAt(Leaf(o, pg)) == Some(pg) && OwnerOf(Leaf(o, pg)) == o
  {
    OwnSteps(o, pg);
  }

  /** p is the position of a page of src, and the sweep over all pages meets it from c to c'. */
  ghost predicate Met(src: nat, p: Path, c: nat, c': nat) {
    PageAt(p).Some? && p == Leaf(Space(src), PageAt(p).value) && c <= Num(PageAt(p).value) < c'
  }

  /** What copies of these pages want in o. */
  ghost function Copies(keys: set<Path>, src: nat, o: Owner, c: nat, c': nat): set<Path> {
    set p, q | p in keys && Met(src, p, c, c') && q in Chain(o, PageAt(p).value) :: q
  }

  lemma CopiesOwned(keys: set<Path>, src: nat, o: Owner, c: nat, c': nat)
    ensures forall q {:trigger OwnerOf(q)} | q in Copies(keys, src, o, c, c') :: OwnerOf(q) == o
  {
    forall q | q in Copies(keys, src, o, c, c') ensures OwnerOf(q) == o {
      var p :| p in keys && Met(src, p, c, c') && q in Chain(o, PageAt(p).value);
      OwnSteps(o, PageAt(p).value);
      assert OwnerOf(Child(Root(o), PageAt(p).value.i4)) == o;
    }
  }

  lemma CopiesSplit(keys: set<Path>, src: nat, o: Owner, a: nat, b: nat, c: nat)
    requires a <= b <= c
    ensures Copies(keys, src, o, a, c) == Copies(keys, src, o, a, b) + Copies(keys, src, o, b, c)
  {
    hide Chain, PageAt, Num;
    forall q | q in Copies(keys, src, o, a, c) ensures q in Copies(keys, src, o, a, b) || q in Copies(keys, src, o, b, c) {
      var p :| p in keys && Met(src, p, a, c) && q in Chain(o, PageAt(p).value);
      assert Met(src, p, a, b) || Met(src, p, b, c);
    }
    forall q | q in Copies(keys, src, o, a, b) ensures q in Copies(keys, src, o, a, c) {
      var p :| p in keys && Met(src, p, a, b) && q in Chain(o, PageAt(p).value);
      assert Met(src, p, a, c);
    }
    forall q | q in Copies(keys, src, o, b, c) ensures q in Copies(keys, src, o, a, c) {
      var p :| p in keys && Met(src, p, b, c) && q in Chain(o, PageAt(p).value);
      assert Met(src, p, a, c);
    }
  }

  /** They depend on the pages of src alone. */
  lemma CopiesSame(k0: set<Path>, k1: set<Path>, src: nat, o: Owner, c: nat, c': nat)
    requires forall p {:trigger p in k0} {:trigger p in k1} | OwnerOf(p) == Space(src) :: p in k0 <==> p in k1
    ensures Copies(k0, src, o, c, c') == Copies(k1, src, o, c, c')
  {
    hide Chain, Num;
    forall p | Met(src, p, c, c') ensures p in k0 <==> p in k1 {
      PageAtLeaf(Space(src), PageAt(p).value);
    }
  }

  /** One page of the sweep. */
  lemma CopiesOne(keys: set<Path>, src: nat, o: Owner, pg: Page)
    requires Leaf(Space(src), pg) in keys
    ensures Copies(keys, src, o, Num(pg), Num(pg) + 1) == Chain(o, pg)
  {
    hide Chain, Num;
    PageAtLeaf(Space(src), pg);
    assert Met(src, Leaf(Space(src), pg), Num(pg), Num(pg) + 1);
    forall q | q in Copies(keys, src, o, Num(pg), Num(pg) + 1) ensures q in Chain(o, pg) {
      var p :| p in keys && Met(src, p, Num(pg), Num(pg) + 1) && q in Chain(o, PageAt(p).value);
      NumInjective(PageAt(p).value, pg);
    }
  }

  /** A stretch that the sweep skips has no pages. */
  lemma CopiesNone(ram: Ram, t: Tree, src: nat, dst: nat, o: Owner, c: nat, c': nat)
    requires Good(ram, t) && Partial(ram, t, src, dst, c) && Partial(ram, t, src, dst, c')
    ensures Copies(t.at.Keys, src, o, c, c') == {}
  {
    hide Inv, Granting, TreeWalk, Num, Chain;
    GoodShaped(ram, t);
    forall p | Met(src, p, c, c') ensures p !in t.at {
      var pg := PageAt(p).value;
      if Private(pg) { NotMapped(ram, t, src, dst, pg, c, c'); }
      TrackedIsPrivate(src, pg);
    }
  }

  lemma NotMapped(ram: Ram, t: Tree, src: nat, dst: nat, pg: Page, c: nat, c': nat)
    requires Good(ram, t) && Partial(ram, t, src, dst, c) && Partial(ram, t, src, dst, c') && Private(pg) && c <= Num(pg) < c'
    ensures Leaf(Space(src), pg) !in t.at
  {
    hide Inv, Granting, TreeWalk, Num;
    assert TreeWalk(ram, t, Space(dst), pg) == None;
    assert Copied(ram, t, src, dst, pg);
    TrackedIsPrivate(src, pg);
    MappedFrame(ram, t, Space(src), pg);
  }

  lemma GoodShaped(ram: Ram, t: Tree)
    requires Good(ram, t)
    ensures Shaped(t)
  {
  }

  /** One stretch more of the sweep that copies src to dst, or its failure. */
  lemma SweepOn(k0: set<Path>, n0: int, k1: set<Path>, n1: int, k2: set<Path>, n2: int, ok: bool, src: nat, dst: nat, a: nat, b: nat, c: nat, end: nat)
    requires src != dst && a <= b <= c <= end && Bought(k0, n0, k1, n1, Copies(k0, src, Space(dst), a, b))
    requires ok <==> n1 >= |Copies(k1, src, Space(dst), b, c) - k1|
    requires ok ==> Bought(k1, n1, k2, n2, Copies(k1, src, Space(dst), b, c))
    ensures ok ==> Bought(k0, n0, k2, n2, Copies(k0, src, Space(dst), a, c))
    ensures !ok ==> n0 < |Copies(k0, src, Space(dst), a, end) - k0|
  {
    var o := Space(dst);
    CopiesOwned(k0, src, o, a, b);
    assert forall p {:trigger p in k0} {:trigger p in k1} | OwnerOf(p) == Space(src) :: p in k0 <==> p in k1;
    CopiesSame(k0, k1, src, o, b, c);
    CopiesSplit(k0, src, o, a, b, c);
    CopiesSplit(k0, src, o, a, c, end);
    hide Copies, Bought;
    if ok {
      BoughtThen(k0, n0, k1, n1, k2, n2, Copies(k0, src, o, a, b), Copies(k0, src, o, b, c));
    } else {
      Short(k0, n0, k1, n1, Copies(k0, src, o, a, b), Copies(k0, src, o, b, c), Copies(k0, src, o, a, end));
    }
  }

  /** An empty stretch. */
  lemma SweepNone(keys: set<Path>, n: nat, src: nat, dst: nat, c: nat)
    ensures Bought(keys, n, keys, n, Copies(keys, src, Space(dst), c, c))
  {
    hide Num, Chain;
    assert Copies(keys, src, Space(dst), c, c) == {};
    BoughtNothing(keys, n);
  }

  /** A stretch without pages. */
  lemma SweepSkip(ram: Ram, t: Tree, n: nat, src: nat, dst: nat, c: nat, c': nat)
    requires Good(ram, t) && Partial(ram, t, src, dst, c) && Partial(ram, t, src, dst, c')
    ensures Bought(t.at.Keys, n, t.at.Keys, n, Copies(t.at.Keys, src, Space(dst), c, c'))
    ensures n >= |Copies(t.at.Keys, src, Space(dst), c, c') - t.at.Keys|
  {
    hide Good, Partial, Chain;
    CopiesNone(ram, t, src, dst, Space(dst), c, c');
    BoughtNothing(t.at.Keys, n);
    assert Copies(t.at.Keys, src, Space(dst), c, c') - t.at.Keys == {};
  }

  lemma Afforded(k0: set<Path>, n0: int, k1: set<Path>, n1: nat, wanted: set<Path>)
    requires Bought(k0, n0, k1, n1, wanted)
    ensures n0 >= |wanted - k0|
  {
  }

  /** One page, in the terms of the call that maps it. */
  lemma PagePrice(k0: set<Path>, n0: int, k1: set<Path>, n1: int, o: Owner, pg: Page)
    requires Leaf(o, pg) !in k0
    ensures var price := 1 + Missing(k0, Child(Root(o), pg.i4)) + Missing(k0, PdPath(o, pg)) + Missing(k0, PtPath(o, pg));
      && |Chain(o, pg) - k0| == price
      && (k1 == k0 + Above(o, pg) + {Leaf(o, pg)} && n1 == n0 - price ==> Bought(k0, n0, k1, n1, Chain(o, pg)))
  {
    hide Leaf, PdPath, PtPath;
    ChainPrice(k0, o, pg);
    ChainIs(k0, o, pg);
    hide Chain, Above;
  }

  /** One page of the sweep: its frame, and the tables that are missing for it. */
  lemma SweepOne(k0: set<Path>, n0: int, k1: set<Path>, n1: int, src: nat, dst: nat, pg: Page)
    requires Leaf(Space(src), pg) in k0 && Leaf(Space(dst), pg) !in k0
    ensures var o := Space(dst);
      var price := 1 + Missing(k0, Child(Root(o), pg.i4)) + Missing(k0, PdPath(o, pg)) + Missing(k0, PtPath(o, pg));
      && |Copies(k0, src, o, Num(pg), Num(pg) + 1) - k0| == price
      && (k1 == k0 + Above(o, pg) + {Leaf(o, pg)} && n1 == n0 - price ==> Bought(k0, n0, k1, n1, Copies(k0, src, o, Num(pg), Num(pg) + 1)))
  {
    var o := Space(dst);
    hide Num, Leaf, PdPath, PtPath, Copies;
    CopiesOne(k0, src, o, pg);
    PagePrice(k0, n0, k1, n1, o, pg);
  }

  /** The positions of the tables that lead to page pg of o. */
  function Above(o: Owner, pg: Page): set<Path> {
    {Child(Root(o), pg.i4)} + ({PdPath(o, pg)} + {PtPath(o, pg)})
  }

  lemma ChainIs(k: set<Path>, o: Owner, pg: Page)
    ensures k + Above(o, pg) + {Leaf(o, pg)} == k + Chain(o, pg)
  {
    var a, b, c, d := {Child(Root(o), pg.i4)}, {PdPath(o, pg)}, {PtPath(o, pg)}, {Leaf(o, pg)};
    Assoc(k, a, b, c, d);
  }

  lemma Assoc(k: set<Path>, a: set<Path>, b: set<Path>, c: set<Path>, d: set<Path>)
    ensures k + (a + (b + c)) + d == k + (a + (b + (c + d)))
  {
  }

  // ---- the price of a space that does not exist yet ----

  /** The same position below another PML4. */
  function Moved(q: Path, o: Owner): Path {
    match q
    case Root(_) => Root(o)
    case Child(u, i) => Child(Moved(u, o), i)
  }

  lemma {:induction false} MovedBack(q: Path, o: Owner)
    ensures OwnerOf(Moved(q, o)) == o && Moved(Moved(q, o), OwnerOf(q)) == q
    decreases q
  {
    if q.Child? { MovedBack(q.up, o); }
  }

  ghost function MovedSet(w: set<Path>, o: Owner): set<Path> { set q | q in w :: Moved(q, o) }

  /** As many positions, when all had the same owner. */
  lemma {:induction false} MovedSize(w: set<Path>, from: Owner, o: Owner)
    requires forall q {:trigger q in w} | q in w :: OwnerOf(q) == from
    ensures |MovedSet(w, o)| == |w|
    decreases |w|
  {
    if w == {} {
      assert MovedSet(w, o) == {};
    } else {
      var q :| q in w;
      MovedSize(w - {q}, from, o);
      MovedBack(q, o);
      forall p | p in w - {q} ensures Moved(p, o) != Moved(q, o) { MovedBack(p, o); }
      assert MovedSet(w, o) == MovedSet(w - {q}, o) + {Moved(q, o)};
      assert Moved(q, o) !in MovedSet(w - {q}, o);
    }
  }

  lemma MovedUnion(a: set<Path>, b: set<Path>, o: Owner)
    ensures MovedSet(a + b, o) == MovedSet(a, o) + MovedSet(b, o)
  {
  }

  lemma MovedChain(o: Owner, pg: Page, o': Owner)
    ensures MovedSet(Chain(o, pg), o') == Chain(o', pg)
  {
    var p1 := Child(Root(o), pg.i4);
    assert Moved(p1, o') == Child(Root(o'), pg.i4);
    assert Moved(PdPath(o, pg), o') == PdPath(o', pg);
    assert Moved(PtPath(o, pg), o') == PtPath(o', pg);
    assert Moved(Leaf(o, pg), o') == Leaf(o', pg);
    hide PdPath, PtPath, Leaf, Moved;
  }

  lemma MovedShell(t: Tree, s: nat, s': nat)
    ensures MovedSet(SpacePaths(t, s), Space(s')) == SpacePaths(t, s')
  {
    var o, o' := Space(s), Space(s');
    var p1 := Child(Root(o), 0);
    assert Moved(Root(o), o') == Root(o') && Moved(p1, o') == Child(Root(o'), 0);
    forall k: Index ensures Moved(Child(p1, k), o') == Child(Child(Root(o'), 0), k) {}
  }

  /** What is built in a new space costs the same as if it were built in space s, were that one new. */
  lemma NewPrice(keys: set<Path>, t: Tree, s: nat, s': nat, w: set<Path>)
    requires forall q {:trigger q in keys} | q in keys :: OwnerOf(q) != Space(s')
    requires forall q {:trigger q in w} | q in w :: OwnerOf(q) == Space(s)
    ensures |MovedSet(w, Space(s')) - (keys + SpacePaths(t, s'))| == |w - SpacePaths(t, s)|
  {
    var shell, o' := SpacePaths(t, s), Space(s');
    MovedShell(t, s, s');
    ShellOwned(t, s);
    MovedSize(w - shell, Space(s), o');
    forall q | q in MovedSet(w, o') ensures q !in keys && (q in SpacePaths(t, s') <==> Moved(q, Space(s)) in shell) && OwnerOf(Moved(q, Space(s))) == Space(s) {
      var p :| p in w && q == Moved(p, o');
      MovedBack(p, o');
      if q in SpacePaths(t, s') {
        var r :| r in shell && q == Moved(r, o');
        MovedBack(r, o');
      }
    }
    forall p | p in w ensures Moved(Moved(p, o'), Space(s)) == p { MovedBack(p, o'); }
    assert MovedSet(w, o') - (keys + SpacePaths(t, s')) == MovedSet(w - shell, o');
  }

  lemma ShellOwned(t: Tree, s: nat)
    ensures forall q {:trigger q in SpacePaths(t, s)} | q in SpacePaths(t, s) :: OwnerOf(q) == Space(s)
  {
    assert OwnerOf(Root(Space(s))) == Space(s) && OwnerOf(Child(Root(Space(s)), 0)) == Space(s);
  }

  lemma MovedCopies(keys: set<Path>, src: nat, o: Owner, o': Owner, c: nat, c': nat)
    ensures MovedSet(Copies(keys, src, o, c, c'), o') == Copies(keys, src, o', c, c')
  {
    hide Chain, Moved, PageAt, Num;
    forall q | q in Copies(keys, src, o, c, c') ensures Moved(q, o') in Copies(keys, src, o', c, c') {
      var p :| p in keys && Met(src, p, c, c') && q in Chain(o, PageAt(p).value);
      MovedChain(o, PageAt(p).value, o');
      assert Moved(q, o') in Chain(o', PageAt(p).value);
    }
    forall q | q in Copies(keys, src, o', c, c') ensures q in MovedSet(Copies(keys, src, o, c, c'), o') {
      var p :| p in keys && Met(src, p, c, c') && q in Chain(o', PageAt(p).value);
      MovedChain(o, PageAt(p).value, o');
      var r :| r in Chain(o, PageAt(p).value) && q == Moved(r, o');
      assert r in Copies(keys, src, o, c, c');
    }
  }
}
