/** The frames below a position of the tree, and how a loop over a table's entries collects them. */
module Subtrees {
  import opened Options
  import opened FrameBitmap
  import opened PageTables

  /** q is p or lies below it. */
  predicate Under(p: Path, q: Path) {
    q == p || (q.Child? && Under(p, q.up))
  }

  /** q lies below one of the first i children of p. */
  predicate UnderFirst(p: Path, i: nat, q: Path) {
    q.Child? && ((q.up == p && q.idx < i) || UnderFirst(p, i, q.up))
  }

  ghost function Sub(t: Tree, p: Path): set<nat> {
    set f | f in t.role && Under(p, t.role[f])
  }

  ghost function SubFirst(t: Tree, p: Path, i: nat): set<nat> {
    set f | f in t.role && UnderFirst(p, i, t.role[f])
  }

  lemma {:induction false} UnderDeeper(p: Path, q: Path)
    requires Under(p, q)
    ensures Level(p) <= Level(q) && OwnerOf(p) == OwnerOf(q)
    decreases q
  {
    if q != p { UnderDeeper(p, q.up); }
  }

  /** One more child: */
  lemma {:induction false} UnderStep(p: Path, i: Index, q: Path)
    ensures UnderFirst(p, i + 1, q) <==> UnderFirst(p, i, q) || Under(Child(p, i), q)
    decreases q
  {
    if q.Child? {
      UnderStep(p, i, q.up);
      if q == Child(p, i) {
        assert Under(Child(p, i), q);
      }
    }
  }

  lemma {:induction false} UnderAll(p: Path, q: Path)
    ensures Under(p, q) <==> q == p || UnderFirst(p, 512, q)
    decreases q
  {
    if q.Child? {
      UnderAll(p, q.up);
    }
  }

  lemma {:induction false} UnderMore(p: Path, i: nat, q: Path)
    requires UnderFirst(p, i, q)
    ensures Under(p, q)
    decreases q
  {
    if !(q.up == p && q.idx < i) { UnderMore(p, i, q.up); }
  }

  lemma {:induction false} UnderNone(p: Path, q: Path)
    ensures !UnderFirst(p, 0, q)
    decreases q
  {
    if q.Child? { UnderNone(p, q.up); }
  }

  lemma {:induction false} UnderFirstDeeper(p: Path, i: nat, q: Path)
    requires UnderFirst(p, i, q)
    ensures Level(p) < Level(q)
    decreases q
  {
    if !(q.up == p && q.idx < i) { UnderFirstDeeper(p, i, q.up); }
  }

  /** the subtrees of different children do not meet. */
  lemma {:induction false} UnderApart(p: Path, i: Index, q: Path)
    ensures !(UnderFirst(p, i, q) && Under(Child(p, i), q))
    decreases q
  {
    if UnderFirst(p, i, q) && Under(Child(p, i), q) {
      if q == Child(p, i) {
        if UnderFirst(p, i, p) { UnderFirstDeeper(p, i, p); }
      } else if q.up == p && q.idx < i {
        UnderDeeper(Child(p, i), p);
      } else {
        UnderApart(p, i, q.up);
      }
    }
  }

  lemma {:induction false} UnderRoot(o: Owner, q: Path)
    ensures Under(Root(o), q) <==> OwnerOf(q) == o
    decreases q
  {
    if q.Child? { UnderRoot(o, q.up); }
  }

  /** Everything below a position that is in the tree starts from it: below an absent one is nothing. */
  lemma {:induction false} NothingBelowAbsent(t: Tree, p: Path, q: Path)
    requires Shaped(t) && q in t.at && Under(p, q)
    ensures p in t.at
    decreases q
  {
    if q != p {
      match q
      case Child(u, i) =>
        assert Child(u, i) in t.at;
        NothingBelowAbsent(t, p, u);
    }
  }

  /** Every entry of the table at p is owned. */
  ghost predicate AllOwned(p: Path) { forall i: Index :: OwnStep(p, i) }

  lemma AllOwnedChild(p: Path, i: Index)
    requires AllOwned(p) && OwnerOf(p).Space? && 1 <= Level(p) <= 3
    ensures Level(Child(p, i)) == Level(p) + 1 && OwnerOf(Child(p, i)) == OwnerOf(p)
    ensures AllOwned(Child(p, i)) && !IdentityPd(p)
  {
    assert OwnStep(p, 511);
    match p
    case Child(Root(_), k) =>
    case Child(Child(Root(_), k), _) =>
    case Child(Child(Child(Root(_), k), _), _) =>
    case _ =>
  }

  // ---- the same on frames ----

  lemma SubStep(t: Tree, p: Path, i: Index)
    ensures SubFirst(t, p, i + 1) == SubFirst(t, p, i) + Sub(t, Child(p, i))
    ensures SubFirst(t, p, i) !! Sub(t, Child(p, i))
  {
    forall q ensures UnderFirst(p, i + 1, q) <==> UnderFirst(p, i, q) || Under(Child(p, i), q) { UnderStep(p, i, q); }
    forall q ensures !(UnderFirst(p, i, q) && Under(Child(p, i), q)) { UnderApart(p, i, q); }
  }

  lemma SubWithin(t: Tree, p: Path, i: Index)
    ensures Sub(t, Child(p, i)) <= Sub(t, p)
  {
    forall f | f in t.role && Under(Child(p, i), t.role[f]) ensures Under(p, t.role[f]) {
      UnderStep(p, i, t.role[f]);
      UnderMore(p, i + 1, t.role[f]);
    }
  }

  lemma SubNone(t: Tree, p: Path)
    ensures SubFirst(t, p, 0) == {}
  {
    forall q ensures !UnderFirst(p, 0, q) { UnderNone(p, q); }
  }

  lemma SubAll(t: Tree, p: Path)
    requires t.Injective() && p in t.at
    ensures t.Onto() ==> Sub(t, p) == SubFirst(t, p, 512) + {t.at[p]}
    ensures t.at[p] !in SubFirst(t, p, 512)
  {
    forall q ensures Under(p, q) <==> q == p || UnderFirst(p, 512, q) { UnderAll(p, q); }
    if UnderFirst(p, 512, p) { UnderFirstDeeper(p, 512, p); }
  }

  lemma SubAbsent(t: Tree, p: Path)
    requires Shaped(t) && t.Onto() && p !in t.at
    ensures Sub(t, p) == {}
  {
    forall f | f in t.role ensures !Under(p, t.role[f]) {
      if Under(p, t.role[f]) { NothingBelowAbsent(t, p, t.role[f]); }
    }
  }

  /** Below a page is only the page. */
  lemma SubLeaf(t: Tree, p: Path)
    requires Shaped(t) && t.Onto() && p in t.at && Level(p) == 4
    ensures Sub(t, p) == {t.at[p]}
  {
    SubAll(t, p);
    forall f | f in t.role ensures !UnderFirst(p, 512, t.role[f]) {
      assert t.role[f] in t.at;
      if UnderFirst(p, 512, t.role[f]) { UnderFirstDeeper(p, 512, t.role[f]); }
    }
  }

  /** Everything of one owner. */
  ghost function FramesOf(t: Tree, o: Owner): set<nat> {
    set f | f in t.role && OwnerOf(t.role[f]) == o
  }

  lemma SubRoot(t: Tree, o: Owner)
    ensures Sub(t, Root(o)) == FramesOf(t, o)
  {
    forall q ensures Under(Root(o), q) <==> OwnerOf(q) == o { UnderRoot(o, q); }
  }

  // ---- slot 0 of a space ----

  lemma WindowPath(s: nat, i: Index)
    ensures var p := Child(Child(Root(Space(s)), 0), 0);
      && Level(p) == 2 && OwnerOf(p) == Space(s)
      && Level(Child(p, i)) == 3 && OwnerOf(Child(p, i)) == Space(s) && AllOwned(Child(p, i))
      && (OwnStep(p, i) <==> 1 <= i < 8) && (1 <= i < 8 <==> Own(Child(p, i)))
      && !IdentityPd(p)
  {
    var p1 := Child(Root(Space(s)), 0);
    assert Level(Root(Space(s))) == 0 && OwnerOf(Root(Space(s))) == Space(s) && Own(Root(Space(s)));
    assert Level(p1) == 1 && OwnerOf(p1) == Space(s) && Own(p1);
  }

  /** Nothing is owned below an entry the owner has no right to. */
  lemma SubNotOwned(t: Tree, p: Path, i: Index)
    requires Shaped(t) && t.Onto() && !OwnStep(p, i)
    ensures Sub(t, Child(p, i)) == {}
  {
    assert !Own(Child(p, i));
    SubAbsent(t, Child(p, i));
  }

  lemma {:induction false} SubFirstStays(t: Tree, p: Path, m: nat, n: nat)
    requires m <= n <= 512
    requires forall i: Index | m <= i < n :: Sub(t, Child(p, i)) == {}
    ensures SubFirst(t, p, n) == SubFirst(t, p, m)
    decreases n
  {
    if m < n {
      SubFirstStays(t, p, m, n - 1);
      SubStep(t, p, n - 1);
    }
  }

  lemma OnlyFourLow(t: Tree, s: nat)
    requires Shaped(t) && t.Onto()
    ensures SubFirst(t, Child(Root(Space(s)), 0), 512) == SubFirst(t, Child(Root(Space(s)), 0), 4)
  {
    var p := Child(Root(Space(s)), 0);
    forall i: Index | 4 <= i < 512 ensures Sub(t, Child(p, i)) == {} { SubNotOwned(t, p, i); }
    SubFirstStays(t, p, 4, 512);
  }

  lemma OnlyTheWindow(t: Tree, s: nat, k: Index)
    requires Shaped(t) && t.Onto() && 0 < k < 4
    ensures SubFirst(t, Child(Child(Root(Space(s)), 0), k), 512) == {}
  {
    var p := Child(Child(Root(Space(s)), 0), k);
    forall i: Index ensures Sub(t, Child(p, i)) == {} { SubNotOwned(t, p, i); }
    SubNone(t, p);
    SubFirstStays(t, p, 0, 512);
  }
}
