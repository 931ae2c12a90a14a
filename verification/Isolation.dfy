/** What user code sees through a space: reading and writing words of private pages. */
module Isolation {
  import opened Options
  import opened FrameBitmap
  import opened PageTables
  import opened PageTableSteps
  import opened SpaceSteps
  import opened MappingSteps
  import opened CloneSteps

  /** Word k of page pg, read through the space at root. */
  function ReadWord(ram: Ram, root: nat, pg: Page, k: Index): Option<Entry> {
    match Walk(ram, root, pg)
    case None => None
    case Some(e) => Some(Load(ram, e.frame)[k])
  }

  /** A store of w to word k of page pg through the space at root; without a mapping it faults. */
  function WriteWord(ram: Ram, root: nat, pg: Page, k: Index, w: Entry): Ram {
    match Walk(ram, root, pg)
    case None => ram
    case Some(e) => if e.frame < |ram| then Store(ram, e.frame, k, w) else ram
  }

  /** The frame of a private page is no table. */
  lemma PrivateFrame(ram: Ram, t: Tree, s: nat, pg: Page)
    requires Good(ram, t) && Root(Space(s)) in t.at && Private(pg)
    ensures Walk(ram, s, pg) == TreeWalk(ram, t, Space(s), pg)
    ensures Walk(ram, s, pg).Some? ==> Leaf(Space(s), pg) in t.at
    ensures Walk(ram, s, pg).Some? ==>
      Walk(ram, s, pg).value.frame == t.at[Leaf(Space(s), pg)] < |ram| && NotTable(t, Walk(ram, s, pg).value.frame)
  {
    TrackedIsPrivate(s, pg);
    WalkIsTreeWalk(ram, t, Space(s), pg);
    MappedFrame(ram, t, Space(s), pg);
    OwnSteps(Space(s), pg);
    assert t.at[Root(Space(s))] == s;
  }

  /** A user store keeps every table, so every translation and permission. */
  lemma WriteKeepsTables(ram: Ram, t: Tree, s: nat, pg: Page, k: Index, w: Entry)
    requires Good(ram, t) && Root(Space(s)) in t.at && Private(pg)
    ensures Good(WriteWord(ram, s, pg, k, w), t)
    ensures SameWalks(ram, t, WriteWord(ram, s, pg, k, w), t)
  {
    PrivateFrame(ram, t, s, pg);
    if Walk(ram, s, pg).Some? {
      WriteData(ram, t, WriteWord(ram, s, pg, k, w), Walk(ram, s, pg).value.frame);
    }
  }

  /** Two private pages, of the same space or of two, never share a frame. */
  lemma FramesApart(ram: Ram, t: Tree, s: nat, a: Page, r: nat, b: Page)
    requires Good(ram, t) && Root(Space(s)) in t.at && Root(Space(r)) in t.at && Private(a) && Private(b)
    requires Walk(ram, s, a).Some? && Walk(ram, r, b).Some? && (s, a) != (r, b)
    ensures Walk(ram, s, a).value.frame != Walk(ram, r, b).value.frame
  {
    PrivateFrame(ram, t, s, a);
    PrivateFrame(ram, t, r, b);
    assert Leaf(Space(s), a) != Leaf(Space(r), b);
  }

  /** A store through one private page is invisible through every other private page of every
      space, and reads back through its own. */
  lemma WriteIsolated(ram: Ram, t: Tree, s: nat, a: Page, k: Index, w: Entry, r: nat, b: Page, j: Index)
    requires Good(ram, t) && Root(Space(s)) in t.at && Root(Space(r)) in t.at && Private(a) && Private(b)
    ensures ReadWord(WriteWord(ram, s, a, k, w), r, b, j) ==
      if (s, a, k) == (r, b, j) && Walk(ram, s, a).Some? then Some(w) else ReadWord(ram, r, b, j)
  {
    var ram' := WriteWord(ram, s, a, k, w);
    WriteKeepsTables(ram, t, s, a, k, w);
    TrackedIsPrivate(r, b);
    PrivateFrame(ram, t, s, a);
    PrivateFrame(ram, t, r, b);
    PrivateFrame(ram', t, r, b);
    hide TreeWalk, Inv, Granting, Walk;
    assert Walk(ram', r, b) == Walk(ram, r, b);
    if Walk(ram, s, a).Some? && Walk(ram, r, b).Some? && (s, a) != (r, b) {
      FramesApart(ram, t, s, a, r, b);
    }
  }

  /** After a clone both spaces read the same words with the same effective permissions. */
  lemma CloneReadsEqual(ram: Ram, t: Tree, src: nat, dst: nat, pg: Page, k: Index)
    requires Good(ram, t) && Root(Space(src)) in t.at && Root(Space(dst)) in t.at && Private(pg)
    requires Copied(ram, t, src, dst, pg)
    ensures ReadWord(ram, dst, pg, k) == ReadWord(ram, src, pg, k)
    ensures Effective(ram, dst, pg) == Effective(ram, src, pg)
  {
    PrivateFrame(ram, t, src, pg);
    PrivateFrame(ram, t, dst, pg);
    EffectiveIsLeaf(ram, t, src, pg);
    EffectiveIsLeaf(ram, t, dst, pg);
  }

  /** Mapping, unmapping or reflagging one page leaves the effective permission of every other private
      page of every space as it was, although tables above it may have been widened. */
  lemma RightsKept(ram: Ram, t: Tree, ram': Ram, t': Tree, s: nat, page: Page, r: nat, pg: Page)
    requires Good(ram, t) && Good(ram', t') && KeptWalksBut(ram, t, ram', t', Space(s), page)
    requires Root(Space(r)) in t.at && Root(Space(r)) in t'.at && Private(pg) && (r, pg) != (s, page)
    ensures Effective(ram', r, pg) == Effective(ram, r, pg) && Walk(ram', r, pg) == Walk(ram, r, pg)
  {
    hide TreeWalk, Inv, Granting, Walk, Effective;
    TrackedIsPrivate(r, pg);
    PrivateFrame(ram, t, r, pg);
    PrivateFrame(ram', t', r, pg);
    EffectiveIsLeaf(ram, t, r, pg);
    EffectiveIsLeaf(ram', t', r, pg);
    assert KeptPage(Space(r), pg, TreeWalk(ram, t, Space(r), pg), TreeWalk(ram', t', Space(r), pg));
  }
}
