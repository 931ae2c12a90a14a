/** The kernel heap as a sequence of eight-byte words with boundary tags: what a block is, what the
    free list threads through, and what each small edit of the words does to both.
    Offsets count words from the start of the heap; block sizes count words too. */
module HeapLayout {

  /** The null pointer among word offsets. */
  const NIL: int := -1

  /** header (size, flag), next pointer, footer (size, flag) */
  const MIN_BLOCK: nat := 5
  const HEADER: nat := 2

  datatype Block = Block(size: nat, free: bool)

  function Flag(free: bool): int { if free then 1 else 0 }

  /** The blocks by offset, and the free list in link order. */
  datatype Layout = Layout(blocks: map<nat, Block>, list: seq<nat>)

  /** After the block at a comes another one, or the end of the heap. */
  ghost predicate Followed(blocks: map<nat, Block>, end: nat, a: nat)
    requires a in blocks
  {
    a + blocks[a].size == end || a + blocks[a].size in blocks
  }

  /** Two blocks do not overlap. */
  ghost predicate Ordered(blocks: map<nat, Block>, a: nat, b: nat)
    requires a in blocks && b in blocks
  {
    (a < b ==> a + blocks[a].size <= b) && (b < a ==> b + blocks[b].size <= a)
  }

  /** The blocks tile [0, end) without gap or overlap. */
  ghost predicate Tiled(blocks: map<nat, Block>, end: nat) {
    && (end > 0 ==> 0 in blocks)
    && (forall a {:trigger blocks[a]} | a in blocks :: blocks[a].size >= MIN_BLOCK && a + blocks[a].size <= end)
    && (forall a {:trigger Followed(blocks, end, a)} | a in blocks :: Followed(blocks, end, a))
    && (forall a, b {:trigger Ordered(blocks, a, b)} | a in blocks && b in blocks :: Ordered(blocks, a, b))
  }

  /** Header and footer of the block at a agree with b. */
  ghost predicate Tagged(m: seq<int>, a: nat, b: Block) {
    && b.size >= MIN_BLOCK && a + b.size <= |m|
    && m[a] == b.size && m[a + 1] == Flag(b.free)
    && m[a + b.size - 2] == b.size && m[a + b.size - 1] == Flag(b.free)
  }

  /** The footer just below a describes the block that ends there. */
  ghost predicate Backed(m: seq<int>, blocks: map<nat, Block>, a: nat) {
    a > 0 ==> 2 <= a <= |m| && 0 <= a - m[a - 2] && a - m[a - 2] in blocks && blocks[a - m[a - 2]].size == m[a - 2]
  }

  /** Every header and footer is right. */
  ghost predicate Tags(m: seq<int>, blocks: map<nat, Block>, end: nat) {
    && (forall a {:trigger Tagged(m, a, blocks[a])} | a in blocks :: Tagged(m, a, blocks[a]))
    && (forall a {:trigger Backed(m, blocks, a)} | a in blocks || a == end :: Backed(m, blocks, a))
  }

  /** What follows position i of the list. */
  function After(list: seq<nat>, i: int): int
    requires -1 <= i < |list|
  {
    if i + 1 < |list| then list[i + 1] else NIL
  }

  /** The next pointer of the i-th block of the list is right. */
  ghost predicate Linked(m: seq<int>, list: seq<nat>, i: nat)
    requires i < |list|
  {
    list[i] + 2 < |m| && m[list[i] + 2] == After(list, i)
  }

  /** The list pointers run through `list`. */
  ghost predicate Chained(m: seq<int>, head: int, list: seq<nat>) {
    && head == After(list, -1)
    && forall i {:trigger Linked(m, list, i)} | 0 <= i < |list| :: Linked(m, list, i)
  }

  ghost predicate Distinct(list: seq<nat>) {
    forall i, j {:trigger list[i], list[j]} | 0 <= i < j < |list| :: list[i] != list[j]
  }

  /** The list holds exactly the free blocks, except those in `holes`. */
  ghost predicate Listed(l: Layout, holes: set<nat>) {
    && Distinct(l.list)
    && (forall i {:trigger l.list[i]} | 0 <= i < |l.list| :: l.list[i] in l.blocks && l.blocks[l.list[i]].free && l.list[i] !in holes)
    && (forall a {:trigger l.blocks[a]} | a in l.blocks && l.blocks[a].free && a !in holes :: a in l.list)
    && (forall a {:trigger a in holes} | a in holes :: a in l.blocks && l.blocks[a].free)
  }

  /** No two neighbours are both free, unless one of them is in `holes`. */
  ghost predicate Merged(blocks: map<nat, Block>, holes: set<nat>) {
    forall a, b {:trigger blocks[a], blocks[b]} | a in blocks && b in blocks && a + blocks[a].size == b && blocks[a].free && blocks[b].free ::
      a in holes || b in holes
  }

  /** The whole invariant; `holes` are free blocks that an operation has taken off the list. */
  ghost predicate Inv(m: seq<int>, end: nat, head: int, l: Layout, holes: set<nat>) {
    && end <= |m| && Tiled(l.blocks, end)
    && Tags(m, l.blocks, end)
    && Chained(m, head, l.list) && Listed(l, holes) && Merged(l.blocks, holes)
  }

  // ---- what the tiling says ----

  /** Every word below the end lies in a block, */
  lemma {:induction false} Covered(blocks: map<nat, Block>, end: nat, a: nat, w: nat) returns (b: nat)
    requires Tiled(blocks, end) && a in blocks && a <= w < end
    ensures b in blocks && b <= w < b + blocks[b].size
    decreases end - a
  {
    if w < a + blocks[a].size {
      b := a;
    } else {
      assert Followed(blocks, end, a);
      b := Covered(blocks, end, a + blocks[a].size, w);
    }
  }

  /** and in one only. */
  lemma InOneBlock(blocks: map<nat, Block>, end: nat, a: nat, b: nat, w: nat)
    requires Tiled(blocks, end) && a in blocks && b in blocks
    requires a <= w < a + blocks[a].size && b <= w < b + blocks[b].size
    ensures a == b
  {
    assert Ordered(blocks, a, b);
  }

  /** Exact tiling: each word of the heap belongs to exactly one block. */
  lemma ExactTiling(blocks: map<nat, Block>, end: nat, w: nat)
    requires Tiled(blocks, end) && w < end
    ensures exists b :: b in blocks && b <= w < b + blocks[b].size && forall c | c in blocks && c <= w < c + blocks[c].size :: c == b
  {
    var b := Covered(blocks, end, 0, w);
    forall c | c in blocks && c <= w < c + blocks[c].size ensures c == b { InOneBlock(blocks, end, b, c, w); }
  }

  /** The payload of the block at a lies inside the heap and meets no word of any other block, neither
      payload nor header nor footer. */
  lemma PayloadsApart(blocks: map<nat, Block>, end: nat, a: nat, b: nat, w: nat)
    requires Tiled(blocks, end) && a in blocks && b in blocks && a + HEADER <= w < a + blocks[a].size - HEADER
    ensures w < end && (b <= w < b + blocks[b].size ==> b == a)
    ensures a <= w && w != a && w != a + 1 && w != a + blocks[a].size - 2 && w != a + blocks[a].size - 1
  {
    assert Ordered(blocks, a, b);
  }

  // ---- taking a block off the list ----

  function Unlinked(l: Layout, i: nat): Layout
    requires i < |l.list|
  {
    l.(list := l.list[..i] + l.list[i + 1..])
  }

  /** What remove_block_from_free_list writes for the i-th block. */
  ghost predicate Unlinks(m: seq<int>, head: int, l: Layout, i: nat, m': seq<int>, head': int) {
    && i < |l.list| && l.list[i] + 2 < |m|
    && if i == 0 then m' == m && head' == m[l.list[0] + 2]
       else head' == head && l.list[i - 1] + 2 < |m| && m' == m[l.list[i - 1] + 2 := m[l.list[i] + 2]]
  }

  lemma UnlinkStep(m: seq<int>, end: nat, head: int, l: Layout, holes: set<nat>, i: nat, m': seq<int>, head': int)
    requires Inv(m, end, head, l, holes) && Unlinks(m, head, l, i, m', head')
    ensures Inv(m', end, head', Unlinked(l, i), holes + {l.list[i]})
  {
    hide Tags, Tiled, Listed;
    UnlinkListed(l, holes, i);
    InList(l, holes, i);
    UnlinkChained(m, head, l, i, m', head');
    if i > 0 {
      InList(l, holes, i - 1);
      NextWordKeepsTags(m, end, l.blocks, l.list[i - 1], m[l.list[i] + 2]);
    }
  }

  lemma InList(l: Layout, holes: set<nat>, i: nat)
    requires Listed(l, holes) && i < |l.list|
    ensures l.list[i] in l.blocks && l.blocks[l.list[i]].free && l.list[i] !in holes && Distinct(l.list)
  {
  }

  /** Dropping position i from a list without repetition drops that element and no other. */
  lemma Dropped(list: seq<nat>, i: nat)
    requires Distinct(list) && i < |list|
    ensures var list' := list[..i] + list[i + 1..];
      Distinct(list') && forall a {:trigger a in list'} {:trigger a in list} :: a in list' <==> a in list && a != list[i]
  {
    var list' := list[..i] + list[i + 1..];
    assert forall k | 0 <= k < |list'| :: list'[k] == list[if k < i then k else k + 1];
    forall a | a in list && a != list[i] ensures a in list' {
      var k :| 0 <= k < |list| && list[k] == a;
      assert list'[if k < i then k else k - 1] == a;
    }
  }

  lemma UnlinkListed(l: Layout, holes: set<nat>, i: nat)
    requires Listed(l, holes) && i < |l.list|
    ensures Listed(Unlinked(l, i), holes + {l.list[i]})
  {
    Dropped(l.list, i);
    var list' := l.list[..i] + l.list[i + 1..];
    forall k | 0 <= k < |list'| ensures list'[k] in l.list && list'[k] != l.list[i] {
      assert list'[k] in list';
    }
  }

  lemma UnlinkChained(m: seq<int>, head: int, l: Layout, i: nat, m': seq<int>, head': int)
    requires Chained(m, head, l.list) && Distinct(l.list) && Unlinks(m, head, l, i, m', head')
    ensures Chained(m', head', Unlinked(l, i).list)
  {
    var list' := Unlinked(l, i).list;
    assert Linked(m, l.list, i);
    forall k | 0 <= k < |list'| ensures Linked(m', list', k) {
      var k0 := if k < i then k else k + 1;
      assert list'[k] == l.list[k0];
      assert Linked(m, l.list, k0);
    }
  }

  /** Writing the next pointer of a block leaves all tags. */
  lemma NextWordKeepsTags(m: seq<int>, end: nat, blocks: map<nat, Block>, p: nat, v: int)
    requires end <= |m| && Tiled(blocks, end) && p in blocks && Tags(m, blocks, end)
    ensures Tags(m[p + 2 := v], blocks, end)
  {
    var m' := m[p + 2 := v];
    forall a | a in blocks ensures Tagged(m', a, blocks[a]) {
      assert Tagged(m, a, blocks[a]) && Ordered(blocks, a, p);
    }
    forall a | a in blocks || a == end ensures Backed(m', blocks, a) {
      assert Backed(m, blocks, a);
      if a > 0 { BeforeIs(blocks, end, a, a - m[a - 2], p); }
    }
  }

  // ---- merging two neighbours ----

  /** The blocks with the one at n swallowed by its neighbour at b. */
  function Swallowed(blocks: map<nat, Block>, b: nat, n: nat): map<nat, Block>
    requires b in blocks && n in blocks
  {
    (blocks - {n})[b := Block(blocks[b].size + blocks[n].size, true)]
  }

  /** ws are the only words that differ. */
  ghost predicate SameBut(m: seq<int>, m': seq<int>, ws: set<int>) {
    |m'| == |m| && forall w {:trigger m'[w]} | 0 <= w < |m| && w !in ws :: m'[w] == m[w]
  }

  /** What coalesce writes when the block at b, free and off the list, takes in the one after it. */
  ghost predicate Merges(m: seq<int>, l: Layout, b: nat, n: nat, m': seq<int>) {
    && b in l.blocks && n == b + l.blocks[b].size && n in l.blocks && b != n
    && var s := l.blocks[b].size + l.blocks[n].size;
    && b + s <= |m| && s >= 10
    && SameBut(m, m', {b, b + s - 2, b + s - 1})
    && m'[b] == s && m'[b + s - 2] == s && m'[b + s - 1] == 1
  }

  lemma MergeTiled(blocks: map<nat, Block>, end: nat, b: nat, n: nat)
    requires Tiled(blocks, end) && b in blocks && n in blocks && n == b + blocks[b].size
    ensures Tiled(Swallowed(blocks, b, n), end)
  {
    var blocks' := Swallowed(blocks, b, n);
    forall a | a in blocks' ensures Followed(blocks', end, a) {
      assert Followed(blocks, end, a) && Followed(blocks, end, n) && Ordered(blocks, a, b);
    }
    forall a, c | a in blocks' && c in blocks' ensures Ordered(blocks', a, c) { MergeOrdered(blocks, end, b, n, a, c); }
  }

  lemma MergeOrdered(blocks: map<nat, Block>, end: nat, b: nat, n: nat, a: nat, c: nat)
    requires Tiled(blocks, end) && b in blocks && n in blocks && n == b + blocks[b].size
    requires a in Swallowed(blocks, b, n) && c in Swallowed(blocks, b, n)
    ensures Ordered(Swallowed(blocks, b, n), a, c)
  {
    assert Ordered(blocks, a, c) && Ordered(blocks, n, c) && Ordered(blocks, n, a) && Ordered(blocks, b, a) && Ordered(blocks, b, c);
  }

  lemma MergeTags(m: seq<int>, end: nat, l: Layout, b: nat, n: nat, m': seq<int>)
    requires end <= |m| && Tiled(l.blocks, end) && Tags(m, l.blocks, end) && Merges(m, l, b, n, m') && l.blocks[b].free
    ensures Tags(m', Swallowed(l.blocks, b, n), end)
  {
    var blocks' := Swallowed(l.blocks, b, n);
    assert Tagged(m, b, l.blocks[b]) && Tagged(m, n, l.blocks[n]);
    forall a | a in blocks' ensures Tagged(m', a, blocks'[a]) {
      assert Tagged(m, a, l.blocks[a]) && Ordered(l.blocks, a, b) && Ordered(l.blocks, a, n);
    }
    forall a | a in blocks' || a == end ensures Backed(m', blocks', a) {
      MergeBacked(m, end, l, b, n, m', a);
    }
  }

  lemma MergeBacked(m: seq<int>, end: nat, l: Layout, b: nat, n: nat, m': seq<int>, a: nat)
    requires end <= |m| && Tiled(l.blocks, end) && Tags(m, l.blocks, end) && Merges(m, l, b, n, m')
    requires a in Swallowed(l.blocks, b, n) || a == end
    ensures Backed(m', Swallowed(l.blocks, b, n), a)
  {
    assert Backed(m, l.blocks, a);
    if a > 0 {
      BeforeIs(l.blocks, end, a, a - m[a - 2], b);
      BeforeIs(l.blocks, end, a, a - m[a - 2], n);
    }
  }

  /** The block that ends at a, against any other block c. */
  lemma BeforeIs(blocks: map<nat, Block>, end: nat, a: nat, p: nat, c: nat)
    requires Tiled(blocks, end) && (a in blocks || a == end) && p in blocks && p + blocks[p].size == a && c in blocks
    ensures c == p || c + blocks[c].size <= p || a <= c
    ensures blocks[p].size >= MIN_BLOCK && blocks[c].size >= MIN_BLOCK
  {
    assert a in blocks ==> Ordered(blocks, a, c);
    assert Ordered(blocks, c, p);
  }

  lemma MergeChained(m: seq<int>, end: nat, head: int, l: Layout, holes: set<nat>, b: nat, n: nat, m': seq<int>)
    requires Tiled(l.blocks, end) && Chained(m, head, l.list) && Listed(l, holes) && end <= |m|
    requires Merges(m, l, b, n, m') && b in holes && n in holes
    ensures Chained(m', head, l.list)
  {
    forall i | 0 <= i < |l.list| ensures Linked(m', l.list, i) {
      assert Linked(m, l.list, i);
      assert Ordered(l.blocks, l.list[i], b) && Ordered(l.blocks, l.list[i], n);
    }
  }

  lemma MergeListed(l: Layout, holes: set<nat>, b: nat, n: nat)
    requires Listed(l, holes) && b in holes && n in holes && b != n
    ensures Listed(l.(blocks := Swallowed(l.blocks, b, n)), holes - {n})
  {
  }

  lemma MergeMerged(blocks: map<nat, Block>, end: nat, holes: set<nat>, b: nat, n: nat)
    requires Tiled(blocks, end) && Merged(blocks, holes) && b in holes && n in holes && b in blocks && n in blocks && n == b + blocks[b].size
    ensures Merged(Swallowed(blocks, b, n), holes - {n})
  {
  }

  /** The two halves of coalesce: a free block off the list takes in a free block off the list. */
  lemma MergeStep(m: seq<int>, end: nat, head: int, l: Layout, holes: set<nat>, b: nat, n: nat, m': seq<int>)
    requires Inv(m, end, head, l, holes) && Merges(m, l, b, n, m') && b in holes && n in holes
    ensures Inv(m', end, head, l.(blocks := Swallowed(l.blocks, b, n)), holes - {n})
  {
    MergeTiled(l.blocks, end, b, n);
    assert l.blocks[b].free;
    MergeTags(m, end, l, b, n, m');
    hide Tags, Tiled;
    MergeChained(m, end, head, l, holes, b, n, m');
    MergeListed(l, holes, b, n);
    MergeMerged(l.blocks, end, holes, b, n);
  }

  // ---- putting a block on the list ----

  /** What add_block_to_free_list writes. */
  ghost predicate Links(m: seq<int>, head: int, b: nat, m': seq<int>) {
    b + 2 < |m| && SameBut(m, m', {b + 1, b + 2}) && m'[b + 1] == 1 && m'[b + 2] == head
  }

  lemma LinkTags(m: seq<int>, end: nat, head: int, blocks: map<nat, Block>, b: nat, m': seq<int>)
    requires end <= |m| && Tiled(blocks, end) && Tags(m, blocks, end) && Links(m, head, b, m') && b in blocks && blocks[b].free
    ensures Tags(m', blocks, end)
  {
    assert Tagged(m, b, blocks[b]);
    assert m' == m[b + 2 := head];
    NextWordKeepsTags(m, end, blocks, b, head);
  }

  lemma LinkChained(m: seq<int>, head: int, l: Layout, holes: set<nat>, end: nat, b: nat, m': seq<int>)
    requires Chained(m, head, l.list) && Listed(l, holes) && Tiled(l.blocks, end) && Links(m, head, b, m') && b in holes
    ensures Chained(m', b, [b] + l.list) && Listed(l.(list := [b] + l.list), holes - {b})
  {
    var list' := [b] + l.list;
    forall i | 0 <= i < |list'| ensures Linked(m', list', i) {
      if i > 0 {
        assert Linked(m, l.list, i - 1);
        assert list'[i] == l.list[i - 1];
        assert Ordered(l.blocks, l.list[i - 1], b);
      }
    }
    assert forall a | a in l.list :: a in list';
    assert list'[0] == b;
  }

  /** add_block_to_free_list. */
  lemma LinkStep(m: seq<int>, end: nat, head: int, l: Layout, holes: set<nat>, b: nat, m': seq<int>)
    requires Inv(m, end, head, l, holes) && Links(m, head, b, m') && b in holes && Merged(l.blocks, holes - {b})
    ensures Inv(m', end, b, l.(list := [b] + l.list), holes - {b})
  {
    assert l.blocks[b].free;
    hide Tiled, Tags, Chained, Listed;
    LinkTags(m, end, head, l.blocks, b, m');
    LinkChained(m, head, l, holes, end, b, m');
  }

  // ---- neighbours ----

  /** The block after b, if any, is allocated. */
  ghost predicate NextBusy(blocks: map<nat, Block>, b: nat) {
    b in blocks && (b + blocks[b].size in blocks ==> !blocks[b + blocks[b].size].free)
  }

  /** The block before b, if any, is allocated. */
  ghost predicate PrevBusy(blocks: map<nat, Block>, b: nat) {
    forall a {:trigger blocks[a]} | a in blocks && a + blocks[a].size == b :: !blocks[a].free
  }

  /** A hole with two allocated neighbours may go on the list. */
  lemma HoleCloses(blocks: map<nat, Block>, b: nat)
    requires Merged(blocks, {b}) && NextBusy(blocks, b) && PrevBusy(blocks, b)
    ensures Merged(blocks, {})
  {
  }

  /** Swallowing a free next block leaves an allocated one behind it. */
  lemma NextAfterMerge(blocks: map<nat, Block>, b: nat, n: nat)
    requires Merged(blocks, {b}) && b in blocks && n in blocks && n != b && blocks[n].free && n == b + blocks[b].size
    requires blocks[n].size > 0
    ensures NextBusy(Swallowed(blocks, b, n), b)
  {
    var after := n + blocks[n].size;
    assert after in blocks ==> !blocks[after].free || after in {b};
  }

  /** prev_block reads the one block that ends where b starts. */
  lemma PrevIs(m: seq<int>, end: nat, blocks: map<nat, Block>, b: nat)
    requires end <= |m| && Tiled(blocks, end) && Tags(m, blocks, end) && b in blocks
    ensures b > 0 ==> 2 <= b && 0 <= b - m[b - 2] < b && b - m[b - 2] in blocks && b - m[b - 2] + blocks[b - m[b - 2]].size == b
    ensures b > 0 ==> (PrevBusy(blocks, b) <==> !blocks[b - m[b - 2]].free)
    ensures b == 0 ==> PrevBusy(blocks, b)
  {
    assert Backed(m, blocks, b);
    forall a | a in blocks && a + blocks[a].size == b ensures b > 0 && a == b - m[b - 2] {
      assert blocks[a].size >= MIN_BLOCK;
      BeforeIs(blocks, end, b, b - m[b - 2], a);
    }
  }

  /** Two free blocks before the hole cannot be neighbours. */
  lemma PrevAfterMerge(blocks: map<nat, Block>, end: nat, p: nat, b: nat)
    requires Tiled(blocks, end) && Merged(blocks, {b}) && p in blocks && b in blocks && b == p + blocks[p].size && blocks[p].free
    requires NextBusy(blocks, b)
    ensures PrevBusy(Swallowed(blocks, p, b), p) && NextBusy(Swallowed(blocks, p, b), p)
  {
    assert blocks[b].size >= MIN_BLOCK && blocks[p].size >= MIN_BLOCK;
    forall a | a in Swallowed(blocks, p, b) && a + Swallowed(blocks, p, b)[a].size == p ensures !blocks[a].free {
      assert a != b && a != p;
    }
  }

  // ---- changing one block's flag ----

  function Marked(blocks: map<nat, Block>, b: nat, free: bool): map<nat, Block>
    requires b in blocks
  {
    blocks[b := Block(blocks[b].size, free)]
  }

  /** Both flags of the block at b now say `free`. */
  ghost predicate Marks(m: seq<int>, blocks: map<nat, Block>, b: nat, free: bool, m': seq<int>) {
    && b in blocks && b + blocks[b].size <= |m| && blocks[b].size >= MIN_BLOCK
    && SameBut(m, m', {b + 1, b + blocks[b].size - 1})
    && m'[b + 1] == Flag(free) && m'[b + blocks[b].size - 1] == Flag(free)
  }

  lemma MarkTiled(blocks: map<nat, Block>, end: nat, b: nat, free: bool)
    requires Tiled(blocks, end) && b in blocks
    ensures Tiled(Marked(blocks, b, free), end)
  {
    var blocks' := Marked(blocks, b, free);
    forall a | a in blocks' ensures Followed(blocks', end, a) { assert Followed(blocks, end, a); }
    forall a, c | a in blocks' && c in blocks' ensures Ordered(blocks', a, c) { assert Ordered(blocks, a, c); }
  }

  lemma MarkTags(m: seq<int>, end: nat, blocks: map<nat, Block>, b: nat, free: bool, m': seq<int>)
    requires end <= |m| && Tiled(blocks, end) && Tags(m, blocks, end) && Marks(m, blocks, b, free, m')
    ensures Tags(m', Marked(blocks, b, free), end)
  {
    var blocks' := Marked(blocks, b, free);
    forall a | a in blocks' ensures Tagged(m', a, blocks'[a]) {
      assert Tagged(m, a, blocks[a]) && Ordered(blocks, a, b);
    }
    forall a | a in blocks' || a == end ensures Backed(m', blocks', a) {
      MarkBacked(m, end, blocks, b, free, m', a);
    }
  }

  lemma MarkBacked(m: seq<int>, end: nat, blocks: map<nat, Block>, b: nat, free: bool, m': seq<int>, a: nat)
    requires end <= |m| && Tiled(blocks, end) && Tags(m, blocks, end) && Marks(m, blocks, b, free, m')
    requires a in blocks || a == end
    ensures Backed(m', Marked(blocks, b, free), a)
  {
    assert Backed(m, blocks, a);
    if a > 0 { BeforeIs(blocks, end, a, a - m[a - 2], b); }
  }

  lemma MarkChained(m: seq<int>, end: nat, head: int, l: Layout, holes: set<nat>, b: nat, free: bool, m': seq<int>)
    requires end <= |m| && Tiled(l.blocks, end) && Chained(m, head, l.list) && Listed(l, holes) && Marks(m, l.blocks, b, free, m')
    requires b !in l.list
    ensures Chained(m', head, l.list)
  {
    forall i | 0 <= i < |l.list| ensures Linked(m', l.list, i) {
      assert Linked(m, l.list, i) && Ordered(l.blocks, l.list[i], b);
    }
  }

  /** kfree's first stores: an allocated block becomes a hole. */
  lemma FreeStep(m: seq<int>, end: nat, head: int, l: Layout, b: nat, m': seq<int>)
    requires Inv(m, end, head, l, {}) && Marks(m, l.blocks, b, true, m') && !l.blocks[b].free
    ensures Inv(m', end, head, l.(blocks := Marked(l.blocks, b, true)), {b})
  {
    MarkTiled(l.blocks, end, b, true);
    MarkTags(m, end, l.blocks, b, true, m');
    hide Tags;
    MarkChained(m, end, head, l, {}, b, true, m');
    hide Tiled, Chained;
  }

  /** allocate_block without a split: a hole becomes an allocated block. */
  lemma TakeStep(m: seq<int>, end: nat, head: int, l: Layout, b: nat, m': seq<int>)
    requires Inv(m, end, head, l, {b}) && Marks(m, l.blocks, b, false, m') && l.blocks[b].free && Merged(Marked(l.blocks, b, false), {})
    ensures Inv(m', end, head, l.(blocks := Marked(l.blocks, b, false)), {})
  {
    MarkTiled(l.blocks, end, b, false);
    MarkTags(m, end, l.blocks, b, false, m');
    hide Tags;
    MarkChained(m, end, head, l, {b}, b, false, m');
    hide Tiled, Chained;
  }

  // ---- splitting ----

  function Divided(blocks: map<nat, Block>, c: nat, total: nat): map<nat, Block>
    requires c in blocks && total <= blocks[c].size
  {
    blocks[c := Block(total, true)][c + total := Block(blocks[c].size - total, true)]
  }

  /** The free block at c now ends after `total` words, and the rest is a free block. */
  ghost predicate Divides(m: seq<int>, blocks: map<nat, Block>, c: nat, total: nat, m': seq<int>) {
    && c in blocks && MIN_BLOCK <= total && total + MIN_BLOCK <= blocks[c].size && c + blocks[c].size <= |m|
    && var n, rest := c + total, blocks[c].size - total;
    && SameBut(m, m', {n, n + 1, n + rest - 2, n + rest - 1, c, c + total - 2, c + total - 1})
    && m'[n] == rest && m'[n + 1] == 1 && m'[n + rest - 2] == rest && m'[n + rest - 1] == 1
    && m'[c] == total && m'[c + total - 2] == total && m'[c + total - 1] == 1
  }

  lemma DivideTiled(blocks: map<nat, Block>, end: nat, c: nat, total: nat)
    requires Tiled(blocks, end) && c in blocks && MIN_BLOCK <= total && total + MIN_BLOCK <= blocks[c].size
    ensures Tiled(Divided(blocks, c, total), end) && c + total !in blocks
  {
    var blocks' := Divided(blocks, c, total);
    assert c + total in blocks ==> Ordered(blocks, c, c + total);
    assert Followed(blocks, end, c);
    forall a | a in blocks' ensures Followed(blocks', end, a) {
      if a in blocks { assert Followed(blocks, end, a) && Ordered(blocks, a, c); }
    }
    forall a, b | a in blocks' && b in blocks' ensures Ordered(blocks', a, b) { DivideOrdered(blocks, end, c, total, a, b); }
  }

  lemma DivideOrdered(blocks: map<nat, Block>, end: nat, c: nat, total: nat, a: nat, b: nat)
    requires Tiled(blocks, end) && c in blocks && MIN_BLOCK <= total && total + MIN_BLOCK <= blocks[c].size
    requires a in Divided(blocks, c, total) && b in Divided(blocks, c, total)
    ensures Ordered(Divided(blocks, c, total), a, b)
  {
    if a in blocks && b in blocks { assert Ordered(blocks, a, b); }
    if a in blocks { assert Ordered(blocks, a, c); }
    if b in blocks { assert Ordered(blocks, b, c); }
  }

  lemma DivideTags(m: seq<int>, end: nat, blocks: map<nat, Block>, c: nat, total: nat, m': seq<int>)
    requires end <= |m| && Tiled(blocks, end) && Tags(m, blocks, end) && Divides(m, blocks, c, total, m') && blocks[c].free
    requires c + total !in blocks
    ensures Tags(m', Divided(blocks, c, total), end)
  {
    var blocks' := Divided(blocks, c, total);
    forall a | a in blocks' ensures Tagged(m', a, blocks'[a]) { DivideTagged(m, end, blocks, c, total, m', a); }
    forall a | a in blocks' || a == end ensures Backed(m', blocks', a) { DivideBacked(m, end, blocks, c, total, m', a); }
  }

  lemma DivideTagged(m: seq<int>, end: nat, blocks: map<nat, Block>, c: nat, total: nat, m': seq<int>, a: nat)
    requires end <= |m| && Tiled(blocks, end) && Tags(m, blocks, end) && Divides(m, blocks, c, total, m') && blocks[c].free
    requires a in Divided(blocks, c, total)
    ensures Tagged(m', a, Divided(blocks, c, total)[a])
  {
    assert Tagged(m, c, blocks[c]);
    if a in blocks { assert Tagged(m, a, blocks[a]) && Ordered(blocks, a, c); }
  }

  lemma DivideBacked(m: seq<int>, end: nat, blocks: map<nat, Block>, c: nat, total: nat, m': seq<int>, a: nat)
    requires end <= |m| && Tiled(blocks, end) && Tags(m, blocks, end) && Divides(m, blocks, c, total, m')
    requires c + total !in blocks && (a in Divided(blocks, c, total) || a == end)
    ensures Backed(m', Divided(blocks, c, total), a)
  {
    if a in blocks || a == end {
      assert Backed(m, blocks, a);
      if a > 0 { BeforeIs(blocks, end, a, a - m[a - 2], c); }
    }
  }

  lemma DivideChained(m: seq<int>, end: nat, head: int, l: Layout, c: nat, total: nat, m': seq<int>)
    requires end <= |m| && Tiled(l.blocks, end) && Chained(m, head, l.list) && Listed(l, {c}) && Divides(m, l.blocks, c, total, m')
    requires c + total !in l.blocks
    ensures Chained(m', head, l.list) && Listed(l.(blocks := Divided(l.blocks, c, total)), {c, c + total})
  {
    forall i | 0 <= i < |l.list| ensures Linked(m', l.list, i) {
      assert Linked(m, l.list, i) && Ordered(l.blocks, l.list[i], c);
    }
  }

  lemma DivideMerged(blocks: map<nat, Block>, end: nat, c: nat, total: nat)
    requires Tiled(blocks, end) && Merged(blocks, {}) && c in blocks && blocks[c].free
    requires MIN_BLOCK <= total && total + MIN_BLOCK <= blocks[c].size && c + total !in blocks
    ensures Merged(Divided(blocks, c, total), {c}) && Merged(Marked(Divided(blocks, c, total), c, false), {})
  {
    var blocks' := Divided(blocks, c, total);
    forall a, b | a in blocks' && b in blocks' && a + blocks'[a].size == b && blocks'[a].free && blocks'[b].free ensures a == c || b == c {
      if a in blocks && b in blocks { assert Ordered(blocks, a, c) && Ordered(blocks, b, c); }
      if a in blocks { assert Ordered(blocks, a, c); }
    }
  }

  lemma DivideStep(m: seq<int>, end: nat, head: int, l: Layout, c: nat, total: nat, m': seq<int>)
    requires Inv(m, end, head, l, {c}) && Merged(l.blocks, {}) && Divides(m, l.blocks, c, total, m') && l.blocks[c].free
    ensures Inv(m', end, head, l.(blocks := Divided(l.blocks, c, total)), {c, c + total}) && c + total !in l.blocks
    ensures Merged(Divided(l.blocks, c, total), {c}) && Merged(Marked(Divided(l.blocks, c, total), c, false), {})
  {
    DivideTiled(l.blocks, end, c, total);
    DivideTags(m, end, l.blocks, c, total, m');
    hide Tags;
    DivideChained(m, end, head, l, c, total, m');
    hide Chained, Listed;
    DivideMerged(l.blocks, end, c, total);
  }

  // ---- growing ----

  /** grow_heap tags the new space as one free block. */
  ghost predicate Appends(m: seq<int>, end: nat, size: nat, m': seq<int>) {
    && MIN_BLOCK <= size && end + size <= |m|
    && SameBut(m, m', {end, end + 1, end + size - 2, end + size - 1})
    && m'[end] == size && m'[end + 1] == 1 && m'[end + size - 2] == size && m'[end + size - 1] == 1
  }

  lemma AppendTiled(blocks: map<nat, Block>, end: nat, size: nat)
    requires Tiled(blocks, end) && MIN_BLOCK <= size
    ensures Tiled(blocks[end := Block(size, true)], end + size) && end !in blocks
  {
    var blocks' := blocks[end := Block(size, true)];
    forall a | a in blocks ensures a < end { assert blocks[a].size >= MIN_BLOCK; }
    forall a | a in blocks' ensures Followed(blocks', end + size, a) {
      if a in blocks { assert Followed(blocks, end, a); }
    }
    forall a, b | a in blocks' && b in blocks' ensures Ordered(blocks', a, b) {
      if a in blocks && b in blocks { assert Ordered(blocks, a, b); }
    }
  }

  lemma AppendTags(m: seq<int>, end: nat, blocks: map<nat, Block>, size: nat, m': seq<int>)
    requires Tiled(blocks, end) && Tags(m, blocks, end) && Appends(m, end, size, m') && end !in blocks
    ensures Tags(m', blocks[end := Block(size, true)], end + size)
  {
    var blocks' := blocks[end := Block(size, true)];
    forall a | a in blocks' ensures Tagged(m', a, blocks'[a]) {
      if a in blocks { assert Tagged(m, a, blocks[a]); }
    }
    forall a | a in blocks' || a == end + size ensures Backed(m', blocks', a) {
      AppendBacked(m, end, blocks, size, m', a);
    }
  }

  lemma AppendBacked(m: seq<int>, end: nat, blocks: map<nat, Block>, size: nat, m': seq<int>, a: nat)
    requires Tiled(blocks, end) && Tags(m, blocks, end) && Appends(m, end, size, m') && end !in blocks
    requires a in blocks || a == end || a == end + size
    ensures Backed(m', blocks[end := Block(size, true)], a)
  {
    if a in blocks || a == end { assert Backed(m, blocks, a); }
  }

  lemma AppendStep(m: seq<int>, end: nat, head: int, l: Layout, size: nat, m': seq<int>)
    requires Inv(m, end, head, l, {}) && Appends(m, end, size, m')
    ensures end !in l.blocks
    ensures Inv(m', end + size, head, l.(blocks := l.blocks[end := Block(size, true)]), {end})
  {
    AppendTiled(l.blocks, end, size);
    AppendTags(m, end, l.blocks, size, m');
    hide Tags;
    forall i | 0 <= i < |l.list| ensures Linked(m', l.list, i) {
      assert Linked(m, l.list, i);
      assert l.blocks[l.list[i]].size >= MIN_BLOCK;
    }
  }

  // ---- what the owners of allocated blocks see ----

  /** The allocated blocks. */
  ghost function Live(blocks: map<nat, Block>): set<nat> {
    set a | a in blocks && !blocks[a].free
  }

  /** The block at a has kept its size and every word. */
  ghost predicate SameBlock(m: seq<int>, blocks: map<nat, Block>, m': seq<int>, blocks': map<nat, Block>, a: nat)
    requires a in blocks && |m'| == |m|
  {
    a in blocks' && blocks'[a] == blocks[a] && forall w {:trigger m'[w]} | a <= w < a + blocks[a].size && w < |m| :: m'[w] == m[w]
  }

  /** Every allocated block but those in `except` is as it was. */
  ghost predicate Preserved(m: seq<int>, blocks: map<nat, Block>, m': seq<int>, blocks': map<nat, Block>, except: set<nat>) {
    && |m'| == |m|
    && forall a {:trigger SameBlock(m, blocks, m', blocks', a)} | a in blocks && !blocks[a].free && a !in except :: SameBlock(m, blocks, m', blocks', a)
  }

  lemma PreservedRefl(m: seq<int>, blocks: map<nat, Block>, except: set<nat>)
    ensures Preserved(m, blocks, m, blocks, except)
  {
  }

  lemma PreservedTrans(m0: seq<int>, b0: map<nat, Block>, m1: seq<int>, b1: map<nat, Block>, m2: seq<int>, b2: map<nat, Block>, except: set<nat>)
    requires Preserved(m0, b0, m1, b1, except) && Preserved(m1, b1, m2, b2, except)
    ensures Preserved(m0, b0, m2, b2, except)
  {
    forall a | a in b0 && !b0[a].free && a !in except ensures SameBlock(m0, b0, m2, b2, a) {
      assert SameBlock(m0, b0, m1, b1, a) && SameBlock(m1, b1, m2, b2, a);
    }
  }

  /** Only words from lo to hi differ, and the region is one block, old or new. */
  ghost predicate Within(m: seq<int>, m': seq<int>, lo: nat, hi: nat) {
    |m'| == |m| && forall w {:trigger m'[w]} | 0 <= w < |m| && !(lo <= w < hi) :: m'[w] == m[w]
  }

  /** Work inside one block that leaves the other blocks on the map leaves their words. */
  lemma PreservedOutside(m: seq<int>, end: nat, blocks: map<nat, Block>, m': seq<int>, blocks': map<nat, Block>, b: nat, except: set<nat>)
    requires Tiled(blocks, end) && b in blocks && Within(m, m', b, b + blocks[b].size) && (blocks[b].free || b in except)
    requires forall a {:trigger blocks[a]} | a in blocks && !blocks[a].free && a != b :: a in blocks' && blocks'[a] == blocks[a]
    ensures Preserved(m, blocks, m', blocks', except)
  {
    forall a | a in blocks && !blocks[a].free && a !in except ensures SameBlock(m, blocks, m', blocks', a) {
      assert Ordered(blocks, a, b);
    }
  }
}
