/** The kernel heap: kmalloc and kfree over boundary-tagged blocks, growing page by page. */
module KernelHeap {
  import opened Machine
  import opened FrameBitmap
  import opened HeapLayout
  import opened HeapFrames

  const PAGE_WORDS: nat := 512
  /** The heap's 4 GiB of address space, in words. */
  const HEAP_WORDS: nat := 0x2000_0000
  const HEAP_START: nat := 0xFFFF_8000_0000_0000
  const HEAP_MAX: nat := HEAP_START + 0xFFFF_FFFF

  /** Addition of machine words. */
  function Add64(x: nat, y: nat): (r: nat)
    ensures r < TWO64
  {
    (x + y) % TWO64
  }

  /** The size in words of the block that allocate_block looks for: the request with header and
      footer, rounded up to eight bytes, all in machine arithmetic. */
  function Total(size: nat): nat {
    var total := Add64(Add64(size, 32), 7) / 8;
    if total < MIN_BLOCK then MIN_BLOCK else total
  }

  /** The bytes between header and footer. */
  function PayloadBytes(b: Block): int { (b.size - 4) * 8 }

  /** How many pages kmalloc asks for when no block fits. */
  function Pages(size: nat): nat {
    var pages := Add64(Add64(size, 32), 4095) / 4096;
    if pages > 4 then pages else 4
  }

  /** Ways an allocation can stop the machine. */
  datatype Halt = Runs | NoSpace | NoFrames | RetryFailed

  class Heap {
    const mem: array<int>
    var end: nat
    var freeList: int
    /** How many frames are free in the frame bitmap, which the heap's pages and their tables take. */
    var frames: nat
    ghost var layout: Layout

    constructor (frames: nat)
      requires frames <= MAX_FRAMES
      ensures Valid() && end == 0 && this.frames == frames && layout == Layout(map[], []) && fresh(mem)
    {
      mem := new int[HEAP_WORDS];
      end, freeList, this.frames := 0, NIL, frames;
      layout := Layout(map[], []);
    }

    ghost predicate Held(holes: set<nat>)
      reads this, mem
    {
      mem.Length == HEAP_WORDS && frames <= MAX_FRAMES && end % PAGE_WORDS == 0 && Inv(mem[..], end, freeList, layout, holes)
    }

    ghost predicate Valid()
      reads this, mem
    {
      Held({})
    }

    /** The payloads of allocated blocks outside `except` are as they were. */
    twostate predicate Kept(except: set<nat>)
      reads this, mem
    {
      Preserved(old(mem[..]), old(layout.blocks), mem[..], layout.blocks, except)
    }

    // ---- the free list ----

    /** remove_block_from_free_list, for the i-th block of the list. */
    method Unlink(block: nat, prev: int, ghost i: nat, ghost holes: set<nat>)
      requires Held(holes) && i < |layout.list| && block == layout.list[i]
      requires prev == if i == 0 then NIL else layout.list[i - 1]
      modifies mem, this`freeList, this`layout
      ensures Held(holes + {block}) && layout == Unlinked(old(layout), i)
      ensures Kept({})
    {
      hide Tags, Listed, Merged, Preserved;
      ghost var m0, h0 := mem[..], freeList;
      InList(layout, holes, i);
      assert Linked(m0, layout.list, i);
      if i > 0 { InList(layout, holes, i - 1); assert Linked(m0, layout.list, i - 1); }
      if prev != NIL {
        mem[prev + 2] := mem[block + 2];
      } else {
        freeList := mem[block + 2];
      }
      UnlinkStep(m0, end, h0, layout, holes, i, mem[..], freeList);
      PreservedOutside(m0, end, layout.blocks, mem[..], layout.blocks, if i == 0 then block else layout.list[i - 1], {});
      layout := Unlinked(layout, i);
    }

    /** The loop that looks for a block on the free list and takes it off. */
    method Remove(block: nat, ghost holes: set<nat>)
      requires Held(holes) && block in layout.list
      modifies mem, this`freeList, this`layout
      ensures Held(holes + {block}) && layout.blocks == old(layout).blocks && Kept({})
    {
      hide Tags, Tiled, Listed, Merged, Preserved;
      var prev, cur := NIL, freeList;
      ghost var i := 0;
      while cur != NIL && cur != block
        invariant 0 <= i <= |layout.list| && cur == After(layout.list, i - 1) && block in layout.list[i..]
        invariant prev == if i == 0 then NIL else layout.list[i - 1]
        decreases |layout.list| - i
      {
        assert Linked(mem[..], layout.list, i);
        prev, cur := cur, mem[cur + 2];
        i := i + 1;
      }
      if cur != NIL {
        Unlink(cur, prev, i, holes);
      }
    }

    // ---- coalescing ----

    /** Let the hole at b take in the hole at n behind it. */
    method Absorb(b: nat, n: nat, ghost holes: set<nat>)
      requires Held(holes) && b in holes && n in holes && b in layout.blocks && n in layout.blocks && n == b + layout.blocks[b].size && b != n
      modifies mem, this`layout
      ensures Held(holes - {n}) && layout == old(layout).(blocks := Swallowed(old(layout).blocks, b, n)) && Kept({})
      ensures Live(layout.blocks) == old(Live(layout.blocks)) && mem[n + 1] == old(mem[n + 1])
    {
      hide Listed, Merged, Preserved, Chained;
      ghost var m0, l0 := mem[..], layout;
      TwoHoles(m0, end, freeList, l0, holes, b, n);
      mem[b] := mem[b] + mem[n];
      mem[b + mem[b] - 2] := mem[b];
      mem[b + mem[b] - 1] := 1;
      MergeStep(m0, end, freeList, l0, holes, b, n, mem[..]);
      layout := l0.(blocks := Swallowed(l0.blocks, b, n));
      AbsorbKept(m0, end, l0.blocks, mem[..], b, n);
    }

    /** The first half of coalesce: take in a free block behind b. */
    method CoalesceNext(b: nat)
      requires Held({b}) && b in layout.blocks
      modifies mem, this`freeList, this`layout
      ensures Held({b}) && NextBusy(layout.blocks, b) && Kept({}) && Live(layout.blocks) == old(Live(layout.blocks))
      ensures layout.blocks[b].size >= old(layout.blocks[b].size)
    {
      hide Listed, Merged, Preserved, Chained;
      ghost var m0, l0 := mem[..], layout;
      TagsOf(m0, end, layout.blocks, b);
      PreservedRefl(m0, layout.blocks, {});
      var next := b + mem[b];
      if next >= end || mem[next + 1] != 1 { return; }
      FreeIsListed(layout, {b}, next);
      Remove(next, {b});
      ghost var m1 := mem[..];
      assert {b} + {next} == {b, next} && {b, next} - {next} == {b};
      Absorb(b, next, {b, next});
      NextAfterMerge(l0.blocks, b, next);
      PreservedTrans(m0, l0.blocks, m1, l0.blocks, mem[..], layout.blocks, {});
    }

    /** The second half: let a free block before b take b in. */
    method CoalescePrev(b: nat) returns (r: nat)
      requires Held({b}) && b in layout.blocks && NextBusy(layout.blocks, b)
      modifies mem, this`freeList, this`layout
      ensures Held({r}) && r in layout.blocks && NextBusy(layout.blocks, r) && PrevBusy(layout.blocks, r)
      ensures Kept({}) && Live(layout.blocks) == old(Live(layout.blocks)) && layout.blocks[r].size >= old(layout.blocks[b].size)
      ensures b + 1 < mem.Length && mem[b + 1] == 1 && (r == b || r + 2 < b)
    {
      hide Listed, Merged, Preserved, Chained;
      ghost var m0, l0 := mem[..], layout;
      PreservedRefl(m0, layout.blocks, {});
      PrevIs(m0, end, layout.blocks, b);
      HoleTagged(m0, end, freeList, layout, {b}, b);
      r := b;
      if b < 2 { return; }
      var prevSize := mem[b - 2];
      if b - prevSize < 0 { return; }
      var prev := b - prevSize;
      TagsOf(m0, end, layout.blocks, prev);
      if mem[prev + 1] != 1 { return; }
      FreeIsListed(layout, {b}, prev);
      Remove(prev, {b});
      ghost var m1 := mem[..];
      HoleTagged(m1, end, freeList, layout, {b} + {prev}, b);
      Absorb(prev, b, {b} + {prev});
      assert {b} + {prev} - {b} == {prev};
      PrevAfterMerge(l0.blocks, end, prev, b);
      PreservedTrans(m0, l0.blocks, m1, l0.blocks, mem[..], layout.blocks, {});
      r := prev;
    }

    /** add_block_to_free_list. */
    method Link(b: nat, ghost holes: set<nat>)
      requires Held(holes) && b in holes && b in layout.blocks && Merged(layout.blocks, holes - {b})
      modifies mem, this`freeList, this`layout
      ensures Held(holes - {b}) && layout == old(layout).(list := [b] + old(layout).list) && Kept({}) && freeList == b
      ensures b + 2 < mem.Length && mem[b + 1] == 1
      ensures forall w {:trigger mem[w]} | 0 <= w < mem.Length && w != b + 1 && w != b + 2 :: mem[w] == old(mem[w])
    {
      hide Listed, Merged, Preserved, Chained;
      ghost var m0, h0, l0 := mem[..], freeList, layout;
      HoleTagged(m0, end, freeList, layout, holes, b);
      mem[b + 1] := 1;
      mem[b + 2] := freeList;
      freeList := b;
      LinkStep(m0, end, h0, l0, holes, b, mem[..]);
      layout := l0.(list := [b] + l0.list);
      PreservedOutside(m0, end, l0.blocks, mem[..], l0.blocks, b, {});
    }

    /** coalesce: merge the hole at b with its free neighbours and put the result on the list. */
    method Coalesce(b: nat)
      requires Held({b}) && b in layout.blocks
      modifies mem, this`freeList, this`layout
      ensures Valid() && Kept({}) && Live(layout.blocks) == old(Live(layout.blocks))
      ensures layout.list != [] && layout.list[0] in layout.blocks && layout.blocks[layout.list[0]].size >= old(layout.blocks[b].size)
      ensures b + 1 < mem.Length && mem[b + 1] == 1
    {
      hide Listed, Merged, Preserved, Chained, Tags, Tiled;
      ghost var m0, l0 := mem[..], layout;
      CoalesceNext(b);
      ghost var m1, l1 := mem[..], layout;
      var r := CoalescePrev(b);
      ghost var m2, l2 := mem[..], layout;
      HoleCloses(layout.blocks, r);
      assert {r} - {r} == {};
      Link(r, {r});
      PreservedTrans(m0, l0.blocks, m1, l1.blocks, m2, l2.blocks, {});
      PreservedTrans(m0, l0.blocks, m2, l2.blocks, mem[..], layout.blocks, {});
    }

    // ---- growing ----

    /** grow_heap: map `pages` fresh pages at the end and coalesce them with what is there. */
    method GrowHeap(pages: nat) returns (halt: Halt)
      requires Valid() && 0 < pages < TWO64 / PAGE_SIZE
      modifies this, mem
      ensures halt == NoSpace <==> Add64(HEAP_START + old(end) * 8, pages * PAGE_SIZE) > HEAP_MAX
      ensures halt == NoFrames <==> halt != NoSpace && GrowthFrames(old(end) / PAGE_WORDS, pages) > old(frames)
      ensures halt != RetryFailed
      ensures Valid() && Kept({}) && Live(layout.blocks) == old(Live(layout.blocks))
      ensures halt != Runs ==> end == old(end) && freeList == old(freeList) && mem[..] == old(mem[..]) && layout == old(layout)
      ensures halt == Runs ==>
        && end == old(end) + pages * PAGE_WORDS && frames == old(frames) - GrowthFrames(old(end) / PAGE_WORDS, pages)
        && layout.list != [] && layout.list[0] in layout.blocks && layout.blocks[layout.list[0]].size >= pages * PAGE_WORDS
    {
      hide Listed, Merged, Preserved, Chained, Tags, Tiled, GrowthFrames;
      PreservedRefl(mem[..], layout.blocks, {});
      var virt := HEAP_START + end * 8;
      if Add64(virt, pages * PAGE_SIZE) > HEAP_MAX { return NoSpace; }
      var cost := GrowthFrames(end / PAGE_WORDS, pages);
      GrowthMonotone(end / PAGE_WORDS, pages, pages);
      if cost > frames { return NoFrames; }
      ghost var m0, l0 := mem[..], layout;
      var size := pages * PAGE_WORDS;
      var b := end;
      RoomFor(end, pages);
      frames := frames - cost;
      end := end + size;
      mem[b] := size;
      mem[b + 1] := 1;
      mem[b + mem[b] - 2] := mem[b];
      mem[b + mem[b] - 1] := 1;
      AppendStep(m0, b, freeList, l0, size, mem[..]);
      layout := l0.(blocks := l0.blocks[b := Block(size, true)]);
      AppendKept(m0, b, l0.blocks, mem[..], size);
      ghost var m1, l1 := mem[..], layout;
      Coalesce(b);
      PreservedTrans(m0, l0.blocks, m1, l1.blocks, mem[..], layout.blocks, {});
      halt := Runs;
    }

    // ---- allocating ----

    /** Give out the hole at c, cutting off what is not needed when a block can be made of it. */
    method Take(c: nat, total: nat)
      requires Held({c}) && c in layout.blocks && Merged(layout.blocks, {})
      requires MIN_BLOCK <= total <= layout.blocks[c].size
      modifies mem, this`freeList, this`layout
      ensures Valid() && Kept({}) && c in layout.blocks && !layout.blocks[c].free
      ensures layout.blocks[c].size == if old(layout.blocks[c].size) - total >= MIN_BLOCK then total else old(layout.blocks[c].size)
      ensures Live(layout.blocks) == old(Live(layout.blocks)) + {c}
    {
      hide Listed, Preserved, Chained, Tags, Merged;
      ghost var m0, l0 := mem[..], layout;
      PreservedRefl(m0, l0.blocks, {});
      HoleTagged(m0, end, freeList, layout, {c}, c);
      var remaining := mem[c] - total;
      if remaining >= MIN_BLOCK {
        Cut(c, total);
      } else {
        WholeMerged(l0.blocks, c);
      }
      ghost var m1, l1 := mem[..], layout;
      HoleTagged(m1, end, freeList, layout, {c}, c);
      mem[c + 1] := 0;
      mem[c + mem[c] - 1] := 0;
      TakeStep(m1, end, freeList, l1, c, mem[..]);
      layout := l1.(blocks := Marked(l1.blocks, c, false));
      PreservedOutside(m1, end, l1.blocks, mem[..], layout.blocks, c, {});
      PreservedTrans(m0, l0.blocks, m1, l1.blocks, mem[..], layout.blocks, {});
    }

    /** The split: the words of the hole at c beyond `total` become a block on the free list. */
    method Cut(c: nat, total: nat)
      requires Held({c}) && c in layout.blocks && Merged(layout.blocks, {})
      requires MIN_BLOCK <= total && total + MIN_BLOCK <= layout.blocks[c].size
      modifies mem, this`freeList, this`layout
      ensures Held({c}) && Kept({}) && c in layout.blocks && layout.blocks[c] == Block(total, true)
      ensures Merged(Marked(layout.blocks, c, false), {}) && Live(layout.blocks) == old(Live(layout.blocks))
    {
      hide Listed, Preserved, Chained, Tags, Merged, Tiled;
      ghost var m0, h0, l0 := mem[..], freeList, layout;
      HoleTagged(m0, end, freeList, layout, {c}, c);
      var remaining := mem[c] - total;
      var n := c + total;
      mem[n] := remaining;
      mem[n + 1] := 1;
      mem[n + mem[n] - 2] := remaining;
      mem[n + mem[n] - 1] := 1;
      mem[c] := total;
      mem[c + mem[c] - 2] := total;
      mem[c + mem[c] - 1] := 1;
      ghost var m1 := mem[..];
      DivideStep(m0, end, h0, l0, c, total, m1);
      layout := l0.(blocks := Divided(l0.blocks, c, total));
      CutKept(m0, end, l0.blocks, m1, c, total);
      assert {c, n} - {n} == {c};
      Link(n, {c, n});
      PreservedTrans(m0, l0.blocks, m1, layout.blocks, mem[..], layout.blocks, {});
    }

    /** First fit. The result is NIL exactly when no free block is large enough; otherwise it is the
        first one on the list that is. */
    method AllocateBlock(size: nat) returns (b: int)
      requires Valid() && size < TWO64
      modifies mem, this`freeList, this`layout
      ensures Valid()
      ensures b == NIL ==> mem[..] == old(mem[..]) && freeList == old(freeList) && layout == old(layout)
      ensures b == NIL ==> forall i: nat {:trigger TooSmall(old(layout), i, Total(size))} | i < |old(layout).list| :: TooSmall(old(layout), i, Total(size))
      ensures b != NIL ==> b >= 0 && Given(old(layout), layout, b, Total(size)) && Kept({})
    {
      hide Listed, Preserved, Tags, Tiled, Merged, Linked;
      var total := Total(size);
      var prev, curr := NIL, freeList;
      ghost var i := 0;
      while curr != NIL
        invariant mem[..] == old(mem[..]) && freeList == old(freeList) && layout == old(layout) && Valid()
        invariant 0 <= i <= |layout.list| && curr == After(layout.list, i - 1)
        invariant prev == if i == 0 then NIL else layout.list[i - 1]
        invariant forall k: nat {:trigger TooSmall(layout, k, total)} | k < i :: TooSmall(layout, k, total)
        decreases |layout.list| - i
      {
        ListedBlock(mem[..], end, freeList, layout, i);
        if mem[curr] >= total {
          ghost var m0, l0 := mem[..], layout;
          Unlink(curr, prev, i, {});
          ghost var m1, l1 := mem[..], layout;
          assert {} + {curr} == {curr};
          Take(curr, total);
          GivenHere(l0, layout, i, total);
          PreservedTrans(m0, l0.blocks, m1, l1.blocks, mem[..], layout.blocks, {});
          return curr;
        }
        prev, curr := curr, mem[curr + 2];
        i := i + 1;
      }
      b := NIL;
    }

    // ---- the interface ----

    /** kmalloc. NIL only for a request of 0 bytes; otherwise a fresh block, or the machine halts. */
    method Kmalloc(size: nat) returns (halt: Halt, p: int)
      requires Valid() && size < TWO64
      modifies this, mem
      ensures Valid() && Kept({})
      ensures size == 0 ==> halt == Runs && p == NIL && mem[..] == old(mem[..]) && layout == old(layout) && end == old(end)
      ensures size > 0 && halt == Runs ==>
        && p >= HEADER && p - HEADER in layout.blocks && p - HEADER !in old(Live(layout.blocks))
        && Live(layout.blocks) == old(Live(layout.blocks)) + {p - HEADER}
        && Total(size) <= layout.blocks[p - HEADER].size < Total(size) + MIN_BLOCK
      ensures size > 0 && halt == Runs ==> (PayloadBytes(layout.blocks[p - HEADER]) >= size <==> size <= TWO64 - 40)
      ensures halt != Runs ==> p == NIL && Live(layout.blocks) == old(Live(layout.blocks))
      ensures halt == RetryFailed ==> RetryFails(size)
      ensures halt in {NoSpace, NoFrames} ==>
        GrowthFrames(old(end) / PAGE_WORDS, Pages(size)) > old(frames) || Add64(HEAP_START + old(end) * 8, Pages(size) * PAGE_SIZE) > HEAP_MAX
      ensures size > 0 && RetryFails(size) ==> halt != Runs
    {
      hide Inv, Preserved;
      p := NIL;
      halt := Runs;
      PreservedRefl(mem[..], layout.blocks, {});
      if size == 0 { return; }
      var b := AllocateBlock(size);
      if b == NIL {
        ghost var m0, l0 := mem[..], layout;
        PagesBound(size);
        halt := GrowHeap(Pages(size));
        if halt != Runs { return; }
        ghost var m1, l1 := mem[..], layout;
        PreservedRefl(m1, l1.blocks, {});
        b := AllocateBlock(size);
        PreservedTrans(m0, l0.blocks, m1, l1.blocks, mem[..], layout.blocks, {});
        if b == NIL {
          assert TooSmall(l1, 0, Total(size));
          RetryRoom(size);
          return RetryFailed, NIL;
        }
      }
      p := b + HEADER;
      PayloadHolds(layout.blocks[b].size, size);
      NoHugeBlock(mem[..], end, freeList, layout, b, size);
    }

    /** kfree. The flag in the block's header decides: when it says free nothing happens, so freeing
        the same pointer again at once is harmless. */
    method Kfree(p: int)
      requires Valid() && (p == NIL || (HEADER <= p < mem.Length && (p - HEADER in layout.blocks || mem[p - 1] == 1)))
      modifies mem, this`freeList, this`layout
      ensures Valid() && Kept(if p >= HEADER then {p - HEADER} else {})
      ensures p == NIL || old(mem[p - 1]) == 1 ==>
        mem[..] == old(mem[..]) && freeList == old(freeList) && layout == old(layout)
      ensures p != NIL && old(mem[p - 1]) != 1 ==>
        p - HEADER in old(Live(layout.blocks)) && Live(layout.blocks) == old(Live(layout.blocks)) - {p - HEADER}
      ensures p != NIL ==> mem[p - 1] == 1
    {
      hide Listed, Merged, Preserved, Chained, Tags, Tiled;
      PreservedRefl(mem[..], layout.blocks, if p >= HEADER then {p - HEADER} else {});
      if p == NIL { return; }
      var b := p - HEADER;
      if mem[b + 1] == 1 { return; }
      ghost var m0, l0 := mem[..], layout;
      BlockTagged(m0, end, freeList, layout, b);
      mem[b + 1] := 1;
      mem[b + mem[b] - 1] := 1;
      ghost var m1 := mem[..];
      FreeStep(m0, end, freeList, l0, b, m1);
      layout := l0.(blocks := Marked(l0.blocks, b, true));
      ghost var l1 := layout;
      PreservedOutside(m0, end, l0.blocks, m1, l1.blocks, b, {b});
      Coalesce(b);
      PreservedWeaker(m1, l1.blocks, mem[..], layout.blocks, {b});
      PreservedTrans(m0, l0.blocks, m1, l1.blocks, mem[..], layout.blocks, {b});
    }

    /** The owner of an allocated block stores a word of its payload. */
    method Put(p: nat, k: nat, v: int)
      requires Valid() && p >= HEADER && p - HEADER in Live(layout.blocks) && k < layout.blocks[p - HEADER].size - 4
      modifies mem
      ensures Valid() && Kept({p - HEADER}) && mem[p + k] == v
      ensures forall w {:trigger mem[w]} | 0 <= w < mem.Length && w != p + k :: mem[w] == old(mem[w])
    {
      hide Listed, Merged, Preserved, Chained, Tags, Tiled;
      ghost var m0 := mem[..];
      BlockTagged(m0, end, freeList, layout, p - HEADER);
      PayloadStep(m0, end, freeList, layout, p - HEADER, p + k, v);
      mem[p + k] := v;
      assert mem[..] == m0[p + k := v];
      PreservedOutside(m0, end, layout.blocks, mem[..], layout.blocks, p - HEADER, {p - HEADER});
    }
  }

  lemma BlockTagged(m: seq<int>, end: nat, head: int, l: Layout, b: nat)
    requires Inv(m, end, head, l, {}) && b in l.blocks
    ensures Tagged(m, b, l.blocks[b]) && b + l.blocks[b].size <= end
  {
  }

  lemma PreservedWeaker(m: seq<int>, blocks: map<nat, Block>, m': seq<int>, blocks': map<nat, Block>, except: set<nat>)
    requires Preserved(m, blocks, m', blocks', {})
    ensures Preserved(m, blocks, m', blocks', except)
  {
  }

  /** Requests for which the retry after growing cannot succeed: the sum that counts the pages
      wraps around, the sum that sizes the block does not. */
  predicate RetryFails(size: nat) {
    TWO64 - 4127 <= size <= TWO64 - 40
  }

  lemma PagesBound(size: nat)
    requires size < TWO64
    ensures 0 < Pages(size) < TWO64 / PAGE_SIZE
  {
    hide Add64;
    WrapOnce(size, 32);
    WrapOnce(Add64(size, 32), 4095);
  }

  lemma NoHugeBlock(m: seq<int>, end: nat, head: int, l: Layout, b: nat, size: nat)
    requires Inv(m, end, head, l, {}) && |m| == HEAP_WORDS && b in l.blocks && size < TWO64
    ensures RetryFails(size) ==> l.blocks[b].size < Total(size)
  {
    hide Add64;
    WrapOnce(size, 32);
    WrapOnce(Add64(size, 32), 7);
  }

  /** Growing makes room for the block exactly when the request is not one of those. */
  lemma RetryRoom(size: nat)
    requires 0 < size < TWO64
    ensures Pages(size) * PAGE_WORDS >= Total(size) <==> !RetryFails(size)
    ensures size <= TWO64 - 4128 ==> 4096 * Pages(size) >= size + 32 && (Pages(size) > 4 ==> 4096 * (Pages(size) - 1) < size + 32) && Pages(size) >= 4
  {
    hide Add64;
    WrapOnce(size, 32);
    WrapOnce(Add64(size, 32), 7);
    WrapOnce(Add64(size, 32), 4095);
  }

  /** A block of the size looked for holds the request unless the size has wrapped around. */
  lemma PayloadHolds(blockSize: nat, size: nat)
    requires 0 < size < TWO64 && Total(size) <= blockSize < Total(size) + MIN_BLOCK
    ensures (blockSize - 4) * 8 >= size <==> size <= TWO64 - 40
  {
    hide Total;
    PayloadFits(size);
  }

  /** The largest request of all, for instance, looks for a block of at most eight words. */
  lemma LargestRequest()
    ensures Total(TWO64 - 1) <= 8 && (Total(TWO64 - 1) - 4) * 8 < TWO64 - 1
  {
    PayloadFits(TWO64 - 1);
  }

  /** A block of the size looked for has room for the request exactly when the request is at most
      2^64 - 40 bytes; beyond that the size wraps around to the smallest block. */
  lemma PayloadFits(size: nat)
    requires 0 < size < TWO64
    ensures (Total(size) - 4) * 8 >= size <==> size <= TWO64 - 40
    ensures size > TWO64 - 40 ==> Total(size) <= 8
    ensures size <= TWO64 - 40 ==> Total(size) == 5 || (Total(size) - 4) * 8 < size + 8
  {
    hide Add64;
    WrapOnce(size, 32);
    WrapOnce(Add64(size, 32), 7);
  }

  lemma WrapOnce(x: nat, y: nat)
    requires x < TWO64 && y < TWO64
    ensures Add64(x, y) == (if x + y < TWO64 then x + y else x + y - TWO64) && Add64(x, y) < TWO64
  {
  }

  /** The i-th block of the list is too small. */
  ghost predicate TooSmall(l: Layout, i: nat, total: nat)
    requires i < |l.list|
  {
    l.list[i] in l.blocks && l.blocks[l.list[i]].size < total
  }

  /** All blocks before the i-th are too small. */
  ghost predicate FirstFit(l: Layout, i: nat, total: nat)
    requires i < |l.list|
  {
    forall k: nat {:trigger TooSmall(l, k, total)} | k < i :: TooSmall(l, k, total)
  }

  /** b is the first listed block with room, now allocated, cut when the rest makes a block. */
  ghost predicate Given(l: Layout, l': Layout, b: nat, total: nat) {
    && (exists i {:trigger l.list[i]} :: 0 <= i < |l.list| && l.list[i] == b && FirstFit(l, i, total))
    && b in l.blocks && l.blocks[b].free && l.blocks[b].size >= total
    && b in l'.blocks && !l'.blocks[b].free
    && l'.blocks[b].size == (if l.blocks[b].size - total >= 5 then total else l.blocks[b].size)
    && Live(l'.blocks) == Live(l.blocks) + {b}
  }

  lemma GivenHere(l: Layout, l': Layout, i: nat, total: nat)
    requires i < |l.list| && forall k: nat {:trigger TooSmall(l, k, total)} | k < i :: TooSmall(l, k, total)
    requires var b := l.list[i];
      && b in l.blocks && l.blocks[b].free && l.blocks[b].size >= total && b in l'.blocks && !l'.blocks[b].free
      && l'.blocks[b].size == (if l.blocks[b].size - total >= 5 then total else l.blocks[b].size)
      && Live(l'.blocks) == Live(l.blocks) + {b}
    ensures Given(l, l', l.list[i], total)
  {
    assert FirstFit(l, i, total);
  }

  lemma ListedBlock(m: seq<int>, end: nat, head: int, l: Layout, i: nat)
    requires Inv(m, end, head, l, {}) && 0 <= i <= |l.list| && After(l.list, i - 1) != NIL
    ensures i < |l.list| && l.list[i] in l.blocks && l.blocks[l.list[i]].free && Merged(l.blocks, {})
    ensures Tagged(m, l.list[i], l.blocks[l.list[i]]) && l.list[i] + 2 < |m| && m[l.list[i] + 2] == After(l.list, i) && l.blocks[l.list[i]].size >= MIN_BLOCK
  {
    assert Linked(m, l.list, i);
  }

  lemma WholeMerged(blocks: map<nat, Block>, c: nat)
    requires Merged(blocks, {}) && c in blocks
    ensures Merged(Marked(blocks, c, false), {})
  {
  }

  lemma CutKept(m: seq<int>, end: nat, blocks: map<nat, Block>, m': seq<int>, c: nat, total: nat)
    requires Tiled(blocks, end) && c in blocks && blocks[c].free && Within(m, m', c, c + blocks[c].size)
    requires total <= blocks[c].size && c + total !in blocks
    ensures Preserved(m, blocks, m', Divided(blocks, c, total), {}) && Live(Divided(blocks, c, total)) == Live(blocks)
  {
    PreservedOutside(m, end, blocks, m', Divided(blocks, c, total), c, {});
  }

  /** Past both checks of grow_heap nothing wraps and the new pages lie inside the range. */
  lemma RoomFor(end: nat, pages: nat)
    requires end <= HEAP_WORDS && end % PAGE_WORDS == 0 && 0 < pages <= MAX_FRAMES
    requires Add64(HEAP_START + end * 8, pages * PAGE_SIZE) <= HEAP_MAX
    ensures end + pages * PAGE_WORDS < HEAP_WORDS && (end + pages * PAGE_WORDS) % PAGE_WORDS == 0
  {
    var bytes := pages * PAGE_SIZE;
    assert bytes <= MAX_FRAMES * PAGE_SIZE;
    NoWrapAdd(HEAP_START + end * 8, bytes);
    StillAligned(end, pages);
  }

  lemma NoWrapAdd(x: nat, y: nat)
    requires x + y < TWO64
    ensures Add64(x, y) == x + y
  {
  }

  lemma StillAligned(end: nat, pages: nat)
    requires end % PAGE_WORDS == 0
    ensures (end + pages * PAGE_WORDS) % PAGE_WORDS == 0
  {
    var k := end / PAGE_WORDS;
    assert end + pages * PAGE_WORDS == (k + pages) * PAGE_WORDS;
  }

  lemma AppendKept(m: seq<int>, end: nat, blocks: map<nat, Block>, m': seq<int>, size: nat)
    requires Tiled(blocks, end) && Within(m, m', end, end + size) && end !in blocks
    ensures Preserved(m, blocks, m', blocks[end := Block(size, true)], {})
    ensures Live(blocks[end := Block(size, true)]) == Live(blocks)
  {
    var blocks' := blocks[end := Block(size, true)];
    forall a | a in blocks && !blocks[a].free ensures SameBlock(m, blocks, m', blocks', a) {
      assert blocks[a].size >= MIN_BLOCK;
    }
  }

  lemma FreeIsListed(l: Layout, holes: set<nat>, a: nat)
    requires Listed(l, holes) && a in l.blocks && l.blocks[a].free && a !in holes
    ensures a in l.list
  {
  }

  lemma HoleTagged(m: seq<int>, end: nat, head: int, l: Layout, holes: set<nat>, b: nat)
    requires Inv(m, end, head, l, holes) && b in holes
    ensures b in l.blocks && l.blocks[b].free && Tagged(m, b, l.blocks[b]) && b + l.blocks[b].size <= end
  {
  }

  lemma TagsOf(m: seq<int>, end: nat, blocks: map<nat, Block>, b: nat)
    requires end <= |m| && Tiled(blocks, end) && Tags(m, blocks, end) && b in blocks
    ensures Tagged(m, b, blocks[b]) && Followed(blocks, end, b) && b + blocks[b].size <= end
    ensures b + blocks[b].size in blocks ==> Tagged(m, b + blocks[b].size, blocks[b + blocks[b].size]) && b + blocks[b].size < end
  {
  }

  lemma TwoHoles(m: seq<int>, end: nat, head: int, l: Layout, holes: set<nat>, b: nat, n: nat)
    requires Inv(m, end, head, l, holes) && b in holes && n in holes && n in l.blocks && b in l.blocks
    ensures l.blocks[b].free && l.blocks[n].free && Tagged(m, b, l.blocks[b]) && Tagged(m, n, l.blocks[n])
    ensures l.blocks[n].size + n <= end
  {
  }

  lemma AbsorbKept(m: seq<int>, end: nat, blocks: map<nat, Block>, m': seq<int>, b: nat, n: nat)
    requires Tiled(blocks, end) && b in blocks && n in blocks && n == b + blocks[b].size && blocks[b].free && blocks[n].free
    requires Within(m, m', b, n + blocks[n].size)
    ensures Preserved(m, blocks, m', Swallowed(blocks, b, n), {}) && Live(Swallowed(blocks, b, n)) == Live(blocks)
  {
    var blocks' := Swallowed(blocks, b, n);
    forall a | a in blocks && !blocks[a].free ensures SameBlock(m, blocks, m', blocks', a) {
      assert Ordered(blocks, a, b) && Ordered(blocks, a, n);
    }
  }

  /** A store to a payload touches no tag and no link. */
  lemma PayloadStep(m: seq<int>, end: nat, head: int, l: Layout, b: nat, w: nat, v: int)
    requires Inv(m, end, head, l, {}) && b in Live(l.blocks) && b + 2 <= w < b + l.blocks[b].size - 2
    ensures w < |m| && Inv(m[w := v], end, head, l, {})
  {
    assert Tagged(m, b, l.blocks[b]);
    PayloadTags(m, end, l.blocks, b, w, v);
    hide Tags;
    var m' := m[w := v];
    forall i | 0 <= i < |l.list| ensures Linked(m', l.list, i) {
      assert Linked(m, l.list, i) && Ordered(l.blocks, l.list[i], b);
    }
  }

  lemma PayloadTags(m: seq<int>, end: nat, blocks: map<nat, Block>, b: nat, w: nat, v: int)
    requires end <= |m| && Tiled(blocks, end) && Tags(m, blocks, end) && b in blocks && b + 2 <= w < b + blocks[b].size - 2 && w < |m|
    ensures Tags(m[w := v], blocks, end)
  {
    hide Tiled, Tagged, Backed;
    var m' := m[w := v];
    forall a {:trigger Tagged(m', a, blocks[a])} | a in blocks ensures Tagged(m', a, blocks[a]) {
      PayloadTag(m, end, blocks, b, w, v, a);
    }
    forall a {:trigger Backed(m', blocks, a)} | a in blocks || a == end ensures Backed(m', blocks, a) {
      PayloadBack(m, end, blocks, b, w, v, a);
    }
  }

  lemma PayloadTag(m: seq<int>, end: nat, blocks: map<nat, Block>, b: nat, w: nat, v: int, a: nat)
    requires end <= |m| && Tiled(blocks, end) && b in blocks && b + 2 <= w < b + blocks[b].size - 2 && w < |m|
    requires a in blocks && Tagged(m, a, blocks[a])
    ensures Tagged(m[w := v], a, blocks[a])
  {
    assert Ordered(blocks, a, b);
  }

  lemma PayloadBack(m: seq<int>, end: nat, blocks: map<nat, Block>, b: nat, w: nat, v: int, a: nat)
    requires end <= |m| && Tiled(blocks, end) && b in blocks && b + 2 <= w < b + blocks[b].size - 2 && w < |m|
    requires (a in blocks || a == end) && Backed(m, blocks, a)
    ensures Backed(m[w := v], blocks, a)
  {
    if a > 0 { BeforeIs(blocks, end, a, a - m[a - 2], b); }
  }

  // ---- whole runs ----

  /** What a client may do: allocate, free the k-th pointer it holds, store into it. */
  datatype Act = Get(size: nat) | Drop(k: nat) | Write(k: nat, at: nat, v: int)

  /** The blocks behind a client's pointers. */
  ghost function Behind(held: seq<nat>): set<nat> {
    set p | p in held && p >= HEADER :: p - HEADER
  }

  /** The client holds exactly the blocks allocated since the start, each by one pointer, and every
      block of others is as it was. */
  ghost predicate Client(m0: seq<int>, b0: map<nat, Block>, m: seq<int>, blocks: map<nat, Block>, held: seq<nat>) {
    && Distinct(held) && (forall k {:trigger held[k]} | 0 <= k < |held| :: held[k] >= HEADER && held[k] - HEADER !in Live(b0))
    && Live(blocks) == Live(b0) + Behind(held) && Preserved(m0, b0, m, blocks, {})
  }

  lemma HeldIsLive(m0: seq<int>, b0: map<nat, Block>, m: seq<int>, blocks: map<nat, Block>, held: seq<nat>, k: nat)
    requires Client(m0, b0, m, blocks, held) && k < |held|
    ensures held[k] >= HEADER && held[k] - HEADER in Live(blocks) && held[k] - HEADER in Behind(held) && held[k] - HEADER !in Live(b0)
  {
    assert held[k] in held;
  }

  lemma ClientKeeps(m0: seq<int>, b0: map<nat, Block>, m: seq<int>, blocks: map<nat, Block>, m': seq<int>, blocks': map<nat, Block>, except: set<nat>)
    requires Preserved(m0, b0, m, blocks, {}) && Preserved(m, blocks, m', blocks', except) && except !! Live(b0)
    ensures Preserved(m0, b0, m', blocks', {})
  {
    forall a | a in b0 && !b0[a].free ensures SameBlock(m0, b0, m', blocks', a) {
      assert a in Live(b0);
      assert SameBlock(m0, b0, m, blocks, a) && SameBlock(m, blocks, m', blocks', a);
    }
  }

  lemma ClientGets(m0: seq<int>, b0: map<nat, Block>, m: seq<int>, blocks: map<nat, Block>, held: seq<nat>, m': seq<int>, blocks': map<nat, Block>, p: nat)
    requires Client(m0, b0, m, blocks, held) && Preserved(m, blocks, m', blocks', {})
    requires p >= HEADER && p - HEADER !in Live(blocks) && Live(blocks') == Live(blocks) + {p - HEADER}
    ensures Client(m0, b0, m', blocks', held + [p])
  {
    ClientKeeps(m0, b0, m, blocks, m', blocks', {});
    forall k | 0 <= k < |held| ensures held[k] != p { HeldIsLive(m0, b0, m, blocks, held, k); }
    assert (held + [p])[|held|] == p;
    BehindMore(held, p);
  }

  lemma BehindMore(held: seq<nat>, p: nat)
    requires p >= HEADER
    ensures Behind(held + [p]) == Behind(held) + {p - HEADER}
  {
    forall x | x in Behind(held) + {p - HEADER} ensures x in Behind(held + [p]) {
      assert x + HEADER in held + [p];
    }
    forall x | x in Behind(held + [p]) ensures x in Behind(held) + {p - HEADER} {
      assert x + HEADER in held + [p];
      assert x + HEADER in held || x + HEADER == p;
    }
  }

  lemma ClientDrops(m0: seq<int>, b0: map<nat, Block>, m: seq<int>, blocks: map<nat, Block>, held: seq<nat>, m': seq<int>, blocks': map<nat, Block>, k: nat)
    requires Client(m0, b0, m, blocks, held) && k < |held| && Preserved(m, blocks, m', blocks', {held[k] - HEADER})
    requires Live(blocks') == Live(blocks) - {held[k] - HEADER}
    ensures Client(m0, b0, m', blocks', held[..k] + held[k + 1..])
  {
    HeldIsLive(m0, b0, m, blocks, held, k);
    ClientKeeps(m0, b0, m, blocks, m', blocks', {held[k] - HEADER});
    Dropped(held, k);
    var held' := held[..k] + held[k + 1..];
    forall j | 0 <= j < |held'| ensures held'[j] in held { assert held'[j] in held'; }
    assert Behind(held') == Behind(held) - {held[k] - HEADER};
  }

  /** Any client traffic that in the end frees what it allocated leaves the set of allocated blocks
      as it was, and at no time changes a word of anybody else's block. */
  method Traffic(h: Heap, acts: seq<Act>) returns (halt: Halt)
    requires h.Valid() && forall i {:trigger acts[i]} | 0 <= i < |acts| && acts[i].Get? :: acts[i].size < TWO64
    modifies h, h.mem
    ensures h.Valid() && h.Kept({})
    ensures halt == Runs ==> Live(h.layout.blocks) == old(Live(h.layout.blocks))
  {
    hide Inv, Preserved, Client;
    ghost var m0, b0 := h.mem[..], h.layout.blocks;
    var held: seq<nat> := [];
    ClientStarts(m0, b0);
    var i := 0;
    while i < |acts|
      invariant 0 <= i <= |acts| && h.Valid() && Client(m0, b0, h.mem[..], h.layout.blocks, held)
    {
      halt, held := Serve(h, acts[i], held, m0, b0);
      if halt != Runs { ClientPreserved(m0, b0, h.mem[..], h.layout.blocks, held); return; }
      i := i + 1;
    }
    while |held| > 0
      invariant h.Valid() && Client(m0, b0, h.mem[..], h.layout.blocks, held)
      decreases |held|
    {
      held := Release(h, 0, held, m0, b0);
    }
    halt := Runs;
    assert held == [];
    ClientPreserved(m0, b0, h.mem[..], h.layout.blocks, held);
  }

  lemma ClientStarts(m0: seq<int>, b0: map<nat, Block>)
    ensures Client(m0, b0, m0, b0, [])
  {
  }

  lemma ClientPreserved(m0: seq<int>, b0: map<nat, Block>, m: seq<int>, blocks: map<nat, Block>, held: seq<nat>)
    requires Client(m0, b0, m, blocks, held)
    ensures Preserved(m0, b0, m, blocks, {})
    ensures held == [] ==> Live(blocks) == Live(b0)
  {
  }

  method Release(h: Heap, k: nat, held: seq<nat>, ghost m0: seq<int>, ghost b0: map<nat, Block>) returns (held': seq<nat>)
    requires h.Valid() && Client(m0, b0, h.mem[..], h.layout.blocks, held) && k < |held|
    modifies h, h.mem
    ensures h.Valid() && Client(m0, b0, h.mem[..], h.layout.blocks, held') && held' == held[..k] + held[k + 1..]
  {
    hide Listed, Merged, Preserved, Chained, Tags, Tiled, Client;
    ghost var m1, b1 := h.mem[..], h.layout.blocks;
    HeldIsLive(m0, b0, m1, b1, held, k);
    BlockTagged(m1, h.end, h.freeList, h.layout, held[k] - HEADER);
    h.Kfree(held[k]);
    ClientDrops(m0, b0, m1, b1, held, h.mem[..], h.layout.blocks, k);
    held' := held[..k] + held[k + 1..];
  }

  method Serve(h: Heap, act: Act, held: seq<nat>, ghost m0: seq<int>, ghost b0: map<nat, Block>) returns (halt: Halt, held': seq<nat>)
    requires h.Valid() && Client(m0, b0, h.mem[..], h.layout.blocks, held) && (act.Get? ==> act.size < TWO64)
    modifies h, h.mem
    ensures h.Valid() && Client(m0, b0, h.mem[..], h.layout.blocks, held')
  {
    hide Listed, Merged, Preserved, Chained, Tags, Tiled, Client;
    ghost var m1, b1 := h.mem[..], h.layout.blocks;
    halt, held' := Runs, held;
    match act
    case Get(size) =>
      var p;
      halt, p := h.Kmalloc(size);
      if p == NIL {
        ClientUntouched(m0, b0, m1, b1, h.mem[..], h.layout.blocks, held, {});
      } else {
        ClientGets(m0, b0, m1, b1, held, h.mem[..], h.layout.blocks, p);
        held' := held + [p];
      }
    case Drop(k) =>
      if k < |held| { held' := Release(h, k, held, m0, b0); }
    case Write(k, at, v) =>
      if k < |held| {
        HeldIsLive(m0, b0, m1, b1, held, k);
        BlockTagged(m1, h.end, h.freeList, h.layout, held[k] - HEADER);
        if at < h.mem[held[k] - HEADER] - 4 {
          h.Put(held[k], at, v);
          ClientUntouched(m0, b0, m1, b1, h.mem[..], h.layout.blocks, held, {held[k] - HEADER});
        }
      }
  }

  lemma ClientUntouched(m0: seq<int>, b0: map<nat, Block>, m: seq<int>, blocks: map<nat, Block>, m': seq<int>, blocks': map<nat, Block>, held: seq<nat>, except: set<nat>)
    requires Client(m0, b0, m, blocks, held) && Preserved(m, blocks, m', blocks', except) && except !! Live(b0) && Live(blocks') == Live(blocks)
    ensures Client(m0, b0, m', blocks', held)
  {
    ClientKeeps(m0, b0, m, blocks, m', blocks', except);
  }
}
