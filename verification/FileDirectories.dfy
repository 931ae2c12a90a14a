/** ext2 directories: the entries in a directory's blocks, and its readdir. */
module FileDirectories {
  import opened Options
  import opened Machine
  import opened Bytes
  import opened Numerals
  import opened BlockTrees
  import opened FileBlocks
  import opened DirectoryStreams

  function InodeOf(block: seq<byte>, pos: nat): nat
    requires pos + 8 <= |block|
  {
    UnLe(block[pos..pos + 4])
  }

  function RecordLength(block: seq<byte>, pos: nat): nat
    requires pos + 8 <= |block|
  {
    UnLe(block[pos + 4..pos + 6])
  }

  /** From pos on the block holds directory records: each header and name lies inside the block. A
      record of length 0 ends them. */
  ghost predicate Sound(block: seq<byte>, pos: nat, limit: nat)
    decreases limit - pos
  {
    pos < limit ==>
      && pos + 8 <= |block| && pos + 8 + block[pos + 6] <= |block|
      && (RecordLength(block, pos) != 0 ==> Sound(block, pos + RecordLength(block, pos), limit))
  }

  /** The entry at pos, if it is in use. */
  function EntryAt(block: seq<byte>, pos: nat): seq<Entry>
    requires pos + 8 <= |block| && pos + 8 + block[pos + 6] <= |block|
  {
    if InodeOf(block, pos) != 0 && block[pos + 6] > 0
    then [Entry(InodeOf(block, pos), block[pos + 8..pos + 8 + block[pos + 6]])] else []
  }

  /** The entries of one block from pos on. */
  ghost function InBlock(block: seq<byte>, pos: nat, limit: nat): seq<Entry>
    requires Sound(block, pos, limit)
    decreases limit - pos
  {
    if pos >= limit || RecordLength(block, pos) == 0 then []
    else EntryAt(block, pos) + InBlock(block, pos + RecordLength(block, pos), limit)
  }

  function Limit(start: nat, size: nat, blockSize: nat): nat
    requires start < size
  {
    if start + blockSize > size then size - start else blockSize
  }

  ghost predicate SoundDir(d: Disk, di: FileInode) {
    && GoodDisk(d) && GoodInode(di)
    && forall o {:trigger BlockAt(d, di, o)} | 0 <= o < di.size && BlockAt(d, di, o).Some? && o % d.size == 0 ::
         Sound(BlockAt(d, di, o).value, 0, Limit(o, di.size, d.size))
  }

  /** The entries of the blocks from byte `start` on, up to the first hole or failed read. */
  ghost function EntriesFrom(d: Disk, di: FileInode, start: nat): seq<Entry>
    requires SoundDir(d, di) && start % d.size == 0
    decreases di.size - start
  {
    if start >= di.size || BlockAt(d, di, start).None? then []
    else
      NextBlock(start, d.size);
      InBlock(BlockAt(d, di, start).value, 0, Limit(start, di.size, d.size)) + EntriesFrom(d, di, start + d.size)
  }

  lemma NextBlock(start: nat, size: nat)
    requires size > 0 && start % size == 0
    ensures (start + size) % size == 0
  {
    hide Times, Quot, Rem;
    QuotAndRem(start, size);
    QuotAndRem(start + size, size);
    QuotRem(start, size);
    TimesStep(Quot(start, size), size);
    Back(Quot(start, size) + 1, 0, size);
  }

  /** The record at pos, and what comes after it. */
  lemma Here(block: seq<byte>, pos: nat, limit: nat, rest: seq<Entry>)
    requires Sound(block, pos, limit)
    ensures pos >= limit ==> InBlock(block, pos, limit) + rest == rest
    ensures pos < limit ==>
      && pos + 8 <= |block| && pos + 8 + block[pos + 6] <= |block|
      && (RecordLength(block, pos) == 0 ==> InBlock(block, pos, limit) + rest == rest)
      && (RecordLength(block, pos) != 0 ==>
            && Sound(block, pos + RecordLength(block, pos), limit)
            && InBlock(block, pos, limit) + rest == EntryAt(block, pos) + (InBlock(block, pos + RecordLength(block, pos), limit) + rest))
  {
  }

  /** The inner loop: the records of one block. */
  method ReadBlockEntries(block: seq<byte>, limit: nat, c0: Cursor, offset: nat, count: nat, ghost rest: seq<Entry>, ghost goal: seq<byte>)
    returns (c: Cursor)
    requires Sound(block, 0, limit) && !c0.full && Reaches(c0, InBlock(block, 0, limit) + rest, offset, count, goal)
    ensures Reaches(c, rest, offset, count, goal)
  {
    hide Reaches, Sound, InBlock, Add, InodeOf, RecordLength;
    c := c0;
    var pos := 0;
    while !c.full && pos < limit
      invariant Sound(block, pos, limit)
      invariant Reaches(c, InBlock(block, pos, limit) + rest, offset, count, goal)
      decreases limit - pos, !c.full
    {
      Here(block, pos, limit, rest);
      var reclen := RecordLength(block, pos);
      if reclen == 0 { return; }
      ghost var more := InBlock(block, pos + reclen, limit) + rest;
      if InodeOf(block, pos) != 0 && block[pos + 6] > 0 {
        var e := Entry(InodeOf(block, pos), block[pos + 8..pos + 8 + block[pos + 6]]);
        AddReaches(c, e, more, offset, count, goal);
        c := Add(c, e, offset, count);
      } else {
        assert EntryAt(block, pos) + more == more;
      }
      pos := pos + reclen;
    }
    Here(block, pos, limit, rest);
    if c.full { FullReaches(c, InBlock(block, pos, limit) + rest, rest, offset, count, goal); }
  }

  /** ext2_readdir: a page of the stream of the directory's entries. */
  method Readdir(d: Disk, di: FileInode, offset: nat, count: nat) returns (out: seq<byte>)
    requires SoundDir(d, di) && Usual(Fan(d)) && di.size + d.size <= TWO32
    ensures out == Page(EntriesFrom(d, di, 0), 0, offset, count)
  {
    hide Page, BlockAt;
    ghost var goal := Page(EntriesFrom(d, di, 0), 0, offset, count);
    var c := Cursor([], 0, false);
    var start := 0;
    while !c.full && start < di.size
      invariant start % d.size == 0
      invariant Reaches(c, EntriesFrom(d, di, start), offset, count, goal)
      decreases di.size - start
    {
      LogicalSmall(start, d.size);
      var phys := ResolveBlock(d, di, start / d.size);
      BlockIs(d, di, start);
      if phys == 0 || phys !in d.blocks {
        NoMore(c.pos, offset, count - |c.out|);
        return c.out;
      }
      NextBlock(start, d.size);
      c := ReadBlockEntries(d.blocks[phys], Limit(start, di.size, d.size), c, offset, count, EntriesFrom(d, di, start + d.size), goal);
      start := start + d.size;
    }
    out := c.out;
    NoMore(c.pos, offset, count - |c.out|);
  }

  lemma BlockIs(d: Disk, di: FileInode, o: nat)
    requires GoodDisk(d) && GoodInode(di)
    ensures var b := Resolve(d, di, o / d.size);
      BlockAt(d, di, o) == if b == 0 || b !in d.blocks then None else Some(d.blocks[b])
  {
  }

  // ---- written directories ----

  /** A record as the file system writes it: an entry, or an unused record when there is none, and the
      bytes up to the next record. */
  datatype Slot = Slot(entry: Option<Entry>, kind: byte, pad: seq<byte>)

  function NameOf(s: Slot): seq<byte> { if s.entry.Some? then s.entry.value.name else [] }
  function InoOf(s: Slot): nat { if s.entry.Some? then s.entry.value.ino else 0 }
  function Size(s: Slot): nat { 8 + |NameOf(s)| + |s.pad| }

  ghost predicate GoodSlot(s: Slot) {
    && Size(s) < 0x1_0000 && |NameOf(s)| < 256
    && (s.entry.Some? ==> 0 < s.entry.value.ino < TWO32 && |s.entry.value.name| > 0)
  }

  /** inode, rec_len, name_len, file_type, name, padding. */
  function SlotBytes(s: Slot): (b: seq<byte>)
    requires |NameOf(s)| < 256
    ensures |b| == Size(s)
  {
    Le(InoOf(s), 4) + Le(Size(s), 2) + [|NameOf(s)| as byte, s.kind] + NameOf(s) + s.pad
  }

  function SlotsBytes(ss: seq<Slot>): seq<byte>
    requires forall i {:trigger ss[i]} | 0 <= i < |ss| :: |NameOf(ss[i])| < 256
  {
    if ss == [] then [] else SlotBytes(ss[0]) + SlotsBytes(ss[1..])
  }

  function EntriesOf(ss: seq<Slot>): seq<Entry> {
    if ss == [] then [] else (if ss[0].entry.Some? then [ss[0].entry.value] else []) + EntriesOf(ss[1..])
  }

  ghost predicate GoodSlots(ss: seq<Slot>) { forall i {:trigger ss[i]} | 0 <= i < |ss| :: GoodSlot(ss[i]) }

  lemma SlotFields(pre: seq<byte>, s: Slot, post: seq<byte>)
    requires GoodSlot(s)
    ensures var b, pos := pre + SlotBytes(s) + post, |pre|;
      && pos + 8 <= |b| && pos + 8 + b[pos + 6] <= |b| && b[pos + 6] == |NameOf(s)|
      && InodeOf(b, pos) == InoOf(s) && RecordLength(b, pos) == Size(s) && b[pos + 8..pos + 8 + b[pos + 6]] == NameOf(s)
  {
    hide Le, UnLe;
    var b, pos, t := pre + SlotBytes(s) + post, |pre|, SlotBytes(s);
    forall i | 0 <= i < |t| ensures b[pos + i] == t[i] {}
    assert b[pos..pos + 4] == Le(InoOf(s), 4) && b[pos + 4..pos + 6] == Le(Size(s), 2);
    assert b[pos + 8..pos + 8 + |NameOf(s)|] == NameOf(s);
    assert Pow256(1) == 256 && Pow256(2) == 0x1_0000 && Pow256(3) == 0x100_0000 && Pow256(4) == TWO32;
    LeRoundTrip(InoOf(s), 4);
    LeRoundTrip(Size(s), 2);
  }

  lemma SlotEntry(b: seq<byte>, pos: nat, s: Slot)
    requires GoodSlot(s) && pos + 8 <= |b| && pos + 8 + b[pos + 6] <= |b| && b[pos + 6] == |NameOf(s)|
    requires InodeOf(b, pos) == InoOf(s) && b[pos + 8..pos + 8 + b[pos + 6]] == NameOf(s)
    ensures EntryAt(b, pos) == if s.entry.Some? then [s.entry.value] else []
  {
    hide InodeOf;
  }

  /** A block filled with records reads back to the entries in use, in order. */
  lemma {:induction false} SlotsRead(pre: seq<byte>, ss: seq<Slot>, limit: nat)
    requires GoodSlots(ss) && limit == |pre + SlotsBytes(ss)|
    ensures Sound(pre + SlotsBytes(ss), |pre|, limit)
    ensures InBlock(pre + SlotsBytes(ss), |pre|, limit) == EntriesOf(ss)
    decreases |ss|
  {
    FirstSlot(ss);
    hide SlotBytes, SlotsBytes, EntriesOf, InodeOf, RecordLength, Sound, InBlock, EntryAt, NameOf;
    var b := pre + SlotsBytes(ss);
    if ss == [] {
      NoRecords(b, |pre|, limit);
    } else {
      var s, rest := ss[0], SlotsBytes(ss[1..]);
      assert GoodSlot(s);
      assert b == pre + SlotBytes(s) + rest;
      SlotsRead(pre + SlotBytes(s), ss[1..], limit);
      SlotReads(pre, s, rest, limit);
    }
  }

  /** The first record and what follows it. */
  lemma SlotReads(pre: seq<byte>, s: Slot, rest: seq<byte>, limit: nat)
    requires GoodSlot(s) && limit == |pre + SlotBytes(s) + rest|
    requires Sound(pre + SlotBytes(s) + rest, |pre + SlotBytes(s)|, limit)
    ensures Sound(pre + SlotBytes(s) + rest, |pre|, limit)
    ensures InBlock(pre + SlotBytes(s) + rest, |pre|, limit) ==
      (if s.entry.Some? then [s.entry.value] else []) + InBlock(pre + SlotBytes(s) + rest, |pre + SlotBytes(s)|, limit)
  {
    hide SlotBytes, InodeOf, RecordLength, Sound, InBlock, EntryAt, NameOf;
    var b := pre + SlotBytes(s) + rest;
    SlotFields(pre, s, rest);
    SlotEntry(b, |pre|, s);
    OneRecord(b, |pre|, limit, Size(s));
  }

  lemma FirstSlot(ss: seq<Slot>)
    requires GoodSlots(ss)
    ensures if ss == [] then SlotsBytes(ss) == [] && EntriesOf(ss) == [] else
      && SlotsBytes(ss) == SlotBytes(ss[0]) + SlotsBytes(ss[1..])
      && EntriesOf(ss) == (if ss[0].entry.Some? then [ss[0].entry.value] else []) + EntriesOf(ss[1..])
  {
  }

  lemma NoRecords(b: seq<byte>, pos: nat, limit: nat)
    requires limit <= pos
    ensures Sound(b, pos, limit) && InBlock(b, pos, limit) == []
  {
  }

  lemma OneRecord(b: seq<byte>, pos: nat, limit: nat, n: nat)
    requires pos < limit && pos + 8 <= |b| && pos + 8 + b[pos + 6] <= |b| && RecordLength(b, pos) == n > 0 && Sound(b, pos + n, limit)
    ensures Sound(b, pos, limit) && InBlock(b, pos, limit) == EntryAt(b, pos) + InBlock(b, pos + n, limit)
  {
  }

  // ---- a directory of several blocks ----

  /** The entries of all blocks, block by block. */
  function AllEntries(dir: seq<seq<Slot>>): seq<Entry> {
    if dir == [] then [] else EntriesOf(dir[0]) + AllEntries(dir[1..])
  }

  /** Each block of the directory is filled with its records. */
  ghost predicate Filled(d: Disk, bs: seq<nat>, dir: seq<seq<Slot>>) {
    && |dir| == |bs|
    && forall k {:trigger bs[k]} | 0 <= k < |bs| :: GoodSlots(dir[k]) && bs[k] in d.blocks && d.blocks[bs[k]] == WrittenBlock(dir[k])
  }

  function WrittenBlock(ss: seq<Slot>): seq<byte> {
    if forall i {:trigger ss[i]} | 0 <= i < |ss| :: |NameOf(ss[i])| < 256 then SlotsBytes(ss) else []
  }

  /** Block k of the directory, as readdir finds it. */
  lemma BlockFound(d: Disk, di: FileInode, f: Layout, bs: seq<nat>, dir: seq<seq<Slot>>, k: nat)
    requires GoodDisk(d) && GoodInode(di) && Holds(d, di, f, bs) && di.size == Times(|bs|, d.size) && Filled(d, bs, dir) && k < |bs|
    ensures var o := Times(k, d.size);
      && o < di.size && o % d.size == 0 && BlockAt(d, di, o).Some? && Limit(o, di.size, d.size) == d.size
      && Sound(BlockAt(d, di, o).value, 0, d.size) && InBlock(BlockAt(d, di, o).value, 0, d.size) == EntriesOf(dir[k])
  {
    hide Times, Quot, Rem, Resolve, LaidOut, Layout.Blocks, Sound, InBlock, SlotsBytes, EntriesOf;
    var o := Times(k, d.size);
    Back(k, 0, d.size);
    QuotAndRem(o, d.size);
    TimesStep(k, d.size);
    TimesGrows(k + 1, |bs|, d.size);
    assert bs[k] in d.blocks;
    ResolveLaidOut(d, di, f, k);
    BlockIs(d, di, o);
    assert GoodSlots(dir[k]) && forall i {:trigger dir[k][i]} | 0 <= i < |dir[k]| :: |NameOf(dir[k][i])| < 256 by { NamesShort(dir[k]); }
    assert [] + SlotsBytes(dir[k]) == SlotsBytes(dir[k]);
    SlotsRead([], dir[k], d.size);
  }

  lemma NamesShort(ss: seq<Slot>)
    requires GoodSlots(ss)
    ensures forall i {:trigger ss[i]} | 0 <= i < |ss| :: |NameOf(ss[i])| < 256
  {
    forall i | 0 <= i < |ss| ensures |NameOf(ss[i])| < 256 { assert GoodSlot(ss[i]); }
  }

  lemma DirectoryIsSound(d: Disk, di: FileInode, f: Layout, bs: seq<nat>, dir: seq<seq<Slot>>)
    requires GoodDisk(d) && GoodInode(di) && Holds(d, di, f, bs) && di.size == Times(|bs|, d.size) && Filled(d, bs, dir)
    ensures SoundDir(d, di)
  {
    hide Times, Quot, Rem, BlockAt, Holds, Filled, Sound, Limit;
    forall o | 0 <= o < di.size && BlockAt(d, di, o).Some? && o % d.size == 0 ensures Sound(BlockAt(d, di, o).value, 0, Limit(o, di.size, d.size)) {
      var k := Quot(o, d.size);
      QuotAndRem(o, d.size);
      QuotRem(o, d.size);
      QuotBelow(o, d.size, |bs|);
      BlockFound(d, di, f, bs, dir, k);
    }
  }

  /** A directory written block by block reads back to all its entries, in the order of its blocks. */
  lemma {:induction false} DirectoryReads(d: Disk, di: FileInode, f: Layout, bs: seq<nat>, dir: seq<seq<Slot>>, k: nat)
    requires GoodDisk(d) && GoodInode(di) && Holds(d, di, f, bs) && di.size == Times(|bs|, d.size) && Filled(d, bs, dir) && k <= |bs|
    ensures SoundDir(d, di) && Times(k, d.size) % d.size == 0
    ensures EntriesFrom(d, di, Times(k, d.size)) == AllEntries(dir[k..])
    decreases |bs| - k
  {
    hide Times, Quot, Rem, BlockAt, Holds, Filled, Sound, SoundDir, Limit, InBlock, EntriesOf;
    DirectoryIsSound(d, di, f, bs, dir);
    Back(k, 0, d.size);
    QuotAndRem(Times(k, d.size), d.size);
    SameLength(d, bs, dir);
    if k < |bs| {
      BlockFound(d, di, f, bs, dir, k);
      TimesStep(k, d.size);
      DirectoryReads(d, di, f, bs, dir, k + 1);
      assert dir[k..][0] == dir[k] && dir[k..][1..] == dir[k + 1..];
    } else {
      assert dir[k..] == [];
    }
  }

  lemma SameLength(d: Disk, bs: seq<nat>, dir: seq<seq<Slot>>)
    requires Filled(d, bs, dir)
    ensures |dir| == |bs|
  {
  }
}
