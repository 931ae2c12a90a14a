/** ext2 files: finding a block through the pointer tree, and reading bytes through it. */
module FileBlocks {
  import opened Options
  import opened Machine
  import opened Bytes
  import opened Numerals
  import opened BlockTrees

  // ---- resolve_block ----

  function Mul32(a: nat, b: nat): nat { Times(a, b) % TWO32 }

  /** read_block, then one pointer of it, or 0. */
  method Entry(d: Disk, block: nat, i: nat) returns (r: nat)
    requires GoodDisk(d) && i < Fan(d)
    ensures r == if block in d.blocks then Pointer(d.blocks[block], i) else 0
  {
    if block !in d.blocks { return 0; }
    r := Pointer(d.blocks[block], i);
  }

  /** A fan-out that block sizes 1024, 2048 and 4096 give. */
  predicate Usual(p: nat) { p == 256 || p == 512 || p == 1024 }

  /** For these nothing wraps in 32 bits. */
  lemma Products(p: nat)
    requires Usual(p)
    ensures Power(p, 1) == p && Power(p, 2) == p * p == Mul32(p, p) && Power(p, 3) == p * p * p == Mul32(Mul32(p, p), p)
  {
    assert Power(p, 1) == Times(Power(p, 0), p);
    assert Power(p, 2) == Times(Power(p, 1), p);
    assert Power(p, 3) == Times(Power(p, 2), p);
    if p == 256 {} else if p == 512 {} else {}
  }

  lemma OneDigit(x: nat, p: nat)
    requires Usual(p) && x < p
    ensures Digits(x, p, 1) == [x]
  {
    assert Digits(x, p, 1) == Digits(Quot(x, p), p, 0) + [Rem(x, p)];
  }

  lemma TwoDigits(x: nat, p: nat)
    requires Usual(p) && x < Mul32(p, p)
    ensures Digits(x, p, 2) == [x / p, x % p] && x / p < p
  {
    Products(p);
    assert Digits(x, p, 2) == Digits(Quot(x, p), p, 1) + [Rem(x, p)];
    if p == 256 {} else if p == 512 {} else {}
    OneDigit(x / p, p);
  }

  lemma Divide256(x: nat)
    ensures x / 65536 == x / 256 / 256 && x % 65536 / 256 == x / 256 % 256 && x % 65536 % 256 == x % 256
  {
  }

  lemma Divide512(x: nat)
    ensures x / 262144 == x / 512 / 512 && x % 262144 / 512 == x / 512 % 512 && x % 262144 % 512 == x % 512
  {
  }

  lemma Divide1024(x: nat)
    ensures x / 1048576 == x / 1024 / 1024 && x % 1048576 / 1024 == x / 1024 % 1024 && x % 1048576 % 1024 == x % 1024
  {
  }

  lemma DivideTwice(x: nat, p: nat)
    requires Usual(p) && x < Mul32(Mul32(p, p), p)
    ensures var q := Mul32(p, p);
      q > 0 && x / q == x / p / p && x % q / p == x / p % p && x % q % p == x % p && x / p < q
  {
    Products(p);
    if p == 256 { Divide256(x); } else if p == 512 { Divide512(x); } else { Divide1024(x); }
  }

  lemma ThreeDigits(x: nat, p: nat)
    requires Usual(p) && x < Mul32(Mul32(p, p), p)
    ensures Mul32(p, p) > 0
    ensures var q := Mul32(p, p);
      Digits(x, p, 3) == [x / q, x % q / p, x % q % p] && x / q < p && x % q / p < p
  {
    DivideTwice(x, p);
    assert Digits(x, p, 3) == Digits(Quot(x, p), p, 2) + [Rem(x, p)];
    hide Mul32;
    TwoDigits(x / p, p);
  }

  /** The way down, one, two and three tables deep. */
  lemma FollowOne(d: Disk, ptr: nat, a: nat)
    requires GoodDisk(d) && a < Fan(d)
    ensures Follow(d, ptr, [a]) == if ptr == 0 || ptr !in d.blocks then 0 else Pointer(d.blocks[ptr], a)
  {
  }

  lemma FollowMore(d: Disk, ptr: nat, a: nat, rest: seq<nat>)
    requires GoodDisk(d) && a < Fan(d) && forall i | 0 <= i < |rest| :: rest[i] < Fan(d)
    ensures forall i | 0 <= i < |[a] + rest| :: ([a] + rest)[i] < Fan(d)
    ensures Follow(d, ptr, [a] + rest) == if ptr == 0 || ptr !in d.blocks then 0 else Follow(d, Pointer(d.blocks[ptr], a), rest)
  {
    assert ([a] + rest)[1..] == rest;
  }

  /** resolve_block, in 32-bit arithmetic. */
  method ResolveBlock(d: Disk, di: FileInode, logical: nat) returns (r: nat)
    requires GoodDisk(d) && GoodInode(di) && logical < TWO32 && Usual(Fan(d))
    ensures r == Resolve(d, di, logical)
    ensures logical < 12 ==> r == di.ptr[logical]
    ensures forall f: Layout {:trigger LaidOut(d, di, f)} | LaidOut(d, di, f) ::
      r == if logical < |f.Blocks(Fan(d))| then BlockOr0(f.Blocks(Fan(d))[logical]) else 0
  {
    r := Find(d, di, logical);
    hide Resolve, LaidOut, Layout.Blocks;
    forall f: Layout {:trigger LaidOut(d, di, f)} | LaidOut(d, di, f)
      ensures Resolve(d, di, logical) == if logical < |f.Blocks(Fan(d))| then BlockOr0(f.Blocks(Fan(d))[logical]) else 0
    {
      ResolveLaidOut(d, di, f, logical);
    }
  }

  /** The four branches. */
  method Find(d: Disk, di: FileInode, logical: nat) returns (r: nat)
    requires GoodDisk(d) && GoodInode(di) && logical < TWO32 && Usual(Fan(d))
    ensures r == Resolve(d, di, logical) && (logical < 12 ==> r == di.ptr[logical])
  {
    hide Follow, Times, Power, Digits, Mul32;
    var p := Fan(d);
    Products(p);
    Firsts(p);
    var l := logical;
    if l < 12 { return di.ptr[l]; }
    l := l - 12;
    if l < p {
      OneDigit(l, p);
      r := Below1(d, di.ptr[12], l);
      return;
    }
    l := l - p;
    if l < Mul32(p, p) {
      TwoDigits(l, p);
      r := Below2(d, di.ptr[13], l);
      return;
    }
    l := l - Mul32(p, p);
    if l < Mul32(Mul32(p, p), p) {
      ThreeDigits(l, p);
      r := Below3(d, di.ptr[14], l / Mul32(p, p), l % Mul32(p, p));
      return;
    }
    r := 0;
  }

  /** The single-indirect branch. */
  method Below1(d: Disk, ind: nat, l: nat) returns (r: nat)
    requires GoodDisk(d) && l < Fan(d)
    ensures r == Follow(d, ind, [l])
  {
    FollowOne(d, ind, l);
    if ind == 0 { return 0; }
    r := Entry(d, ind, l);
  }

  /** The double-indirect branch. */
  method Below2(d: Disk, dind: nat, l: nat) returns (r: nat)
    requires GoodDisk(d) && Usual(Fan(d)) && l / Fan(d) < Fan(d)
    ensures r == Follow(d, dind, [l / Fan(d), l % Fan(d)])
  {
    var p := Fan(d);
    FollowMore(d, dind, l / p, [l % p]);
    assert [l / p] + [l % p] == [l / p, l % p];
    if dind == 0 { return 0; }
    var ind := Entry(d, dind, l / p);
    FollowOne(d, ind, l % p);
    if ind == 0 { return 0; }
    r := Entry(d, ind, l % p);
  }

  /** The triple-indirect branch, given the first digit and what is left of the number. */
  method Below3(d: Disk, tind: nat, first: nat, l: nat) returns (r: nat)
    requires GoodDisk(d) && Usual(Fan(d)) && first < Fan(d) && l / Fan(d) < Fan(d)
    ensures r == Follow(d, tind, [first, l / Fan(d), l % Fan(d)])
  {
    var p := Fan(d);
    FollowMore(d, tind, first, [l / p, l % p]);
    assert [first] + [l / p, l % p] == [first, l / p, l % p];
    if tind == 0 { return 0; }
    var dind := Entry(d, tind, first);
    if dind == 0 { return 0; }
    r := Below2(d, dind, l);
  }

  /** The guard of the triple-indirect branch is right exactly when the cube of the fan-out fits in
      32 bits. With 8 KiB blocks the product is 0 and no triple-indirect block is ever found. */
  lemma CubeFits(p: nat)
    requires 0 < p < 0x1_0000
    ensures Mul32(Mul32(p, p), p) == Power(p, 3) <==> Power(p, 3) < TWO32
    ensures Mul32(Mul32(2048, 2048), 2048) == 0 < Power(2048, 3)
  {
    Cubes(p);
    Cubes(2048);
    SquareSmall(p);
  }

  lemma Cubes(p: nat)
    ensures Power(p, 3) == Times(Times(p, p), p)
  {
    assert Power(p, 1) == Times(Power(p, 0), p);
    assert Power(p, 2) == Times(Power(p, 1), p);
    assert Power(p, 3) == Times(Power(p, 2), p);
  }

  lemma SquareSmall(p: nat)
    requires 0 < p < 0x1_0000
    ensures Times(p, p) < TWO32
  {
    hide Times;
    TimesGrows(p, 0xFFFF, p);
    TimesComm(0xFFFF, p);
    TimesGrows(p, 0xFFFF, 0xFFFF);
    assert Times(0xFFFF, 0xFFFF) == 0xFFFF * 0xFFFF by { TimesConst(); }
  }

  lemma TimesComm(a: nat, b: nat)
    ensures Times(a, b) == Times(b, a)
  {
  }

  lemma TimesConst()
    ensures Times(0xFFFF, 0xFFFF) == 0xFFFF * 0xFFFF
  {
  }

  // ---- reading ----

  /** The block that holds byte o of the file, unless it is a hole or cannot be read. */
  ghost function BlockAt(d: Disk, di: FileInode, o: nat): Option<seq<byte>>
    requires GoodDisk(d) && GoodInode(di)
  {
    var b := Resolve(d, di, o / d.size);
    if b == 0 || b !in d.blocks then None else Some(d.blocks[b])
  }

  /** Byte o of the file. */
  ghost function ByteAt(d: Disk, di: FileInode, o: nat): Option<byte>
    requires GoodDisk(d) && GoodInode(di)
  {
    match BlockAt(d, di, o)
    case None => None
    case Some(block) => Some(block[o % d.size])
  }

  /** Which bytes of the file are there. */
  ghost function Present(d: Disk, di: FileInode): nat -> bool
    requires GoodDisk(d) && GoodInode(di)
  {
    (k: nat) => ByteAt(d, di, k).Some?
  }

  /** How many of the n positions from o on come before the first that is missing. */
  ghost function Unbroken(present: nat -> bool, o: nat, n: nat): (r: nat)
    ensures r <= n
    ensures forall k: nat {:trigger present(k)} | o <= k < o + r :: present(k)
    ensures r < n ==> !present(o + r)
    decreases n
  {
    if n == 0 || !present(o) then 0 else 1 + Unbroken(present, o + 1, n - 1)
  }

  lemma UnbrokenIs(present: nat -> bool, o: nat, n: nat, r: nat)
    requires r <= n && forall k: nat {:trigger present(k)} | o <= k < o + r :: present(k)
    requires r < n ==> !present(o + r)
    ensures Unbroken(present, o, n) == r
  {
    var u := Unbroken(present, o, n);
    assert u <= n;
  }

  /** The adjustment of the count, in 64-bit arithmetic. */
  function Clamp(offset: nat, count: nat, size: nat): nat
    requires offset < size
  {
    if (offset + count) % TWO64 > size then size - offset else count
  }

  /** It yields what is asked or what is left exactly when the sum does not wrap around to a value
      inside the file. */
  lemma ClampExact(offset: nat, count: nat, size: nat)
    requires offset < size < TWO32 && count < TWO64
    ensures Clamp(offset, count, size) == (if count < size - offset then count else size - offset) <==> Sound(offset, count, size)
  {
  }

  predicate Sound(offset: nat, count: nat, size: nat) {
    offset + count < TWO64 || offset + count - TWO64 > size
  }

  /** A request at offset 1 for 2^64 - 1 bytes of a ten byte file is not cut down. */
  lemma ClampWraps()
    ensures !Sound(1, TWO64 - 1, 10) && Clamp(1, TWO64 - 1, 10) == TWO64 - 1
  {
  }

  /** Within one block all bytes are there or none is. */
  lemma SameBlockAt(d: Disk, di: FileInode, o: nat, j: nat)
    requires GoodDisk(d) && GoodInode(di) && o % d.size + j < d.size
    ensures (o + j) / d.size == o / d.size && (o + j) % d.size == o % d.size + j
  {
    hide Times, Quot, Rem;
    QuotAndRem(o, d.size);
    QuotAndRem(o + j, d.size);
    QuotRem(o, d.size);
    QuotRem(o + j, d.size);
    Unique(o / d.size, o % d.size + j, (o + j) / d.size, (o + j) % d.size, d.size);
  }

  lemma QuotAndRem(x: nat, p: nat)
    requires p > 0
    ensures Quot(x, p) == x / p >= 0 && Rem(x, p) == x % p
  {
  }

  /** Byte o of a written file is byte o of the contents of its blocks. */
  lemma WrittenByte(d: Disk, di: FileInode, f: Layout, bs: seq<nat>, o: nat)
    requires GoodDisk(d) && GoodInode(di) && Holds(d, di, f, bs) && o < di.size
    ensures di.size <= |Contents(d, bs)|
    ensures ByteAt(d, di, o) == Some(Contents(d, bs)[o])
  {
    hide Times, Resolve, Layout.Blocks, LaidOut, Quot, Rem;
    QuotAndRem(o, d.size);
    QuotRem(o, d.size);
    TimesIs(|bs|, d.size);
    var k := o / d.size;
    QuotBelow(o, d.size, |bs|);
    ResolveLaidOut(d, di, f, k);
    assert bs[k] != 0;
    ContentsAt(d, bs, k, o % d.size);
  }

  lemma TimesIs(a: nat, b: nat)
    ensures Times(a, b) == a * b
  {
  }

  /** All of it is there. */
  lemma WrittenPart(d: Disk, di: FileInode, f: Layout, bs: seq<nat>, offset: nat, n: nat, got: seq<byte>)
    requires GoodDisk(d) && GoodInode(di) && Holds(d, di, f, bs) && offset + n <= di.size && 0 < n
    requires |got| == Unbroken(Present(d, di), offset, n) && forall j {:trigger got[j]} | 0 <= j < |got| :: ByteAt(d, di, offset + j) == Some(got[j])
    ensures |got| == n && offset + n <= |Contents(d, bs)| && got == Contents(d, bs)[offset..offset + n]
  {
    hide ByteAt, Contents, LaidOut, Layout.Blocks;
    WrittenByte(d, di, f, bs, offset);
    forall k: nat | offset <= k < offset + n ensures Present(d, di)(k) && ByteAt(d, di, k) == Some(Contents(d, bs)[k]) { WrittenByte(d, di, f, bs, k); }
    UnbrokenIs(Present(d, di), offset, n, n);
    forall j | 0 <= j < n ensures got[j] == Contents(d, bs)[offset..offset + n][j] { assert ByteAt(d, di, offset + j) == Some(got[j]); }
  }

  /** ext2_read. For every count that is soundly cut down it returns exactly the bytes of the file
      from offset on, min(count, size - offset) of them, or those before the first hole or failed
      read. */
  method Read(d: Disk, di: FileInode, offset: nat, buf: array<byte>, count: nat) returns (total: nat)
    requires GoodDisk(d) && GoodInode(di) && Usual(Fan(d)) && offset < TWO64 && count < TWO64
    requires offset < di.size ==> Sound(offset, count, di.size) && Clamp(offset, count, di.size) <= buf.Length
    modifies buf
    ensures offset >= di.size ==> total == 0
    ensures offset < di.size ==>
      total == Unbroken(Present(d, di), offset, if count < di.size - offset then count else di.size - offset)
    ensures total <= buf.Length && forall j {:trigger buf[j]} | 0 <= j < total :: ByteAt(d, di, offset + j) == Some(buf[j])
    ensures forall j | total <= j < buf.Length :: buf[j] == old(buf[j])
    ensures offset < di.size ==>
      forall f: Layout, bs: seq<nat> {:trigger Holds(d, di, f, bs)} | Holds(d, di, f, bs) ::
        && total == (if count < di.size - offset then count else di.size - offset) && offset + total <= |Contents(d, bs)|
        && buf[..total] == Contents(d, bs)[offset..offset + total]
  {
    total := ReadBytes(d, di, offset, buf, count);
    if offset < di.size {
      var n := if count < di.size - offset then count else di.size - offset;
      hide ByteAt, Holds, Contents, Present, Unbroken;
      forall f: Layout, bs: seq<nat> {:trigger Holds(d, di, f, bs)} | Holds(d, di, f, bs)
        ensures total == n && offset + total <= |Contents(d, bs)| && buf[..total] == Contents(d, bs)[offset..offset + total]
      {
        WrittenByte(d, di, f, bs, offset);
        if n > 0 { WrittenPart(d, di, f, bs, offset, n, buf[..total]); }
      }
    }
  }

  /** The loop over the blocks. */
  method ReadBytes(d: Disk, di: FileInode, offset: nat, buf: array<byte>, count: nat) returns (total: nat)
    requires GoodDisk(d) && GoodInode(di) && Usual(Fan(d)) && offset < TWO64 && count < TWO64
    requires offset < di.size ==> Sound(offset, count, di.size) && Clamp(offset, count, di.size) <= buf.Length
    modifies buf
    ensures offset >= di.size ==> total == 0
    ensures offset < di.size ==>
      total == Unbroken(Present(d, di), offset, if count < di.size - offset then count else di.size - offset)
    ensures total <= buf.Length && forall j {:trigger buf[j]} | 0 <= j < total :: ByteAt(d, di, offset + j) == Some(buf[j])
    ensures forall j | total <= j < buf.Length :: buf[j] == old(buf[j])
  {
    hide ByteAt;
    if offset >= di.size { return 0; }
    var want := if (offset + count) % TWO64 > di.size then di.size - offset else count;
    ClampExact(offset, count, di.size);
    total := 0;
    var more := true;
    while total < want && more
      invariant total <= want
      invariant forall j {:trigger buf[j]} | 0 <= j < total :: ByteAt(d, di, offset + j) == Some(buf[j])
      invariant forall k: nat {:trigger Present(d, di)(k)} | offset <= k < offset + total :: Present(d, di)(k)
      invariant forall j | total <= j < buf.Length :: buf[j] == old(buf[j])
      invariant !more ==> !Present(d, di)(offset + total)
      decreases want - total, more
    {
      var n := ReadPart(d, di, offset, buf, total, want);
      forall k: nat | offset + total <= k < offset + total + n ensures Present(d, di)(k) {
        assert ByteAt(d, di, offset + (k - offset)) == Some(buf[k - offset]);
      }
      more := n > 0;
      total := total + n;
    }
    UnbrokenIs(Present(d, di), offset, want, total);
  }

  /** The loop body of ext2_read: as much as one block gives, or 0 at a hole. */
  method ReadPart(d: Disk, di: FileInode, offset: nat, buf: array<byte>, total: nat, want: nat) returns (n: nat)
    requires GoodDisk(d) && GoodInode(di) && Usual(Fan(d)) && total < want <= buf.Length && offset + want <= di.size
    modifies buf
    ensures total + n <= want && (n == 0 <==> ByteAt(d, di, offset + total).None?)
    ensures forall j {:trigger buf[j]} | total <= j < total + n :: ByteAt(d, di, offset + j) == Some(buf[j])
    ensures forall j | 0 <= j < buf.Length && !(total <= j < total + n) :: buf[j] == old(buf[j])
  {
    var o := offset + total;
    var logical, off := o / d.size, o % d.size;
    QuotAndRem(o, d.size);
    LogicalSmall(o, d.size);
    var n' := want - total;
    if n' > d.size - off { n' := d.size - off; }
    var phys := ResolveBlock(d, di, logical);
    if phys == 0 || phys !in d.blocks { return 0; }
    var block := d.blocks[phys];
    n := 0;
    while n < n'
      invariant 0 <= n <= n'
      invariant forall j | total <= j < total + n :: buf[j] == block[off + j - total]
      invariant forall j | 0 <= j < buf.Length && !(total <= j < total + n) :: buf[j] == old(buf[j])
    {
      buf[total + n] := block[off + n];
      n := n + 1;
    }
    forall j | total <= j < total + n ensures ByteAt(d, di, offset + j) == Some(buf[j]) {
      SameBlockAt(d, di, o, j - total);
    }
  }

  lemma LogicalSmall(o: nat, size: nat)
    requires size > 0 && o < TWO32
    ensures 0 <= o / size < TWO32 && 0 <= o % size < size
  {
  }
}
