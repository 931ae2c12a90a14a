/** ext2 files: the tree of block pointers below an inode, by digits and as it is written to disk. */
module BlockTrees {
  import opened Options
  import opened Machine
  import opened Bytes
  import opened Numerals

  /** The blocks that can be read, each `size` bytes long. */
  datatype Disk = Disk(size: nat, blocks: map<nat, seq<byte>>)

  ghost predicate GoodDisk(d: Disk) {
    && d.size > 0 && d.size % 4 == 0 && d.size < TWO32
    && forall b {:trigger b in d.blocks} | b in d.blocks :: |d.blocks[b]| == d.size
  }

  /** The size of a file and the fifteen block pointers of its inode. */
  datatype FileInode = FileInode(size: nat, ptr: seq<nat>)

  ghost predicate GoodInode(di: FileInode) { |di.ptr| == 15 && di.size < TWO32 }

  /** Pointers per block. */
  function Fan(d: Disk): nat { d.size / 4 }

  /** The i-th 32-bit pointer of a block. */
  function Pointer(block: seq<byte>, i: nat): nat
    requires 4 * i + 4 <= |block|
  {
    UnLe(block[4 * i..4 * i + 4])
  }

  // ---- where a block of the file sits in the tree ----

  /** A direct pointer, a path of digits below one of the three indirection roots, or neither. */
  datatype Place = Direct(i: nat) | Tree(root: nat, digits: seq<nat>) | Beyond

  /** The first file block below root 12, 13, 14. */
  function First(p: nat, depth: nat): nat
    requires 1 <= depth
    decreases depth
  {
    if depth == 1 then 12 else First(p, depth - 1) + Power(p, depth - 1)
  }

  /** The meaning of a logical block number: its digits below the right root. */
  function PlaceOf(l: nat, p: nat): Place
    requires p > 0
  {
    if l < 12 then Direct(l)
    else if l < First(p, 2) then Tree(12, Digits(l - First(p, 1), p, 1))
    else if l < First(p, 3) then Tree(13, Digits(l - First(p, 2), p, 2))
    else if l < First(p, 4) then Tree(14, Digits(l - First(p, 3), p, 3))
    else Beyond
  }

  /** Follow digits down from a pointer. A null pointer or an unreadable table ends the way at 0. */
  ghost function Follow(d: Disk, ptr: nat, digits: seq<nat>): nat
    requires GoodDisk(d) && forall i | 0 <= i < |digits| :: digits[i] < Fan(d)
    decreases |digits|
  {
    if ptr == 0 || |digits| == 0 then ptr
    else if ptr !in d.blocks then 0
    else
      assert digits[0] < Fan(d) && |d.blocks[ptr]| == d.size;
      Follow(d, Pointer(d.blocks[ptr], digits[0]), digits[1..])
  }

  lemma Firsts(p: nat)
    ensures First(p, 1) == 12 && First(p, 2) == 12 + Power(p, 1)
    ensures First(p, 3) == First(p, 2) + Power(p, 2) && First(p, 4) == First(p, 3) + Power(p, 3)
  {
  }

  /** Different blocks of a file sit at different places. */
  lemma PlacesDistinct(a: nat, b: nat, p: nat)
    requires p > 0 && a < First(p, 4) && b < First(p, 4) && PlaceOf(a, p) == PlaceOf(b, p)
    ensures a == b
  {
    hide Power, Digits;
    Firsts(p);
    match PlaceOf(a, p)
    case Direct(_) =>
    case Tree(root, _) =>
      var n: nat := root - 11;
      DigitsDistinct(a - First(p, n), b - First(p, n), p, n);
    case Beyond =>
  }

  /** Every path of one, two or three digits below its root is the place of exactly one block. */
  lemma PlacesOnto(n: nat, digits: seq<nat>, p: nat)
    requires p > 0 && 1 <= n <= 3 && |digits| == n && forall i | 0 <= i < n :: digits[i] < p
    ensures var l := First(p, n) + Value(digits, p);
      l < First(p, 4) && PlaceOf(l, p) == Tree(11 + n, digits)
  {
    hide Power, Digits, Value;
    Firsts(p);
    ValueDigits(digits, p);
  }

  // ---- what a block number leads to ----

  /** The block a place leads to; 0 is a hole. */
  ghost function Resolve(d: Disk, di: FileInode, l: nat): nat
    requires GoodDisk(d) && GoodInode(di)
  {
    match PlaceOf(l, Fan(d))
    case Direct(i) => di.ptr[i]
    case Tree(root, digits) =>
      PlaceDigits(l, Fan(d));
      Follow(d, di.ptr[root], digits)
    case Beyond => 0
  }

  lemma PlaceDigits(l: nat, p: nat)
    requires p > 0 && PlaceOf(l, p).Tree?
    ensures var Tree(root, digits) := PlaceOf(l, p);
      12 <= root <= 14 && |digits| == root - 11 && forall i | 0 <= i < |digits| :: digits[i] < p
  {
    DigitsSmall(l - First(p, 1), p, 1);
    if l >= First(p, 2) { DigitsSmall(l - First(p, 2), p, 2); }
    if l >= First(p, 3) { DigitsSmall(l - First(p, 3), p, 3); }
  }

  // ---- written trees ----

  /** What stands below a pointer: nothing, a block of the file, or a table of pointers in block `at`. */
  datatype Node = Hole | Data(block: nat) | Table(at: nat, kids: seq<Node>)

  function At(n: Node): nat {
    match n
    case Hole => 0
    case Data(b) => b
    case Table(at, _) => at
  }

  /** A table on disk: the pointers as four bytes each, least significant first. */
  function PointerBytes(kids: seq<Node>): (s: seq<byte>)
    ensures |s| == 4 * |kids|
  {
    if kids == [] then [] else Le(At(kids[0]), 4) + PointerBytes(kids[1..])
  }

  /** Below n there are `depth` levels of tables with p pointers each. */
  ghost predicate Shaped(n: Node, depth: nat, p: nat)
    decreases depth
  {
    match n
    case Hole => true
    case Data(b) => depth == 0 && 0 < b < 0x1_0000_0000
    case Table(at, kids) =>
      && depth > 0 && 0 < at < 0x1_0000_0000 && |kids| == p
      && forall k {:trigger kids[k]} | 0 <= k < p :: Shaped(kids[k], depth - 1, p)
  }

  /** The tables of n are on the disk. */
  ghost predicate OnDisk(d: Disk, n: Node)
    decreases n
  {
    n.Table? ==>
      && n.at in d.blocks && d.blocks[n.at] == PointerBytes(n.kids)
      && forall k {:trigger n.kids[k]} | 0 <= k < |n.kids| :: OnDisk(d, n.kids[k])
  }

  /** The blocks below n, from left to right. */
  function Leaves(n: Node, depth: nat, p: nat): (bs: seq<Option<nat>>)
    decreases depth, 0
  {
    match n
    case Hole => seq<Option<nat>>(Power(p, depth), _ => None)
    case Data(b) => [Some(b)]
    case Table(_, kids) => if depth == 0 then [] else AllLeaves(kids, depth - 1, p)
  }

  function AllLeaves(kids: seq<Node>, depth: nat, p: nat): seq<Option<nat>>
    decreases depth, |kids| + 1
  {
    if kids == [] then [] else Leaves(kids[0], depth, p) + AllLeaves(kids[1..], depth, p)
  }

  /** A file as it is laid out: twelve blocks and the trees behind the three indirection roots. */
  datatype Layout = Layout(direct: seq<Node>, single: Node, double: Node, triple: Node) {
    /** All blocks of the file in their order. */
    function Blocks(p: nat): seq<Option<nat>> {
      AllLeaves(direct, 0, p) + Leaves(single, 1, p) + Leaves(double, 2, p) + Leaves(triple, 3, p)
    }
  }

  ghost predicate LaidOut(d: Disk, di: FileInode, f: Layout)
    requires GoodDisk(d) && GoodInode(di)
  {
    && |f.direct| == 12 && (forall k {:trigger f.direct[k]} | 0 <= k < 12 :: Shaped(f.direct[k], 0, Fan(d)) && di.ptr[k] == At(f.direct[k]))
    && Shaped(f.single, 1, Fan(d)) && OnDisk(d, f.single) && di.ptr[12] == At(f.single)
    && Shaped(f.double, 2, Fan(d)) && OnDisk(d, f.double) && di.ptr[13] == At(f.double)
    && Shaped(f.triple, 3, Fan(d)) && OnDisk(d, f.triple) && di.ptr[14] == At(f.triple)
  }

  /** The pointer k of a written table reads back. */
  lemma {:induction false} PointerReads(kids: seq<Node>, k: nat)
    requires k < |kids| && At(kids[k]) < 0x1_0000_0000
    ensures Pointer(PointerBytes(kids), k) == At(kids[k])
    decreases |kids|
  {
    hide Le, UnLe;
    var s, rest := PointerBytes(kids), PointerBytes(kids[1..]);
    if k == 0 {
      assert s[0..4] == Le(At(kids[0]), 4);
      FourBytes();
      LeRoundTrip(At(kids[0]), 4);
    } else {
      PointerReads(kids[1..], k - 1);
      assert s[4 * k..4 * k + 4] == rest[4 * (k - 1)..4 * (k - 1) + 4];
    }
  }

  lemma FourBytes()
    ensures Pow256(4) == 0x1_0000_0000
  {
    assert Pow256(1) == 256 && Pow256(2) == 0x1_0000 && Pow256(3) == 0x100_0000;
  }

  lemma AtSmall(n: Node, depth: nat, p: nat)
    requires Shaped(n, depth, p)
    ensures At(n) < 0x1_0000_0000
  {
  }

  lemma {:induction false} LeafCount(n: Node, depth: nat, p: nat)
    requires Shaped(n, depth, p)
    ensures |Leaves(n, depth, p)| == Power(p, depth)
    decreases depth, 0
  {
    hide Times;
    if n.Table? {
      AllLeafCount(n.kids, depth - 1, p);
      Swapped(p, Power(p, depth - 1));
    }
  }

  lemma Swapped(a: nat, b: nat)
    ensures Times(a, b) == Times(b, a)
  {
  }

  lemma {:induction false} AllLeafCount(kids: seq<Node>, depth: nat, p: nat)
    requires forall k {:trigger kids[k]} | 0 <= k < |kids| :: Shaped(kids[k], depth, p)
    ensures |AllLeaves(kids, depth, p)| == Times(|kids|, Power(p, depth))
    decreases depth, |kids| + 1
  {
    hide Times, Power;
    if kids == [] {
      NoTimes(Power(p, depth));
    } else {
      LeafCount(kids[0], depth, p);
      AllLeafCount(kids[1..], depth, p);
      TimesStep(|kids| - 1, Power(p, depth));
    }
  }

  lemma NoTimes(a: nat)
    ensures Times(0, a) == 0
  {
  }

  /** Leaf r of the k-th tree. */
  lemma {:induction false} LeafOf(kids: seq<Node>, depth: nat, p: nat, k: nat, r: nat)
    requires (forall j {:trigger kids[j]} | 0 <= j < |kids| :: Shaped(kids[j], depth, p)) && k < |kids| && r < Power(p, depth)
    ensures |Leaves(kids[k], depth, p)| == Power(p, depth)
    ensures var i := Times(k, Power(p, depth)) + r;
      i < |AllLeaves(kids, depth, p)| && AllLeaves(kids, depth, p)[i] == Leaves(kids[k], depth, p)[r]
    decreases |kids|
  {
    hide Times, Power, Leaves;
    LeafCount(kids[0], depth, p);
    if k == 0 {
      NoTimes(Power(p, depth));
    } else {
      LeafOf(kids[1..], depth, p, k - 1, r);
      TimesStep(k - 1, Power(p, depth));
    }
  }

  /** The first digit counts whole trees of the next level. */
  lemma {:induction false} ValueHead(s: seq<nat>, p: nat)
    requires |s| > 0
    ensures Value(s, p) == Times(s[0], Power(p, |s| - 1)) + Value(s[1..], p)
    decreases |s|
  {
    hide Times;
    var n := |s| - 1;
    if n == 0 {
      assert s[..0] == [] && s[1..] == [];
      NoTimes(p);
      TimesOne(s[0]);
    } else {
      ValueHead(s[..n], p);
      assert s[..n][1..] == s[1..][..n - 1];
      Distributed(s[0], Power(p, n - 1), Value(s[1..][..n - 1], p), p);
    }
  }

  lemma TimesOne(a: nat)
    ensures Times(a, 1) == a
  {
  }

  lemma Distributed(a: nat, b: nat, c: nat, p: nat)
    ensures Times(Times(a, b) + c, p) == Times(a, Times(b, p)) + Times(c, p)
  {
    assert (a * b + c) * p == a * (b * p) + c * p;
  }

  function BlockOr0(b: Option<nat>): nat { if b.Some? then b.value else 0 }

  /** Following digits down leads to the block with that number below n. */
  lemma {:induction false} FollowLeaves(d: Disk, n: Node, s: seq<nat>)
    requires GoodDisk(d) && Shaped(n, |s|, Fan(d)) && OnDisk(d, n) && forall i | 0 <= i < |s| :: s[i] < Fan(d)
    ensures Value(s, Fan(d)) < |Leaves(n, |s|, Fan(d))|
    ensures Follow(d, At(n), s) == BlockOr0(Leaves(n, |s|, Fan(d))[Value(s, Fan(d))])
    decreases |s|
  {
    hide Times, Power, Value, Pointer;
    var p := Fan(d);
    LeafCount(n, |s|, p);
    ValueDigits(s, p);
    if |s| == 0 {
      NoDigits(p);
    } else if n.Table? {
      var k, depth := s[0], |s| - 1;
      FollowLeaves(d, n.kids[k], s[1..]);
      LeafCount(n.kids[k], depth, p);
      ValueHead(s, p);
      LeafOf(n.kids, depth, p, k, Value(s[1..], p));
      AtSmall(n.kids[k], depth, p);
      PointerReads(n.kids, k);
    }
  }

  lemma NoDigits(p: nat)
    ensures Value([], p) == 0
  {
  }

  /** The digits of x lead to leaf x. */
  lemma DigitsLead(d: Disk, n: Node, x: nat, depth: nat)
    requires GoodDisk(d) && Fan(d) > 0 && Shaped(n, depth, Fan(d)) && OnDisk(d, n) && x < Power(Fan(d), depth)
    ensures forall i | 0 <= i < depth :: Digits(x, Fan(d), depth)[i] < Fan(d)
    ensures |Leaves(n, depth, Fan(d))| == Power(Fan(d), depth)
    ensures Follow(d, At(n), Digits(x, Fan(d), depth)) == BlockOr0(Leaves(n, depth, Fan(d))[x])
  {
    hide Follow, Leaves, Digits, Value, Power;
    DigitsSmall(x, Fan(d), depth);
    DigitsValue(x, Fan(d), depth);
    LeafCount(n, depth, Fan(d));
    FollowLeaves(d, n, Digits(x, Fan(d), depth));
  }

  lemma {:induction false} DirectLeaves(kids: seq<Node>, p: nat)
    requires forall k {:trigger kids[k]} | 0 <= k < |kids| :: Shaped(kids[k], 0, p)
    ensures |AllLeaves(kids, 0, p)| == |kids|
    ensures forall k {:trigger kids[k]} | 0 <= k < |kids| :: BlockOr0(AllLeaves(kids, 0, p)[k]) == At(kids[k])
    decreases |kids|
  {
    if kids != [] {
      DirectLeaves(kids[1..], p);
      assert |Leaves(kids[0], 0, p)| == 1;
      forall k | 0 <= k < |kids| ensures BlockOr0(AllLeaves(kids, 0, p)[k]) == At(kids[k]) {
        if k > 0 { assert kids[k] == kids[1..][k - 1]; }
      }
    }
  }

  /** On a file that is laid out so, block number l leads to the l-th block of the file, 0 for a hole or
      beyond the last. */
  lemma ResolveLaidOut(d: Disk, di: FileInode, f: Layout, l: nat)
    requires GoodDisk(d) && GoodInode(di) && LaidOut(d, di, f)
    ensures Resolve(d, di, l) == if l < |f.Blocks(Fan(d))| then BlockOr0(f.Blocks(Fan(d))[l]) else 0
  {
    hide Follow, Leaves, Digits, Power, AllLeaves, Shaped, OnDisk;
    var p := Fan(d);
    Firsts(p);
    DirectLeaves(f.direct, p);
    LeafCount(f.single, 1, p);
    LeafCount(f.double, 2, p);
    LeafCount(f.triple, 3, p);
    if l < 12 {
      assert f.direct[l] == f.direct[l];
    } else if l < First(p, 2) {
      DigitsLead(d, f.single, l - 12, 1);
    } else if l < First(p, 3) {
      DigitsLead(d, f.double, l - First(p, 2), 2);
    } else if l < First(p, 4) {
      DigitsLead(d, f.triple, l - First(p, 3), 3);
    }
  }

  // ---- the bytes of a written file ----

  /** The file's blocks are bs, one behind the other and without a hole, as far as its size goes. */
  ghost predicate Holds(d: Disk, di: FileInode, f: Layout, bs: seq<nat>)
    requires GoodDisk(d) && GoodInode(di)
  {
    && LaidOut(d, di, f) && di.size <= |bs| * d.size && |bs| <= |f.Blocks(Fan(d))|
    && forall k {:trigger bs[k]} | 0 <= k < |bs| :: f.Blocks(Fan(d))[k] == Some(bs[k]) && bs[k] != 0 && bs[k] in d.blocks
  }

  /** The contents of these blocks in their order. */
  function Contents(d: Disk, bs: seq<nat>): seq<byte>
    requires forall k {:trigger bs[k]} | 0 <= k < |bs| :: bs[k] in d.blocks
  {
    if bs == [] then [] else d.blocks[bs[0]] + Contents(d, bs[1..])
  }

  lemma {:induction false} ContentsAt(d: Disk, bs: seq<nat>, k: nat, j: nat)
    requires GoodDisk(d) && (forall i {:trigger bs[i]} | 0 <= i < |bs| :: bs[i] in d.blocks) && k < |bs| && j < d.size
    ensures |Contents(d, bs)| == Times(|bs|, d.size)
    ensures |d.blocks[bs[k]]| == d.size && Times(k, d.size) + j < |Contents(d, bs)|
    ensures Contents(d, bs)[Times(k, d.size) + j] == d.blocks[bs[k]][j]
    decreases |bs|
  {
    hide Times;
    assert bs[0] in d.blocks && |d.blocks[bs[0]]| == d.size;
    TimesStep(|bs| - 1, d.size);
    if |bs| == 1 {
      NoTimes(d.size);
    } else if k == 0 {
      ContentsAt(d, bs[1..], 0, j);
      NoTimes(d.size);
    } else {
      ContentsAt(d, bs[1..], k - 1, j);
      TimesStep(k - 1, d.size);
    }
  }
}
