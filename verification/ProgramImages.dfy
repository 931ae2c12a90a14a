/** execve from the file to the running program: the segments of an ELF file and the start block put
    into a staged address space, read back byte by byte through its page tables. */
module ProgramImages {
  import opened Options
  import opened Machine
  import opened FrameBitmap
  import opened PageTables
  import opened SpaceSteps
  import opened MappingSteps
  import opened Subtrees
  import opened CloneSteps
  import opened AddressSpaces
  import opened PageRanges
  import opened ProcessMemory
  import opened SpaceLifetimes
  import opened UserImages
  import opened ForkAndExec
  import opened WordBytes
  import Bytes
  import Elf = ElfImage
  import User = UserBytes
  import Start = InitialStack

  type byte = Bytes.byte

  // ---- the plan of a file ----

  /** load_segment's flags: user, writable by PF_W, and no-execute without PF_X. */
  function SegFlags(s: Elf.Seg): Flags { Flags(true, s.writable, true, false, !s.exec, 0, 0) }

  /** Page n as segment s wants it. */
  function SegPage(data: seq<byte>, s: Elf.Seg, n: nat): (b: seq<byte>)
    requires Elf.InFile(data, s)
    ensures |b| == 4096
  {
    seq<byte>(4096, i requires 0 <= i < 4096 => Elf.ImageByte(data, s, n * 4096 + i))
  }

  function SegTable(data: seq<byte>, s: Elf.Seg, n: nat): Table
    requires Elf.InFile(data, s)
  {
    WordsOf(SegPage(data, s, n))
  }

  function PieceOf(data: seq<byte>, s: Elf.Seg): (p: Piece)
    requires Elf.InFile(data, s)
    ensures p.lo == Elf.FirstPage(s) && p.Hi() == Elf.EndPage(s) && p.fl == SegFlags(s)
    ensures forall k {:trigger p.pages[k]} | 0 <= k < |p.pages| :: p.pages[k] == SegTable(data, s, p.lo + k)
  {
    Elf.Ends(s);
    var lo := Elf.FirstPage(s);
    Piece(lo, SegFlags(s), seq<Table>(Elf.EndPage(s) - lo, k requires 0 <= k => SegTable(data, s, lo + k)))
  }

  /** The segments before the first one that leaves the file: what the loader maps before it gives up. */
  function Loadable(data: seq<byte>, segs: seq<Elf.Seg>): (r: seq<Elf.Seg>)
    ensures Elf.AllInFile(data, r) && r <= segs && (r == segs <==> Elf.AllInFile(data, segs))
  {
    if segs == [] then [] else
    var n := |segs| - 1;
    var r := Loadable(data, segs[..n]);
    assert r == segs[..n] ==> Elf.AllInFile(data, segs) == Elf.InFile(data, segs[n]) by {
      if r == segs[..n] && Elf.InFile(data, segs[n]) {
        forall i | 0 <= i < |segs| ensures Elf.InFile(data, segs[i]) { assert i < n ==> segs[..n][i] == segs[i]; }
      }
    }
    assert Elf.AllInFile(data, segs) ==> Elf.AllInFile(data, segs[..n]);
    if r == segs[..n] && Elf.InFile(data, segs[n]) then segs else r
  }

  function PlanOf(data: seq<byte>, segs: seq<Elf.Seg>): (plan: seq<Piece>)
    requires Elf.AllInFile(data, segs)
    ensures |plan| == |segs| && forall i {:trigger plan[i]} | 0 <= i < |segs| :: plan[i] == PieceOf(data, segs[i])
  {
    seq(|segs|, i requires 0 <= i < |segs| => assert Elf.InFile(data, segs[i]); PieceOf(data, segs[i]))
  }

  /** The segments lie in the window that a program may use, and no two share a page. */
  ghost predicate Placed(segs: seq<Elf.Seg>) {
    && (forall i {:trigger segs[i]} | 0 <= i < |segs| ::
          WINDOW_BASE <= PageDown(segs[i].vaddr) && PageUp(segs[i].vaddr + segs[i].memsz) <= BRK_CEILING)
    && (forall i, j {:trigger segs[i], segs[j]} | 0 <= i < j < |segs| ::
          Elf.EndPage(segs[i]) <= Elf.FirstPage(segs[j]) || Elf.EndPage(segs[j]) <= Elf.FirstPage(segs[i]))
  }

  /** The break of the new program. */
  function Break(segs: seq<Elf.Seg>): nat { if segs == [] then WINDOW_BASE else Elf.Highest(segs) }

  lemma SegWindow(s: Elf.Seg)
    requires WINDOW_BASE <= PageDown(s.vaddr) && PageUp(s.vaddr + s.memsz) <= BRK_CEILING
    ensures WINDOW_BASE / PAGE_SIZE <= Elf.FirstPage(s) <= Elf.EndPage(s) <= BRK_CEILING / PAGE_SIZE
    ensures PageUp(s.vaddr + s.memsz) % PAGE_SIZE == 0 && WINDOW_BASE <= PageUp(s.vaddr + s.memsz)
  {
    Elf.Ends(s);
  }

  /** The plan of a placed file can be loaded. */
  lemma PlanFits(data: seq<byte>, segs: seq<Elf.Seg>)
    requires Elf.AllInFile(data, segs) && Placed(segs)
    ensures Plan(PlanOf(data, segs)) && InWindow(PlanOf(data, segs), Break(segs))
  {
    hide Elf.InFile, PageDown, PageUp, Elf.EndPage, Elf.FirstPage, PrivateRun;
    var plan := PlanOf(data, segs);
    Elf.HighestIsMax(segs);
    forall i | 0 <= i < |plan|
      ensures PrivateRun(plan[i].lo, plan[i].Hi()) && WINDOW_BASE / PAGE_SIZE <= plan[i].lo
      ensures plan[i].Hi() * PAGE_SIZE == PageUp(segs[i].vaddr + segs[i].memsz)
    {
      assert plan[i] == PieceOf(data, segs[i]);
      SegWindow(segs[i]);
      Elf.Ends(segs[i]);
      WindowIsPrivate(plan[i].lo, plan[i].Hi());
    }
    forall i, j | 0 <= i < j < |plan| ensures plan[i].Hi() <= plan[j].lo || plan[j].Hi() <= plan[i].lo {
      assert plan[i] == PieceOf(data, segs[i]) && plan[j] == PieceOf(data, segs[j]);
    }
    if segs != [] {
      SegWindow(segs[0]);
      BreakIs(segs);
      forall i | 0 <= i < |plan| ensures plan[i].Hi() <= Break(segs) / PAGE_SIZE {
        assert plan[i].Hi() * PAGE_SIZE <= Elf.Highest(segs) && segs[i] == segs[i];
      }
    }
  }

  lemma BreakIs(segs: seq<Elf.Seg>)
    requires segs != [] && Placed(segs)
    ensures WINDOW_BASE <= Break(segs) <= BRK_CEILING && Break(segs) % PAGE_SIZE == 0
  {
    hide PageDown, PageUp, Elf.EndPage, Elf.FirstPage;
    Elf.HighestIsMax(segs);
    SegWindow(segs[0]);
    if Elf.Highest(segs) != 0 {
      var i :| 0 <= i < |segs| && Elf.Highest(segs) == PageUp(segs[i].vaddr + segs[i].memsz);
      SegWindow(segs[i]);
    }
  }

  // ---- a space byte by byte ----

  /** What user code reads: the private pages of the space, by page number. */
  ghost function SpaceBytes(ram: Ram, t: Tree, s: nat): (m: User.Memory)
    requires Inv(ram, t)
    ensures User.GoodMemory(m)
  {
    map n: nat | n < 0x10_0000_0000 && Private(PageOf(n)) && TreeWalk(ram, t, Space(s), PageOf(n)).Some? ::
      PageBytes(Load(ram, TreeWalk(ram, t, Space(s), PageOf(n)).value.frame))
  }

  /** Page n of the space is as segment seg wants it, and user code may do with it what the segment
      says: write it, or run it. */
  ghost predicate SegmentThere(ram: Ram, t: Tree, s: nat, data: seq<byte>, seg: Elf.Seg, n: nat)
    requires Inv(ram, t) && Elf.InFile(data, seg)
  {
    && TreeWalk(ram, t, Space(s), PageOf(n)).Some? && TreeWalk(ram, t, Space(s), PageOf(n)).value.fl == SegFlags(seg)
    && Effective(ram, s, PageOf(n)) == Some(Rights(seg.writable, true, !seg.exec))
    && n in SpaceBytes(ram, t, s)
    && Elf.PageLoaded(data, seg, n, Elf.UserPage(SpaceBytes(ram, t, s)[n], seg.writable, !seg.exec))
  }

  /** Every page of every segment is there. */
  ghost predicate ImageThere(ram: Ram, t: Tree, s: nat, data: seq<byte>, segs: seq<Elf.Seg>)
    requires Inv(ram, t) && Elf.AllInFile(data, segs)
  {
    forall i, n: nat {:trigger Elf.Covers(segs[i], n)} | 0 <= i < |segs| && Elf.Covers(segs[i], n) :: SegmentThere(ram, t, s, data, segs[i], n)
  }

  lemma PieceIsThere(ram: Ram, t: Tree, s: nat, data: seq<byte>, seg: Elf.Seg, n: nat)
    requires Good(ram, t) && Root(Space(s)) in t.at && Elf.InFile(data, seg) && Elf.Covers(seg, n)
    requires PieceLoaded(ram, t, s, PieceOf(data, seg), |PieceOf(data, seg).pages|) && PrivateRun(Elf.FirstPage(seg), Elf.EndPage(seg))
    ensures SegmentThere(ram, t, s, data, seg, n)
  {
    hide Inv, Granting, Effective, TreeWalk, PageOf, Private, WordsOf, PageBytes, Elf.InFile, Elf.ImageByte, Elf.FirstPage, Elf.EndPage;
    var p := PieceOf(data, seg);
    assert p.lo <= n < p.Hi() by { CoversIs(seg, n); }
    assert ImagePage(ram, t, s, PageOf(n), p.fl, p.pages[n - p.lo]);
    assert p.pages[n - p.lo] == SegTable(data, seg, n);
    EntryDecides(ram, t, s, PageOf(n));
    PageRoundTrip(SegPage(data, seg, n));
  }

  lemma CoversIs(seg: Elf.Seg, n: nat)
    ensures Elf.Covers(seg, n) <==> Elf.FirstPage(seg) <= n < Elf.EndPage(seg)
  {
  }

  lemma ImageIsThere(ram: Ram, t: Tree, s: nat, data: seq<byte>, segs: seq<Elf.Seg>)
    requires Good(ram, t) && Root(Space(s)) in t.at && Elf.AllInFile(data, segs) && Plan(PlanOf(data, segs))
    requires FirstLoaded(ram, t, s, PlanOf(data, segs), |PlanOf(data, segs)|)
    ensures ImageThere(ram, t, s, data, segs)
  {
    hide Inv, Granting, PieceLoaded, PrivateRun, Elf.InFile, Elf.Covers, SegmentThere;
    var plan := PlanOf(data, segs);
    forall i, n: nat {:trigger Elf.Covers(segs[i], n)} | 0 <= i < |segs| && Elf.Covers(segs[i], n) ensures SegmentThere(ram, t, s, data, segs[i], n) {
      assert plan[i] == PieceOf(data, segs[i]);
      PieceIsThere(ram, t, s, data, segs[i], n);
    }
  }

  // ---- the start block ----

  /** The bytes b, padded to sixteen, as the words that execve stores. */
  function BlockOf(b: seq<byte>): (w: seq<Entry>)
    ensures |w| * 8 == Start.Round16(|b|)
  {
    WordsOf(Padded(b))
  }

  function Padded(b: seq<byte>): (r: seq<byte>)
    ensures |r| == Start.Round16(|b|) && |r| % 8 == 0
  {
    b + seq(Start.Round16(|b|) - |b|, _ => 0)
  }

  lemma WordPlace(rsp: nat, w: nat, i: nat)
    requires rsp == 8 * w
    ensures (rsp + i) / PAGE_SIZE == (w + i / 8) / 512 && (rsp + i) % PAGE_SIZE / 8 == (w + i / 8) % 512 && (rsp + i) % PAGE_SIZE % 8 == i % 8
  {
    var a, n := rsp + i, w + i / 8;
    assert a == 8 * n + i % 8;
    assert n == 512 * (n / 512) + n % 512;
    assert a == 4096 * (n / 512) + (8 * (n % 512) + i % 8);
  }

  /** Byte i of the block is where it belongs. */
  lemma BlockByte(ram: Ram, t: Tree, s: nat, b: seq<byte>, i: nat)
    requires Inv(ram, t) && i < |b| && |BlockOf(b)| <= (STACK_HI - STACK_LO) * 512
    requires UserWord(ram, t, s, STACK_HI * 512 - |BlockOf(b)| + i / 8) == Some(BlockOf(b)[i / 8])
    ensures User.ByteAt(SpaceBytes(ram, t, s), STACK_TOP - Start.Round16(|b|) + i) == Some(b[i])
  {
    hide Inv, TreeWalk, PageOf, Private, BytesOf, WordsOf;
    var w: nat := STACK_HI * 512 - |BlockOf(b)|;
    var rsp: nat := STACK_TOP - Start.Round16(|b|);
    var n := w + i / 8;
    WordPlace(rsp, w, i);
    UpperIsPrivate(STACK_LO, STACK_HI);
    assert STACK_LO <= n / 512 < STACK_HI;
    BlockRoundTrip(Padded(b), i);
    assert Private(PageOf(n / 512));
  }

  /** What is stored at rsp reads as the whole block. */
  lemma BlockThere(ram: Ram, t: Tree, s: nat, b: seq<byte>)
    requires Inv(ram, t) && |BlockOf(b)| <= (STACK_HI - STACK_LO) * 512
    requires forall j: nat {:trigger BlockOf(b)[j]} | j < |BlockOf(b)| ::
      UserWord(ram, t, s, STACK_HI * 512 - |BlockOf(b)| + j) == Some(BlockOf(b)[j])
    ensures var m := SpaceBytes(ram, t, s); User.Stored(m, m, STACK_TOP - Start.Round16(|b|), b)
  {
    hide Inv, UserWord, SpaceBytes, User.ByteAt, BlockOf;
    var m, rsp := SpaceBytes(ram, t, s), STACK_TOP - Start.Round16(|b|);
    forall a: nat | rsp <= a < rsp + |b| ensures User.ByteAt(m, a) == Some(b[a - rsp]) {
      var i := a - rsp;
      assert BlockOf(b)[i / 8] == BlockOf(b)[i / 8];
      BlockByte(ram, t, s, b, i);
    }
  }

  // ---- the start block of a program ----

  /** The arguments, the environment and the loader's result that a new program is started with. */
  datatype Params = Params(argv: seq<seq<byte>>, envp: seq<seq<byte>>, random: seq<byte>, loaded: Start.Loaded) {
    function Size(): nat { Start.Total(argv, envp) }
    function Fits(): bool { Start.Round16(Size()) <= STACK_TOP - STACK_BASE }
    function Rsp(): nat requires Fits() { STACK_TOP - Start.Round16(Size()) }

    /** The offset of the sixteen random bytes. */
    function RandomAt(): int { Start.StringsAt(|argv|, |envp|) - 16 }

    /** What execve demands of its callers and of the loader's result. */
    ghost predicate Good() {
      Start.Strings(argv) && Start.Strings(envp) && Start.Fits64(loaded) && |random| == 16 && Size() < 0x1_0000_0000
    }
  }

  /** The block as the scratch buffer holds it. */
  ghost predicate IsBlock(b: seq<byte>, q: Params)
    requires q.Fits()
  {
    && |b| == q.Size() && Start.WordsIn(b, q.loaded, q.argv, q.envp, q.Rsp(), Start.Words(q.argv, q.envp))
    && Start.StringsIn(b, q.argv, q.envp, |q.argv| + |q.envp|)
    && 0 <= q.RandomAt() && q.RandomAt() + 16 <= |b| && b[q.RandomAt()..q.RandomAt() + 16] == q.random
  }

  /** The scratch buffer of build_linux_stack. */
  method Scratch(q: Params) returns (b: seq<byte>)
    requires q.Good() && q.Fits()
    ensures IsBlock(b, q)
  {
    hide Start.WordsIn, Start.StringsIn, Start.Strings, Start.StringsAt;
    ghost var at := q.RandomAt();
    Start.Below(q.argv, q.envp, 0);
    var buf := new byte[q.Size()];
    Start.PutStrings(buf, q.argv, q.envp, q.random);
    assert buf[at..at + 16] == q.random;
    Start.PutArray(buf, q.loaded, q.argv, q.envp, q.Rsp());
    b := buf[..];
    assert b[at..at + 16] == q.random;
  }

  /** A reader of the space's memory finds argc, argv, envp and the auxiliary vector at rsp. */
  ghost predicate Started(ram: Ram, t: Tree, s: nat, q: Params)
    requires Inv(ram, t) && q.Fits()
  {
    var m := SpaceBytes(ram, t, s);
    && Start.StackHolds(m, q.Rsp(), q.argv, q.envp, Start.Aux(q.loaded, q.Rsp() + Start.StringsAt(|q.argv|, |q.envp|) - 16))
    && Start.VectorReads(m, q.Rsp() + 8 * (3 + |q.argv| + |q.envp|), q.loaded, q.random)
  }

  lemma BlockStarts(ram: Ram, t: Tree, s: nat, q: Params, b: seq<byte>)
    requires Inv(ram, t) && q.Good() && q.Fits() && IsBlock(b, q)
    requires forall j: nat {:trigger BlockOf(b)[j]} | j < |BlockOf(b)| ::
      UserWord(ram, t, s, STACK_HI * 512 - |BlockOf(b)| + j) == Some(BlockOf(b)[j])
    ensures Started(ram, t, s, q)
  {
    hide Inv, UserWord, SpaceBytes, BlockOf, Start.StackHolds, Start.VectorReads, Start.WordsIn, Start.StringsIn, Start.Aux, Bytes.Pow256, User.Stored,
      Start.StringBytes, Start.Strings;
    BlockThere(ram, t, s, b);
    Start.Enough(q.argv, q.envp);
    var m := SpaceBytes(ram, t, s);
    Start.BlockFound(b, q.loaded, q.argv, q.envp, q.Rsp(), m, m, q.random);
  }

  // ---- execve ----

  /** The segments that the loader maps. */
  function Mapped(data: seq<byte>): (segs: seq<Elf.Seg>)
    ensures Elf.AllInFile(data, segs)
  {
    if Elf.HeaderOk(data) then Loadable(data, Elf.Segs(data, Elf.PhNum(data))) else []
  }

  /** What the loader reports about a file, if it accepts it. */
  function LoadedFrom(data: seq<byte>): Start.Loaded {
    if !Elf.HeaderOk(data) then Start.Loaded(0, 0, 0, 0)
    else Start.Loaded(Elf.Entry(data), Elf.PhdrAddress(Mapped(data), Elf.PhOff(data)), Elf.PhNum(data), Elf.PhEntSize(data))
  }

  /** All of it fits machine words. */
  lemma LoadedFits(data: seq<byte>)
    requires Placed(Mapped(data))
    ensures Start.Fits64(LoadedFrom(data))
  {
    EightBytes();
    if Elf.HeaderOk(data) {
      hide Elf.HeaderOk, Bytes.Pow256, Mapped, PageDown, PageUp;
      NumberFits(data, 24, 8);
      NumberFits(data, 54, 2);
      NumberFits(data, 56, 2);
      PhdrFits(data, Mapped(data), Elf.PhOff(data));
    }
  }

  lemma NumberFits(data: seq<byte>, at: nat, n: nat)
    requires at + n <= |data| && n <= 8
    ensures Elf.Number(data, at, n) < 0x1_0000_0000_0000_0000
  {
    LeOfUnLe(data[at..at + n]);
    PowersGrow(n, 8);
    EightBytes();
  }

  lemma {:induction false} PowersGrow(a: nat, b: nat)
    requires a <= b
    ensures Bytes.Pow256(a) <= Bytes.Pow256(b)
    decreases b
  {
    if a < b { PowersGrow(a, b - 1); }
  }

  lemma {:induction false} PhdrFits(data: seq<byte>, segs: seq<Elf.Seg>, phoff: nat)
    requires Elf.AllInFile(data, segs) && Placed(segs)
    ensures Elf.PhdrAddress(segs, phoff) <= BRK_CEILING
  {
    if segs != [] {
      var n := |segs| - 1;
      assert forall i | 0 <= i < n :: segs[..n][i] == segs[i];
      PhdrFits(data, segs[..n], phoff);
      EndBelow(segs[n]);
      assert Elf.InFile(data, segs[n]);
    }
  }

  lemma EndBelow(s: Elf.Seg)
    ensures s.vaddr + s.memsz <= PageUp(s.vaddr + s.memsz)
  {
  }

  /** parse_and_load accepts the file. */
  ghost predicate Accepted(data: seq<byte>) {
    Elf.HeaderOk(data) && Elf.AllInFile(data, Elf.Segs(data, Elf.PhNum(data)))
  }

  /** The program reads the file's bytes at the segment's addresses, and zeros behind them. */
  ghost predicate SegmentBytes(m: User.Memory, data: seq<byte>, seg: Elf.Seg)
    requires User.GoodMemory(m) && Elf.InFile(data, seg)
  {
    forall k: nat {:trigger SegmentByte(m, data, seg, k)} | k < seg.memsz :: SegmentByte(m, data, seg, k)
  }

  ghost predicate SegmentByte(m: User.Memory, data: seq<byte>, seg: Elf.Seg, k: nat)
    requires User.GoodMemory(m) && Elf.InFile(data, seg)
  {
    User.ByteAt(m, seg.vaddr + k) == Some(if k < seg.filesz then data[seg.offset + k] else 0)
  }

  lemma SegmentReads(ram: Ram, t: Tree, s: nat, data: seq<byte>, segs: seq<Elf.Seg>, i: nat)
    requires Inv(ram, t) && Elf.AllInFile(data, segs) && ImageThere(ram, t, s, data, segs) && i < |segs|
    ensures Elf.InFile(data, segs[i]) && SegmentBytes(SpaceBytes(ram, t, s), data, segs[i])
  {
    hide Inv, TreeWalk, PageOf, Private, SpaceBytes, Effective;
    var seg, m := segs[i], SpaceBytes(ram, t, s);
    forall k: nat | k < seg.memsz ensures SegmentByte(m, data, seg, k) {
      var a := seg.vaddr + k;
      var n := a / PAGE_SIZE;
      PageWithin(seg, a, n);
      assert SegmentThere(ram, t, s, data, seg, n);
      assert m[n][a % PAGE_SIZE] == Elf.ImageByte(data, seg, n * PAGE_SIZE + a % PAGE_SIZE);
    }
  }

  lemma PageWithin(seg: Elf.Seg, a: nat, n: nat)
    requires seg.vaddr <= a < seg.vaddr + seg.memsz && n == a / PAGE_SIZE
    ensures Elf.Covers(seg, n) && n * PAGE_SIZE + a % PAGE_SIZE == a
  {
    Elf.Ends(seg);
    EndBelow(seg);
  }

  /** What the program of a written file finds when it starts at stack pointer rsp: all its segments, its
      arguments, and a vector that tells where its program headers are. */
  ghost predicate ProgramThere(ram: Ram, t: Tree, s: nat, f: Elf.Program, rsp: nat, argv: seq<seq<byte>>, envp: seq<seq<byte>>, random: seq<byte>)
    requires Inv(ram, t)
  {
    && Elf.AllInFile(f.Bytes(), f.Segments()) && ImageThere(ram, t, s, f.Bytes(), f.Segments())
    && (forall i {:trigger f.Segments()[i]} | 0 <= i < |f.Segments()| :: SegmentBytes(SpaceBytes(ram, t, s), f.Bytes(), f.Segments()[i]))
    && exists phdr: nat {:trigger Elf.HeadersAt(f.Segments(), f.PhOffset(), phdr)} ::
         && Elf.HeadersAt(f.Segments(), f.PhOffset(), phdr)
         && Start.VectorReads(SpaceBytes(ram, t, s), rsp + 8 * (3 + |argv| + |envp|), Start.Loaded(f.entry, phdr, |f.headers|, f.phentsize), random)
  }

  /** execve, from the bytes of the file to the first instruction. With a zero result every page of
      every segment reads as the file says, with the segment's permissions, and the walk from the new
      stack pointer finds the arguments, the environment and the auxiliary vector. */
  method ExecveFile(task: Process, data: seq<byte>, argv: seq<seq<byte>>, envp: seq<seq<byte>>, random: seq<byte>)
    returns (ok: bool, r: int, entry: nat, rsp: nat)
    requires Active(task.mmu, task.cr3) && Child(Root(Kernel), HEAP_SLOT) in task.mmu.tree.at
    requires Placed(Mapped(data)) && (Accepted(data) ==> Mapped(data) != [])
    requires Start.Strings(argv) && Start.Strings(envp) && |random| == 16 && Start.Total(argv, envp) < 0x1_0000_0000
    modifies task, task.mmu`ram, task.mmu`tree, task.mmu`cr3, task.mmu.pmm, task.mmu.pmm.bitmap
    ensures ok ==> Active(task.mmu, task.cr3)
    ensures ok ==> r == if !Accepted(data) then -ENOENT
                        else if Start.Round16(Start.Total(argv, envp)) > 0x8_0000 then -E2BIG else 0
    ensures (ok <==> |old(task.mmu.pmm.free)| >= ExecPrice(task.mmu, old(task.mmu.tree), old(task.cr3), PlanOf(data, Mapped(data)), Accepted(data)))
    ensures !ok ==> task.mmu.pmm.free == {}
    ensures ok && r == -ENOENT ==> task.brkStart == old(task.brkStart) && task.brkCur == old(task.brkCur) && task.mmapNext == old(task.mmapNext)
    ensures ok && r == -E2BIG ==> task.brkStart == task.brkCur == Break(Mapped(data)) && task.mmapNext == MMAP_BASE
    ensures ok && r < 0 ==>
      && task.cr3 == old(task.cr3) && task.mmu.pmm.free == old(task.mmu.pmm.free)
      && Step(old(Now(task.mmu)), Now(task.mmu), {}, task.mmu.fixed)
    ensures ok && r == 0 ==>
      && Accepted(data) && task.Valid()
      && ImageThere(task.mmu.ram, task.mmu.tree, task.cr3, data, Elf.Segs(data, Elf.PhNum(data)))
      && Grants(task.mmu.ram, task.cr3, 0x7_FFFF_FF7F, 0x7_FFFF_FFFF, true, false)
      && Started(task.mmu.ram, task.mmu.tree, task.cr3, Params(argv, envp, random, LoadedFrom(data)))
      && entry == Elf.Entry(data) && rsp == 0x7FFF_FFFF_F000 - Start.Round16(Start.Total(argv, envp))
      && task.brkStart == task.brkCur == Elf.Highest(Elf.Segs(data, Elf.PhNum(data))) && task.mmapNext == MMAP_BASE
      && Vacant(task.mmu.tree, Space(old(task.cr3)))
      && task.mmu.pmm.released == old(task.mmu.pmm.released) + multiset(FramesOf(old(task.mmu.tree), Space(old(task.cr3))))
    ensures forall f: Elf.Program {:trigger f.Bytes()} | f.Good() && f.Bytes() == data ::
      && (ok ==> (r == -2 <==> !Elf.AllInFile(data, f.Segments())))
      && (ok && r == 0 ==> entry == f.entry && ProgramThere(task.mmu.ram, task.mmu.tree, task.cr3, f, rsp, argv, envp, random))
  {
    hide Inv, Granting, ImageThere, Started, Elf.Segs, Elf.Program.Bytes, Elf.Program.Good, FramesOf, ExecPrice, Step, ProgramThere, Mmu.Valid, Process.Regions, Grants,
      Elf.HeaderOk, Elf.AllInFile, LoadedFrom, Mapped, Placed, PlanOf, Break, Start.Total, Start.Round16, Vacant, PageTables.TreeWalk;
    ok, r := Execute(task, data, argv, envp, random);
    entry, rsp := LoadedFrom(data).entry, 0;
    EntryIs(data);
    if ok && r == 0 {
      rsp := STACK_TOP - Start.Round16(Start.Total(argv, envp));
      ActiveGood(task.mmu, task.cr3);
    }
    forall f: Elf.Program {:trigger f.Bytes()} | f.Good() && f.Bytes() == data
      ensures Accepted(data) <==> Elf.AllInFile(data, f.Segments())
      ensures ok && r == 0 ==> entry == f.entry && ProgramThere(task.mmu.ram, task.mmu.tree, task.cr3, f, rsp, argv, envp, random)
    {
      Elf.ProgramReads(f);
      if ok && r == 0 { ProgramStarts(task.mmu.ram, task.mmu.tree, task.cr3, f, argv, envp, random); }
    }
  }

  lemma EntryIs(data: seq<byte>)
    ensures Elf.HeaderOk(data) ==> LoadedFrom(data).entry == Elf.Entry(data)
  {
    hide Elf.HeaderOk, Mapped;
  }

  lemma ProgramStarts(ram: Ram, t: Tree, s: nat, f: Elf.Program, argv: seq<seq<byte>>, envp: seq<seq<byte>>, random: seq<byte>)
    requires Inv(ram, t) && f.Good() && Accepted(f.Bytes()) && ImageThere(ram, t, s, f.Bytes(), Elf.Segs(f.Bytes(), Elf.PhNum(f.Bytes())))
    requires var q := Params(argv, envp, random, LoadedFrom(f.Bytes())); q.Fits() && Started(ram, t, s, q)
    ensures ProgramThere(ram, t, s, f, STACK_TOP - Start.Round16(Start.Total(argv, envp)), argv, envp, random)
    ensures LoadedFrom(f.Bytes()).entry == f.entry
  {
    hide Inv, ImageThere, Elf.Segs, Elf.Program.Bytes, Elf.Program.Good, Elf.Program.Segments, Start.StackHolds, Start.VectorReads, SpaceBytes, Elf.HeadersAt;
    var data := f.Bytes();
    Elf.ProgramReads(f);
    Elf.PhdrAddressIs(f.Segments(), f.PhOffset());
    assert Mapped(data) == f.Segments();
    forall i | 0 <= i < |f.Segments()| ensures SegmentBytes(SpaceBytes(ram, t, s), data, f.Segments()[i]) { SegmentReads(ram, t, s, data, f.Segments(), i); }
  }

  /** The same, over the loader's own reading of the file. */
  method Execute(task: Process, data: seq<byte>, argv: seq<seq<byte>>, envp: seq<seq<byte>>, random: seq<byte>) returns (ok: bool, r: int)
    requires Active(task.mmu, task.cr3) && Child(Root(Kernel), HEAP_SLOT) in task.mmu.tree.at
    requires Placed(Mapped(data)) && (Accepted(data) ==> Mapped(data) != [])
    requires Start.Strings(argv) && Start.Strings(envp) && |random| == 16 && Start.Total(argv, envp) < 0x1_0000_0000
    modifies task, task.mmu`ram, task.mmu`tree, task.mmu`cr3, task.mmu.pmm, task.mmu.pmm.bitmap
    ensures ok ==> Active(task.mmu, task.cr3)
    ensures ok ==> r == if !Accepted(data) then -ENOENT
                        else if Start.Round16(Start.Total(argv, envp)) > STACK_TOP - STACK_BASE then -E2BIG else 0
    ensures (ok <==> |old(task.mmu.pmm.free)| >= ExecPrice(task.mmu, old(task.mmu.tree), old(task.cr3), PlanOf(data, Mapped(data)), Accepted(data)))
    ensures !ok ==> task.mmu.pmm.free == {}
    ensures ok && r == -ENOENT ==> task.brkStart == old(task.brkStart) && task.brkCur == old(task.brkCur) && task.mmapNext == old(task.mmapNext)
    ensures ok && r == -E2BIG ==> task.brkStart == task.brkCur == Break(Mapped(data)) && task.mmapNext == MMAP_BASE
    ensures ok && r < 0 ==>
      && task.cr3 == old(task.cr3) && task.mmu.pmm.free == old(task.mmu.pmm.free)
      && Step(old(Now(task.mmu)), Now(task.mmu), {}, task.mmu.fixed)
    ensures ok && r == 0 ==>
      && Accepted(data) && task.Valid()
      && ImageThere(task.mmu.ram, task.mmu.tree, task.cr3, data, Elf.Segs(data, Elf.PhNum(data)))
      && Grants(task.mmu.ram, task.cr3, STACK_BASE / PAGE_SIZE, STACK_TOP / PAGE_SIZE, true, false)
      && Started(task.mmu.ram, task.mmu.tree, task.cr3, Params(argv, envp, random, LoadedFrom(data)))
      && task.brkStart == task.brkCur == Elf.Highest(Elf.Segs(data, Elf.PhNum(data))) && task.mmapNext == MMAP_BASE
      && Vacant(task.mmu.tree, Space(old(task.cr3)))
      && task.mmu.pmm.released == old(task.mmu.pmm.released) + multiset(FramesOf(old(task.mmu.tree), Space(old(task.cr3))))
  {
    hide Inv, Granting, Mmu.Valid, TreeWalk, Step, Staged, Plan, InWindow, BlockOf, IsBlock, ImageThere, Started, Vacant, Placed, Bytes.Pow256, LoadedFrom,
      FramesOf, ExecPrice;
    var segs := Mapped(data);
    var q := Params(argv, envp, random, LoadedFrom(data));
    PlanFits(data, segs);
    LoadedFits(data);
    var found := Elf.HeaderOk(data) && segs == Elf.Segs(data, Elf.PhNum(data));
    var fits := q.Fits();
    var b: seq<byte>, block: seq<Entry> := [], [];
    if fits {
      b := Scratch(q);
      BlockSize(q, b);
      block := BlockOf(b);
    }
    ok, r := Execve(task, PlanOf(data, segs), found, Break(segs), fits, block);
    if ok && r == 0 {
      ActiveGood(task.mmu, task.cr3);
      StagedIsReady(task.mmu.ram, task.mmu.tree, task.cr3, data, segs, q, b);
    }
  }

  lemma BlockSize(q: Params, b: seq<byte>)
    requires q.Fits() && IsBlock(b, q)
    ensures |BlockOf(b)| <= (STACK_HI - STACK_LO) * 512
  {
  }

  lemma StagedIsReady(ram: Ram, t: Tree, s: nat, data: seq<byte>, segs: seq<Elf.Seg>, q: Params, b: seq<byte>)
    requires Good(ram, t) && Root(Space(s)) in t.at && Elf.AllInFile(data, segs) && Plan(PlanOf(data, segs)) && q.Good() && q.Fits() && IsBlock(b, q)
    requires Staged(ram, t, s, PlanOf(data, segs), BlockOf(b))
    ensures ImageThere(ram, t, s, data, segs) && Started(ram, t, s, q)
  {
    hide Inv, Granting, UserWord, BlockOf, IsBlock, ImageThere, Started, Plan, FirstLoaded;
    ImageIsThere(ram, t, s, data, segs);
    BlockStarts(ram, t, s, q, b);
  }
}
