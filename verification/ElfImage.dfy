/** Loading an ELF64 executable: header checks, segments page by page, and the image that results. */
module ElfImage {
  import opened Options
  import opened Machine
  import opened Bytes
  import opened Numerals

  const EHDR_SIZE: nat := 64
  const PHDR_SIZE: nat := 56
  const PT_LOAD: nat := 1

  /** A mapped user page: its bytes and its permissions. */
  datatype UserPage = UserPage(bytes: seq<byte>, writable: bool, nx: bool)

  type Pages = map<nat, UserPage>

  /** A loadable segment. */
  datatype Seg = Seg(writable: bool, exec: bool, offset: nat, vaddr: nat, filesz: nat, memsz: nat)


  function FirstPage(s: Seg): nat { s.vaddr / PAGE_SIZE }
  function EndPage(s: Seg): nat { PageUp(s.vaddr + s.memsz) / PAGE_SIZE }

  /** Neither end of the segment wraps around. */
  predicate NoWrap(s: Seg) { s.vaddr + s.memsz + PAGE_SIZE <= TWO64 }

  /** The bounds checks of load_segment. */
  predicate InFile(file: seq<byte>, s: Seg) {
    s.filesz <= s.memsz && s.offset <= |file| && s.filesz <= |file| - s.offset
  }

  /** The byte the image must hold at address a: the file's, or zero behind it and in page slack. */
  function ImageByte(file: seq<byte>, s: Seg, a: nat): byte
    requires InFile(file, s)
  {
    if s.vaddr <= a < s.vaddr + s.filesz then file[s.offset + (a - s.vaddr)] else 0
  }

  /** Page n is as the segment wants it. */
  ghost predicate PageLoaded(file: seq<byte>, s: Seg, n: nat, p: UserPage)
    requires InFile(file, s)
  {
    && |p.bytes| == PAGE_SIZE && p.writable == s.writable && p.nx == !s.exec
    && forall i {:trigger p.bytes[i]} | 0 <= i < PAGE_SIZE :: p.bytes[i] == ImageByte(file, s, n * PAGE_SIZE + i)
  }

  predicate Covers(s: Seg, n: nat) { FirstPage(s) <= n < EndPage(s) }

  /** The pages of the segment below page k are loaded, the others untouched. */
  ghost predicate LoadedUpTo(file: seq<byte>, s: Seg, before: Pages, after: Pages, k: nat)
    requires InFile(file, s)
  {
    && (forall n {:trigger n in after} {:trigger n in before} :: n in after <==> n in before || FirstPage(s) <= n < k)
    && (forall n {:trigger after[n]} | n in after ::
          if FirstPage(s) <= n < k then PageLoaded(file, s, n, after[n]) else after[n] == before[n])
  }

  /** One page: zeroed, then the part of the file that falls into it. */
  method FillPage(file: seq<byte>, s: Seg, va: nat) returns (bytes: array<byte>)
    requires InFile(file, s) && va % PAGE_SIZE == 0
    ensures fresh(bytes) && bytes.Length == PAGE_SIZE
    ensures forall i {:trigger bytes[i]} | 0 <= i < PAGE_SIZE :: bytes[i] == ImageByte(file, s, va + i)
  {
    bytes := new byte[PAGE_SIZE](_ => 0);
    var fileEnd, pageEnd := s.vaddr + s.filesz, va + PAGE_SIZE;
    var copyStart := if s.vaddr > va then s.vaddr else va;
    var copyEnd := if fileEnd < pageEnd then fileEnd else pageEnd;
    if copyEnd > copyStart {
      var off := s.offset + (copyStart - s.vaddr);
      var i := 0;
      while i < copyEnd - copyStart
        invariant 0 <= i <= copyEnd - copyStart
        invariant forall j {:trigger bytes[j]} | 0 <= j < PAGE_SIZE ::
          bytes[j] == if copyStart <= va + j < copyStart + i then file[s.offset + (va + j - s.vaddr)] else 0
      {
        bytes[copyStart - va + i] := file[off + i];
        i := i + 1;
      }
    }
  }

  /** load_segment: false exactly when the segment leaves the file; otherwise every page of it holds
      what the file says, with the permissions of its flags, and no other page changes. */
  method LoadSegment(file: seq<byte>, s: Seg, pages: Pages) returns (ok: bool, pages': Pages)
    requires NoWrap(s)
    ensures ok <==> InFile(file, s)
    ensures !ok ==> pages' == pages
    ensures ok ==> LoadedUpTo(file, s, pages, pages', EndPage(s))
  {
    hide ImageByte;
    pages' := pages;
    if s.filesz > s.memsz { return false, pages; }
    if s.offset > |file| || s.filesz > |file| - s.offset { return false, pages; }
    var va, vaEnd := PageDown(s.vaddr), PageUp(s.vaddr + s.memsz);
    Ends(s);
    while va < vaEnd
      invariant va % PAGE_SIZE == 0 && FirstPage(s) <= va / PAGE_SIZE <= EndPage(s)
      invariant LoadedUpTo(file, s, pages, pages', va / PAGE_SIZE)
      decreases vaEnd - va
    {
      var bytes := FillPage(file, s, va);
      ghost var before := pages';
      ghost var p := UserPage(bytes[..], s.writable, !s.exec);
      NextPage(file, s, pages, before, va / PAGE_SIZE, p);
      pages' := pages'[va / PAGE_SIZE := UserPage(bytes[..], s.writable, !s.exec)];
      va := va + PAGE_SIZE;
    }
    ok := true;
  }

  lemma Ends(s: Seg)
    ensures PageDown(s.vaddr) % PAGE_SIZE == 0 && PageDown(s.vaddr) / PAGE_SIZE == FirstPage(s) <= EndPage(s)
    ensures PageUp(s.vaddr + s.memsz) % PAGE_SIZE == 0 && PageUp(s.vaddr + s.memsz) == EndPage(s) * PAGE_SIZE
  {
  }

  lemma NextPage(file: seq<byte>, s: Seg, pages: Pages, before: Pages, n: nat, p: UserPage)
    requires InFile(file, s) && FirstPage(s) <= n && LoadedUpTo(file, s, pages, before, n) && PageLoaded(file, s, n, p)
    ensures LoadedUpTo(file, s, pages, before[n := p], n + 1)
  {
    hide PageLoaded;
  }

  // ---- headers ----

  function Number(data: seq<byte>, at: nat, n: nat): nat
    requires at + n <= |data|
  {
    UnLe(data[at..at + n])
  }

  function Entry(data: seq<byte>): nat requires |data| >= EHDR_SIZE { Number(data, 24, 8) }
  function PhOff(data: seq<byte>): nat requires |data| >= EHDR_SIZE { Number(data, 32, 8) }
  function PhEntSize(data: seq<byte>): nat requires |data| >= EHDR_SIZE { Number(data, 54, 2) }
  function PhNum(data: seq<byte>): nat requires |data| >= EHDR_SIZE { Number(data, 56, 2) }

  /** A 64-bit little-endian executable for x86-64 whose program headers lie inside the file. */
  predicate HeaderOk(data: seq<byte>) {
    && |data| >= EHDR_SIZE
    && data[0] == 0x7F && data[1] == 69 && data[2] == 76 && data[3] == 70
    && data[4] == 2 && data[5] == 1
    && Number(data, 16, 2) == 2 && Number(data, 18, 2) == 62
    && PhOff(data) != 0 && PhNum(data) != 0
    && PhEntSize(data) >= PHDR_SIZE && PhOff(data) <= |data| && Times(PhNum(data), PhEntSize(data)) <= |data| - PhOff(data)
  }

  /** Byte by byte: the magic number, class 2, data encoding 1, type 2 and machine 62, and a table of program
      headers that is not empty, whose entries are large enough, and that lies inside the file. */
  lemma HeaderExact(data: seq<byte>)
    ensures HeaderOk(data) <==>
      && |data| >= 64 && data[..6] == [127, 69, 76, 70, 2, 1] && data[16..20] == [2, 0, 62, 0]
      && UnLe(data[32..40]) > 0 && UnLe(data[56..58]) > 0 && UnLe(data[54..56]) >= 56
      && UnLe(data[32..40]) + Times(UnLe(data[56..58]), UnLe(data[54..56])) <= |data|
  {
    hide Times, UnLe, PhOff, PhNum, PhEntSize;
    if |data| >= 64 {
      FieldsAre(data);
      Magic(data[..6], data[16..20]);
      TwoBytes(data[16..18], 2);
      TwoBytes(data[18..20], 62);
    }
  }

  lemma FieldsAre(data: seq<byte>)
    requires |data| >= 64
    ensures PhOff(data) == UnLe(data[32..40]) && PhNum(data) == UnLe(data[56..58]) && PhEntSize(data) == UnLe(data[54..56])
    ensures Number(data, 16, 2) == UnLe(data[16..18]) && Number(data, 18, 2) == UnLe(data[18..20])
    ensures data[16..20] == data[16..18] + data[18..20] && |data[16..18]| == |data[18..20]| == 2
  {
  }

  lemma Magic(a: seq<byte>, b: seq<byte>)
    requires |a| == 6 && |b| == 4
    ensures a == [127, 69, 76, 70, 2, 1] <==> a[0] == 127 && a[1] == 69 && a[2] == 76 && a[3] == 70 && a[4] == 2 && a[5] == 1
    ensures b == [2, 0, 62, 0] <==> b[..2] == [2, 0] && b[2..] == [62, 0]
  {
    assert b == b[..2] + b[2..];
  }

  /** Two bytes are the number x below 256 exactly if they are x and 0. */
  lemma TwoBytes(s: seq<byte>, x: byte)
    requires |s| == 2
    ensures UnLe(s) == x <==> s == [x, 0]
  {
    var r := s[1..];
    assert r[1..] == [] && UnLe(r) == r[0] + 256 * UnLe(r[1..]);
    assert UnLe(s) == s[0] + 256 * UnLe(r);
  }

  /** Where program header i is. */
  function HeaderPos(data: seq<byte>, i: nat): nat
    requires |data| >= EHDR_SIZE
  {
    PhOff(data) + Times(i, PhEntSize(data))
  }

  lemma HeaderInside(data: seq<byte>, i: nat)
    requires HeaderOk(data) && i < PhNum(data)
    ensures HeaderPos(data, i) + PHDR_SIZE <= |data|
  {
    hide Times;
    TimesStep(i, PhEntSize(data));
    TimesGrows(i + 1, PhNum(data), PhEntSize(data));
  }

  function IsLoad(data: seq<byte>, at: nat): bool
    requires at + PHDR_SIZE <= |data|
  {
    Number(data, at, 4) == PT_LOAD
  }

  /** The segment a program header describes. */
  function SegAt(data: seq<byte>, at: nat): Seg
    requires at + PHDR_SIZE <= |data|
  {
    var flags := Number(data, at + 4, 4);
    Seg(flags / 2 % 2 == 1, flags % 2 == 1, Number(data, at + 8, 8), Number(data, at + 16, 8), Number(data, at + 32, 8), Number(data, at + 40, 8))
  }

  /** The loadable segments among the first n program headers. */
  function Segs(data: seq<byte>, n: nat): seq<Seg>
    requires HeaderOk(data) && n <= PhNum(data)
  {
    if n == 0 then [] else
    HeaderInside(data, n - 1);
    var at := HeaderPos(data, n - 1);
    if IsLoad(data, at) then Segs(data, n - 1) + [SegAt(data, at)] else Segs(data, n - 1)
  }

  // ---- the image ----

  /** The last of the first k segments that covers page n, or -1. */
  function LastCover(segs: seq<Seg>, n: nat, k: nat): (i: int)
    requires k <= |segs|
    ensures -1 <= i < k && (i >= 0 ==> Covers(segs[i], n)) && forall j | i < j < k :: !Covers(segs[j], n)
  {
    if k == 0 then -1 else if Covers(segs[k - 1], n) then k - 1 else LastCover(segs, n, k - 1)
  }

  ghost predicate AllInFile(file: seq<byte>, segs: seq<Seg>) { forall i {:trigger segs[i]} | 0 <= i < |segs| :: InFile(file, segs[i]) }

  /** Every page is as the last segment that covers it wants it; the others are untouched. */
  ghost predicate ImageOf(file: seq<byte>, segs: seq<Seg>, before: Pages, after: Pages)
    requires AllInFile(file, segs)
  {
    && (forall n: nat {:trigger n in after} {:trigger n in before} :: n in after <==> n in before || LastCover(segs, n, |segs|) >= 0)
    && (forall n: nat {:trigger after[n]} | n in after ::
          var i := LastCover(segs, n, |segs|);
          if i >= 0 then PageLoaded(file, segs[i], n, after[n]) else after[n] == before[n])
  }

  function Highest(segs: seq<Seg>): nat {
    if segs == [] then 0
    else
      var n := |segs| - 1;
      var h, e := Highest(segs[..n]), PageUp(segs[n].vaddr + segs[n].memsz);
      if e > h then e else h
  }

  /** It is the highest page-rounded end. */
  lemma {:induction false} HighestIsMax(segs: seq<Seg>)
    ensures forall i {:trigger segs[i]} | 0 <= i < |segs| :: PageUp(segs[i].vaddr + segs[i].memsz) <= Highest(segs)
    ensures segs != [] ==> Highest(segs) == 0 || exists i {:trigger segs[i]} :: 0 <= i < |segs| && Highest(segs) == PageUp(segs[i].vaddr + segs[i].memsz)
  {
    hide PageUp;
    if segs != [] {
      var n := |segs| - 1;
      HighestIsMax(segs[..n]);
      assert forall i {:trigger segs[i]} | 0 <= i < n :: segs[..n][i] == segs[i];
      assert segs[n] == segs[n];
    }
  }

  /** Where the program headers were loaded, by the last segment whose file part holds them. */
  function PhdrAddress(segs: seq<Seg>, phoff: nat): nat {
    if segs == [] then 0
    else
      var s := segs[|segs| - 1];
      if phoff >= s.offset && phoff - s.offset < s.filesz then s.vaddr + (phoff - s.offset) else PhdrAddress(segs[..|segs| - 1], phoff)
  }

  /** Segment s brings byte `at` of the file into memory. */
  predicate Brings(s: Seg, at: nat) { s.offset <= at < s.offset + s.filesz }

  /** Address a is where the last segment that brings byte `at` of the file has put it; 0 without one. */
  ghost predicate HeadersAt(segs: seq<Seg>, at: nat, a: nat) {
    if exists i {:trigger segs[i]} :: 0 <= i < |segs| && Brings(segs[i], at) then
      exists i {:trigger segs[i]} :: 0 <= i < |segs| && Brings(segs[i], at) && a == segs[i].vaddr + (at - segs[i].offset)
        && forall j {:trigger segs[j]} | i < j < |segs| :: !Brings(segs[j], at)
    else a == 0
  }

  lemma {:induction false} PhdrAddressIs(segs: seq<Seg>, phoff: nat)
    ensures HeadersAt(segs, phoff, PhdrAddress(segs, phoff))
  {
    if segs != [] {
      var n := |segs| - 1;
      if Brings(segs[n], phoff) {
        assert segs[n] == segs[n];
      } else {
        PhdrAddressIs(segs[..n], phoff);
        HeadersMore(segs[..n], segs[n], phoff, PhdrAddress(segs[..n], phoff));
        assert segs == segs[..n] + [segs[n]];
      }
    }
  }

  lemma HeadersMore(segs: seq<Seg>, s: Seg, at: nat, a: nat)
    requires HeadersAt(segs, at, a) && !Brings(s, at)
    ensures HeadersAt(segs + [s], at, a)
  {
    var all := segs + [s];
    hide Brings;
    if i :| 0 <= i < |all| && Brings(all[i], at) {
      assert segs[i] == all[i];
      var k :| 0 <= k < |segs| && Brings(segs[k], at) && a == segs[k].vaddr + (at - segs[k].offset)
        && forall j {:trigger segs[j]} | k < j < |segs| :: !Brings(segs[j], at);
      assert all[k] == segs[k];
    } else {
      forall i | 0 <= i < |segs| ensures !Brings(segs[i], at) { assert all[i] == segs[i]; }
    }
  }

  /** There the image has the bytes of the file from `at` on, as far as the segment brings them. */
  lemma HeadersThere(file: seq<byte>, s: Seg, at: nat, k: nat)
    requires InFile(file, s) && Brings(s, at) && Brings(s, at + k)
    ensures at + k < |file| && ImageByte(file, s, s.vaddr + (at - s.offset) + k) == file[at + k]
  {
  }

  datatype Result = Result(entry: nat, phdr: nat, phnum: nat, phentsize: nat, highest: nat)

  lemma {:induction false} CoverPrefix(segs: seq<Seg>, more: seq<Seg>, n: nat, k: nat)
    requires k <= |segs|
    ensures LastCover(segs + more, n, k) == LastCover(segs, n, k)
  {
    if k > 0 { CoverPrefix(segs, more, n, k - 1); }
  }

  /** One segment more. */
  lemma ImageMore(file: seq<byte>, segs: seq<Seg>, s: Seg, p0: Pages, p1: Pages, p2: Pages)
    requires AllInFile(file, segs) && InFile(file, s) && ImageOf(file, segs, p0, p1) && LoadedUpTo(file, s, p1, p2, EndPage(s))
    ensures AllInFile(file, segs + [s]) && ImageOf(file, segs + [s], p0, p2)
  {
    hide PageLoaded, InFile, Covers;
    var all := segs + [s];
    forall n: nat ensures LastCover(all, n, |all|) == if Covers(s, n) then |segs| else LastCover(segs, n, |segs|) {
      CoverPrefix(segs, [s], n, |segs|);
    }
    CoversIs(s);
    forall n: nat | n in p2
      ensures var i := LastCover(all, n, |all|);
        if i >= 0 then PageLoaded(file, all[i], n, p2[n]) else p2[n] == p0[n]
    {
      var j := LastCover(segs, n, |segs|);
      assert j >= 0 ==> all[j] == segs[j];
    }
  }

  lemma CoversIs(s: Seg)
    ensures forall n: nat :: Covers(s, n) <==> FirstPage(s) <= n < EndPage(s)
  {
  }

  /** When no two segments share a page, each segment's pages hold that segment: every byte of
      [p_vaddr, p_vaddr + p_memsz) is the file's below p_filesz and zero above, the slack around it is
      zero, and the permissions follow its flags. */
  lemma DisjointImage(file: seq<byte>, segs: seq<Seg>, before: Pages, after: Pages, i: nat, n: nat)
    requires AllInFile(file, segs) && ImageOf(file, segs, before, after) && i < |segs| && Covers(segs[i], n)
    requires forall j {:trigger segs[j]} | 0 <= j < |segs| && j != i :: !Covers(segs[j], n)
    ensures n in after && PageLoaded(file, segs[i], n, after[n])
  {
    hide PageLoaded;
    assert LastCover(segs, n, |segs|) == i;
  }

  /** What has been accumulated after the first n headers. */
  ghost predicate Progress(data: seq<byte>, n: nat, before: Pages, after: Pages, phdr: nat, highest: nat)
    requires HeaderOk(data) && n <= PhNum(data)
  {
    var segs := Segs(data, n);
    AllInFile(data, segs) && ImageOf(data, segs, before, after) && phdr == PhdrAddress(segs, PhOff(data)) && highest == Highest(segs)
  }

  lemma ProgressMore(data: seq<byte>, i: nat, s: Seg, p0: Pages, p1: Pages, p2: Pages, phdr: nat, highest: nat, phdr': nat, highest': nat)
    requires HeaderOk(data) && i < PhNum(data) && Progress(data, i, p0, p1, phdr, highest)
    requires Segs(data, i + 1) == Segs(data, i) + [s] && InFile(data, s) && LoadedUpTo(data, s, p1, p2, EndPage(s))
    requires phdr' == if PhOff(data) >= s.offset && PhOff(data) - s.offset < s.filesz then s.vaddr + (PhOff(data) - s.offset) else phdr
    requires highest' == if PageUp(s.vaddr + s.memsz) > highest then PageUp(s.vaddr + s.memsz) else highest
    ensures Progress(data, i + 1, p0, p2, phdr', highest')
  {
    hide ImageOf, LoadedUpTo, InFile, PhdrAddress, Highest, PageUp, Number, Times;
    ImageMore(data, Segs(data, i), s, p0, p1, p2);
    ResultMore(Segs(data, i), s, PhOff(data));
  }

  /** parse_and_load: false exactly when the header is not acceptable or some loadable segment leaves
      the file; otherwise the image is that of all loadable segments. */
  method ParseAndLoad(data: seq<byte>, pages: Pages) returns (ok: bool, pages': Pages, r: Result)
    requires HeaderOk(data) ==> forall s {:trigger NoWrap(s)} | s in Segs(data, PhNum(data)) :: NoWrap(s)
    ensures ok <==> HeaderOk(data) && AllInFile(data, Segs(data, PhNum(data)))
    ensures ok ==>
      var segs := Segs(data, PhNum(data));
      && ImageOf(data, segs, pages, pages')
      && r == Result(Entry(data), PhdrAddress(segs, PhOff(data)), PhNum(data), PhEntSize(data), Highest(segs))
    ensures forall f: Program {:trigger f.Bytes()} | f.Good() && f.Bytes() == data ::
      && (ok <==> AllInFile(data, f.Segments()))
      && (ok ==>
            && ImageOf(data, f.Segments(), pages, pages') && r.highest == Highest(f.Segments())
            && r.entry == f.entry && r.phnum == |f.headers| && r.phentsize == f.phentsize
            && HeadersAt(f.Segments(), f.PhOffset(), r.phdr))
  {
    ok, pages', r := LoadAll(data, pages);
    forall f: Program {:trigger f.Bytes()} | f.Good() && f.Bytes() == data
      ensures HeaderOk(data) && Segs(data, PhNum(data)) == f.Segments() && PhNum(data) == |f.headers|
      ensures Entry(data) == f.entry && PhOff(data) == f.PhOffset() && PhEntSize(data) == f.phentsize
      ensures HeadersAt(f.Segments(), f.PhOffset(), PhdrAddress(f.Segments(), f.PhOffset()))
    {
      ProgramReads(f);
      PhdrAddressIs(f.Segments(), f.PhOffset());
    }
  }

  /** The loop over the program headers. */
  method LoadAll(data: seq<byte>, pages: Pages) returns (ok: bool, pages': Pages, r: Result)
    requires HeaderOk(data) ==> forall s {:trigger NoWrap(s)} | s in Segs(data, PhNum(data)) :: NoWrap(s)
    ensures ok <==> HeaderOk(data) && AllInFile(data, Segs(data, PhNum(data)))
    ensures ok ==>
      var segs := Segs(data, PhNum(data));
      && ImageOf(data, segs, pages, pages')
      && r == Result(Entry(data), PhdrAddress(segs, PhOff(data)), PhNum(data), PhEntSize(data), Highest(segs))
  {
    hide ImageOf, LoadedUpTo, IsLoad, SegAt, Number, Times, InFile, LastCover, Highest, PhdrAddress, NoWrap, PageUp, AllInFile;
    r := Result(0, 0, 0, 0, 0);
    if !HeaderOk(data) { return false, pages, r; }
    pages' := pages;
    var phdr: nat, highest: nat := 0, 0;
    var i: nat := 0;
    EmptyImage(data, pages);
    while i < PhNum(data)
      invariant 0 <= i <= PhNum(data) && Progress(data, i, pages, pages', phdr, highest)
    {
      SegsPrefix(data, i);
      var at := HeaderPos(data, i);
      if IsLoad(data, at) {
        var s := SegAt(data, at);
        ghost var p1, phdr1, highest1 := pages', phdr, highest;
        ok, pages' := LoadSegment(data, s, pages');
        if !ok { return; }
        if PhOff(data) >= s.offset && PhOff(data) - s.offset < s.filesz {
          phdr := s.vaddr + (PhOff(data) - s.offset);
        }
        var segEnd := PageUp(s.vaddr + s.memsz);
        if segEnd > highest { highest := segEnd; }
        ProgressMore(data, i, s, pages, p1, pages', phdr1, highest1, phdr, highest);
      }
      i := i + 1;
    }
    r := Result(Entry(data), phdr, PhNum(data), PhEntSize(data), highest);
    ok := true;
  }

  lemma EmptyImage(data: seq<byte>, pages: Pages)
    requires HeaderOk(data)
    ensures |data| >= EHDR_SIZE && Segs(data, 0) == [] && AllInFile(data, []) && ImageOf(data, [], pages, pages)
    ensures PhdrAddress([], PhOff(data)) == 0 && Highest([]) == 0
  {
  }

  lemma ResultMore(segs: seq<Seg>, s: Seg, phoff: nat)
    ensures PhdrAddress(segs + [s], phoff) ==
      if phoff >= s.offset && phoff - s.offset < s.filesz then s.vaddr + (phoff - s.offset) else PhdrAddress(segs, phoff)
    ensures var h, e := Highest(segs), PageUp(s.vaddr + s.memsz);
      Highest(segs + [s]) == if e > h then e else h
  {
    assert (segs + [s])[..|segs|] == segs;
  }

  /** The segments of the first headers are the first segments of all. */
  lemma {:induction false} SegsGrow(data: seq<byte>, i: nat, n: nat)
    requires HeaderOk(data) && i <= n <= PhNum(data)
    ensures |Segs(data, i)| <= |Segs(data, n)| && Segs(data, n)[..|Segs(data, i)|] == Segs(data, i)
    decreases n
  {
    if i < n {
      SegsGrow(data, i, n - 1);
      HeaderInside(data, n - 1);
    }
  }

  /** The segment of header i, if it is loadable, is one of all segments. */
  lemma SegsPrefix(data: seq<byte>, i: nat)
    requires HeaderOk(data) && i < PhNum(data)
    ensures HeaderPos(data, i) + PHDR_SIZE <= |data|
    ensures var at := HeaderPos(data, i);
      && Segs(data, i + 1) == (if IsLoad(data, at) then Segs(data, i) + [SegAt(data, at)] else Segs(data, i))
      && (IsLoad(data, at) ==> SegAt(data, at) in Segs(data, PhNum(data)))
      && (IsLoad(data, at) && !InFile(data, SegAt(data, at)) ==> !AllInFile(data, Segs(data, PhNum(data))))
  {
    HeaderInside(data, i);
    var at, all := HeaderPos(data, i), Segs(data, PhNum(data));
    hide HeaderOk, InFile, IsLoad, SegAt;
    if IsLoad(data, at) {
      SegsGrow(data, i + 1, PhNum(data));
      var k := |Segs(data, i)|;
      assert all[k] == all[..k + 1][k] == SegAt(data, at);
    }
  }

  // ---- written headers ----

  /** The fields of a program header, and what the loader does not look at. */
  datatype Phdr = Phdr(kind: nat, flags: nat, offset: nat, vaddr: nat, paddr: nat, filesz: nat, memsz: nat, align: nat)

  ghost predicate GoodPhdr(h: Phdr) {
    && h.kind < Pow256(4) && h.flags < Pow256(4) && h.offset < Pow256(8) && h.vaddr < Pow256(8)
    && h.filesz < Pow256(8) && h.memsz < Pow256(8)
  }

  /** A program header in the order of the System V gABI. */
  function PhdrBytes(h: Phdr): (b: seq<byte>)
    ensures |b| == PHDR_SIZE
  {
    Le(h.kind, 4) + Le(h.flags, 4) + Le(h.offset, 8) + Le(h.vaddr, 8) + Le(h.paddr, 8) + Le(h.filesz, 8) + Le(h.memsz, 8) + Le(h.align, 8)
  }

  /** A field that stands at `at` reads back. */
  lemma FieldReads(b: seq<byte>, at: nat, x: nat, n: nat)
    requires at + n <= |b| && x < Pow256(n) && b[at..at + n] == Le(x, n)
    ensures Number(b, at, n) == x
  {
    LeRoundTrip(x, n);
  }

  lemma PhdrSlices(h: Phdr)
    ensures var b := PhdrBytes(h);
      && b[0..4] == Le(h.kind, 4) && b[4..8] == Le(h.flags, 4) && b[8..16] == Le(h.offset, 8) && b[16..24] == Le(h.vaddr, 8)
      && b[32..40] == Le(h.filesz, 8) && b[40..48] == Le(h.memsz, 8)
  {
    hide Le;
  }

  /** The loader reads a written program header as that segment: writable by bit 1 and executable by bit
      0 of its flags. */
  lemma PhdrReads(pre: seq<byte>, h: Phdr, post: seq<byte>)
    requires GoodPhdr(h)
    ensures var data := pre + PhdrBytes(h) + post;
      && (IsLoad(data, |pre|) <==> h.kind == PT_LOAD)
      && SegAt(data, |pre|) == Seg(h.flags / 2 % 2 == 1, h.flags % 2 == 1, h.offset, h.vaddr, h.filesz, h.memsz)
  {
    hide Le, PhdrBytes, Pow256, Number;
    var data, at, b := pre + PhdrBytes(h) + post, |pre|, PhdrBytes(h);
    PhdrSlices(h);
    assert data[at..at + PHDR_SIZE] == b;
    forall i, j | 0 <= i <= j <= PHDR_SIZE ensures data[at + i..at + j] == b[i..j] {
      assert data[at + i..at + j] == data[at..at + PHDR_SIZE][i..j];
    }
    assert data[at + 0..at + 4] == b[0..4];
    FieldReads(data, at, h.kind, 4);
    FieldReads(data, at + 4, h.flags, 4);
    FieldReads(data, at + 8, h.offset, 8);
    FieldReads(data, at + 16, h.vaddr, 8);
    FieldReads(data, at + 32, h.filesz, 8);
    FieldReads(data, at + 40, h.memsz, 8);
  }

  /** A file header in the order of the System V gABI, up to e_entry and from e_phoff on; `rest` are the
      fields after e_phnum. */
  function EhdrFront(entry: nat): (b: seq<byte>)
    ensures |b| == 32
  {
    [0x7F, 69, 76, 70, 2, 1, 1, 0, 0, 0, 0, 0, 0, 0, 0, 0] + Le(2, 2) + Le(62, 2) + Le(1, 4) + Le(entry, 8)
  }

  function EhdrBack(phoff: nat, shoff: nat, flags: nat, phentsize: nat, phnum: nat, rest: seq<byte>): (b: seq<byte>)
    requires |rest| == 6
    ensures |b| == 32
  {
    Le(phoff, 8) + Le(shoff, 8) + Le(flags, 4) + Le(64, 2) + Le(phentsize, 2) + Le(phnum, 2) + rest
  }

  function EhdrBytes(entry: nat, phoff: nat, shoff: nat, flags: nat, phentsize: nat, phnum: nat, rest: seq<byte>): (b: seq<byte>)
    requires |rest| == 6
    ensures |b| == EHDR_SIZE
  {
    EhdrFront(entry) + EhdrBack(phoff, shoff, flags, phentsize, phnum, rest)
  }

  lemma FrontSlices(entry: nat)
    ensures var b := EhdrFront(entry);
      && b[0] == 0x7F && b[1] == 69 && b[2] == 76 && b[3] == 70 && b[4] == 2 && b[5] == 1
      && b[16..18] == Le(2, 2) && b[18..20] == Le(62, 2) && b[24..32] == Le(entry, 8)
  {
    hide Le;
  }

  lemma BackSlices(phoff: nat, shoff: nat, flags: nat, phentsize: nat, phnum: nat, rest: seq<byte>)
    requires |rest| == 6
    ensures var b := EhdrBack(phoff, shoff, flags, phentsize, phnum, rest);
      b[0..8] == Le(phoff, 8) && b[22..24] == Le(phentsize, 2) && b[24..26] == Le(phnum, 2)
  {
    hide Le;
  }

  lemma EhdrSlices(entry: nat, phoff: nat, shoff: nat, flags: nat, phentsize: nat, phnum: nat, rest: seq<byte>)
    requires |rest| == 6
    ensures var b := EhdrBytes(entry, phoff, shoff, flags, phentsize, phnum, rest);
      && b[0] == 0x7F && b[1] == 69 && b[2] == 76 && b[3] == 70 && b[4] == 2 && b[5] == 1
      && b[16..18] == Le(2, 2) && b[18..20] == Le(62, 2) && b[24..32] == Le(entry, 8) && b[32..40] == Le(phoff, 8)
      && b[54..56] == Le(phentsize, 2) && b[56..58] == Le(phnum, 2)
  {
    hide Le, EhdrFront, EhdrBack;
    var f, g := EhdrFront(entry), EhdrBack(phoff, shoff, flags, phentsize, phnum, rest);
    FrontSlices(entry);
    BackSlices(phoff, shoff, flags, phentsize, phnum, rest);
    var b := f + g;
    assert b[16..18] == f[16..18] && b[18..20] == f[18..20] && b[24..32] == f[24..32];
    assert b[32..40] == g[0..8] && b[54..56] == g[22..24] && b[56..58] == g[24..26];
  }

  /** The loader accepts a written file header exactly when the program headers it announces lie inside
      the file and are not empty, and reads its fields back. */
  lemma EhdrReads(entry: nat, phoff: nat, shoff: nat, flags: nat, phentsize: nat, phnum: nat, rest: seq<byte>, post: seq<byte>)
    requires |rest| == 6 && entry < Pow256(8) && phoff < Pow256(8) && phentsize < Pow256(2) && phnum < Pow256(2)
    ensures var data := EhdrBytes(entry, phoff, shoff, flags, phentsize, phnum, rest) + post;
      && Entry(data) == entry && PhOff(data) == phoff && PhEntSize(data) == phentsize && PhNum(data) == phnum
      && (HeaderOk(data) <==> phoff != 0 && phnum != 0 && phentsize >= PHDR_SIZE && phoff <= |data| && Times(phnum, phentsize) <= |data| - phoff)
  {
    Small();
    hide Le, EhdrBytes, Pow256, Number, Times;
    var b := EhdrBytes(entry, phoff, shoff, flags, phentsize, phnum, rest);
    var data := b + post;
    EhdrSlices(entry, phoff, shoff, flags, phentsize, phnum, rest);
    forall i, j | 0 <= i <= j <= EHDR_SIZE ensures data[i..j] == b[i..j] {}
    FieldReads(data, 16, 2, 2);
    FieldReads(data, 18, 62, 2);
    FieldReads(data, 24, entry, 8);
    FieldReads(data, 32, phoff, 8);
    FieldReads(data, 54, phentsize, 2);
    FieldReads(data, 56, phnum, 2);
  }

  lemma Small()
    ensures 62 < Pow256(2)
  {
    assert Pow256(2) == 256 * Pow256(1) && Pow256(1) == 256 * Pow256(0);
  }

  // ---- written files ----

  /** A program header as it stands in a file, with the bytes up to the next one. */
  datatype Slot = Slot(phdr: Phdr, pad: seq<byte>)

  function TableBytes(hs: seq<Slot>): seq<byte> {
    if hs == [] then [] else TableBytes(hs[..|hs| - 1]) + (PhdrBytes(hs[|hs| - 1].phdr) + hs[|hs| - 1].pad)
  }

  /** The segments of the headers of type 1, in their order; bit 1 of the flags means writable, bit 0
      executable. */
  function Described(hs: seq<Slot>): seq<Seg> {
    if hs == [] then [] else
    var h := hs[|hs| - 1].phdr;
    Described(hs[..|hs| - 1]) +
      (if h.kind == 1 then [Seg(h.flags / 2 % 2 == 1, h.flags % 2 == 1, h.offset, h.vaddr, h.filesz, h.memsz)] else [])
  }

  /** An executable: the file header, bytes up to the program headers, these, and the rest of the file. */
  datatype Program = Program(
    entry: nat, shoff: nat, flags: nat, phentsize: nat, more: seq<byte>, gap: seq<byte>, headers: seq<Slot>, contents: seq<byte>)
  {
    function PhOffset(): nat { 64 + |gap| }
    function Segments(): seq<Seg> { Described(headers) }

    /** The fields fit their places, and the headers are `phentsize` bytes apart. */
    ghost predicate Good() {
      && entry < Pow256(8) && 64 + |gap| < Pow256(8) && 56 <= phentsize < Pow256(2) && 0 < |headers| < Pow256(2) && |more| == 6
      && forall i {:trigger headers[i]} | 0 <= i < |headers| :: GoodPhdr(headers[i].phdr) && 56 + |headers[i].pad| == phentsize
    }

    function Bytes(): seq<byte> {
      if |more| != 6 then [] else
      EhdrBytes(entry, 64 + |gap|, shoff, flags, phentsize, |headers|, more) + (gap + TableBytes(headers) + contents)
    }
  }

  lemma {:induction false} TableSize(hs: seq<Slot>, size: nat)
    requires forall i {:trigger hs[i]} | 0 <= i < |hs| :: 56 + |hs[i].pad| == size
    ensures |TableBytes(hs)| == Times(|hs|, size)
    decreases |hs|
  {
    hide Times, PhdrBytes;
    if hs != [] {
      var n := |hs| - 1;
      TableSize(hs[..n], size);
      TimesStep(n, size);
    } else {
      TimesNone(size);
    }
  }

  lemma TimesNone(size: nat)
    ensures Times(0, size) == 0
  {
  }

  /** Header i, and what is in front of it and behind it. */
  lemma {:induction false} TableAt(hs: seq<Slot>, i: nat) returns (post: seq<byte>)
    requires i < |hs|
    ensures TableBytes(hs) == TableBytes(hs[..i]) + PhdrBytes(hs[i].phdr) + post
    decreases |hs|
  {
    hide PhdrBytes;
    var n := |hs| - 1;
    var last := PhdrBytes(hs[n].phdr) + hs[n].pad;
    if i == n {
      post := hs[n].pad;
    } else {
      var rest := TableAt(hs[..n], i);
      assert hs[..n][..i] == hs[..i] && hs[..n][i] == hs[i];
      post := rest + last;
    }
  }

  /** The loader reads header i as it was written. */
  lemma SlotReads(f: Program, i: nat)
    requires f.Good() && i < |f.headers|
    ensures var data, at, h := f.Bytes(), f.PhOffset() + Times(i, f.phentsize), f.headers[i].phdr;
      && at + 56 <= |data| && (IsLoad(data, at) <==> h.kind == 1)
      && SegAt(data, at) == Seg(h.flags / 2 % 2 == 1, h.flags % 2 == 1, h.offset, h.vaddr, h.filesz, h.memsz)
  {
    hide Times, PhdrBytes, EhdrBytes, Pow256, IsLoad, SegAt;
    var hs := f.headers;
    var post := TableAt(hs, i);
    assert forall j | 0 <= j < i :: hs[..i][j] == hs[j];
    TableSize(hs[..i], f.phentsize);
    var pre := EhdrBytes(f.entry, 64 + |f.gap|, f.shoff, f.flags, f.phentsize, |hs|, f.more) + f.gap + TableBytes(hs[..i]);
    assert f.Bytes() == pre + PhdrBytes(hs[i].phdr) + (post + f.contents);
    assert GoodPhdr(hs[i].phdr);
    PhdrReads(pre, hs[i].phdr, post + f.contents);
  }

  /** The loader finds the segments of a written file, in the order of its program headers. */
  lemma {:induction false} SegmentsRead(f: Program, n: nat)
    requires f.Good() && HeaderOk(f.Bytes()) && n <= |f.headers| == PhNum(f.Bytes())
    requires PhOff(f.Bytes()) == f.PhOffset() && PhEntSize(f.Bytes()) == f.phentsize
    ensures Segs(f.Bytes(), n) == Described(f.headers[..n])
  {
    hide HeaderOk, IsLoad, SegAt, Times, PhOff, PhEntSize, PhNum, Program.Bytes;
    if n > 0 {
      SegmentsRead(f, n - 1);
      SlotReads(f, n - 1);
      HeaderInside(f.Bytes(), n - 1);
      assert f.headers[..n][..n - 1] == f.headers[..n - 1] && f.headers[..n][n - 1] == f.headers[n - 1];
    }
  }

  lemma ProgramReads(f: Program)
    requires f.Good()
    ensures var data := f.Bytes();
      && HeaderOk(data) && Entry(data) == f.entry && PhOff(data) == f.PhOffset() && PhEntSize(data) == f.phentsize
      && PhNum(data) == |f.headers| && Segs(data, PhNum(data)) == f.Segments()
  {
    hide Times, TableBytes, EhdrBytes, Pow256, Segs, Number;
    var hs := f.headers;
    TableSize(hs, f.phentsize);
    EhdrReads(f.entry, 64 + |f.gap|, f.shoff, f.flags, f.phentsize, |hs|, f.more, f.gap + TableBytes(hs) + f.contents);
    SegmentsRead(f, |hs|);
    assert hs[..|hs|] == hs;
  }
}
