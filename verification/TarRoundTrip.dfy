/** A writer of ustar archives, and the proof that what it writes is found again by path. */
module TarRoundTrip {
  import opened Options
  import opened Machine
  import opened Bytes
  import opened PathNames
  import opened FileBlocks
  import opened TarTree
  import opened TarMeaning
  import opened TarLookup
  import opened TarArchive

  // The header of an archive is written here byte by byte as section "ustar Interchange Format" of the
  // pax utility in POSIX.1 has it, with the numbers of the bytes and none of the reader's names.

  /** A file or directory to archive; its path is written as prefix and name, if asked with "./" in
      front and a slash behind it. `early` asks for the NUL that old archives have for the type of a file. */
  datatype Member = Member(prefix: Path, name: Path, isDir: bool, data: seq<byte>, dotted: bool, slashed: bool, early: bool) {
    function Path(): seq<Name> { prefix + name }
    function Lead(): seq<byte> { if dotted then [46, 47] else [] }
    function Tail(): seq<byte> { if slashed then [47] else [] }
    function PrefixText(): seq<byte> { if |prefix| > 0 then Lead() + Join(prefix) else [] }
    function NameText(): seq<byte> { if |prefix| > 0 then Join(name) + Tail() else Lead() + (Join(name) + Tail()) }
    function FullText(): seq<byte> { Lead() + (Join(Path()) + Tail()) }
  }

  /** What the two fields can hold. The directory that is archived may itself be a member, as "./". */
  ghost predicate GoodMember(e: Member) {
    && GoodPath(e.prefix) && GoodPath(e.name)
    && (if |e.name| == 0 then e.prefix == [] && e.dotted && e.isDir else e.dotted || e.Path()[0] != [46])
    && |e.NameText()| <= 100 && |e.PrefixText()| <= 155 && |e.FullText()| <= 255
    && |e.data| < Pow8(11) && (e.isDir ==> e.data == [])
  }

  function Zeros(n: nat): (z: seq<byte>)
    ensures |z| == n && forall i | 0 <= i < n :: z[i] == 0
  {
    seq(n, _ => 0)
  }

  /** s, then NULs up to n bytes. */
  function Pad(s: seq<byte>, n: nat): (r: seq<byte>)
    requires |s| <= n
    ensures |r| == n && r[..|s|] == s && forall i | |s| <= i < n :: r[i] == 0
  {
    s + Zeros(n - |s|)
  }

  /** Byte i of a field that starts at `at`; NUL outside the text. */
  function FieldByte(s: seq<byte>, at: nat, i: nat): byte
    requires at <= i
  {
    if i - at < |s| then s[i - at] else 0
  }

  /** Byte i of a header: name, size, type, magic and prefix at their places, NULs elsewhere. */
  function HeaderByte(e: Member, i: nat): byte {
    if i < 100 then FieldByte(e.NameText(), 0, i)
    else if i < 124 then 0
    else if i < 136 then FieldByte(OctalDigits(|e.data|, 11), 124, i)
    else if i < 156 then 0
    else if i == 156 then (if e.isDir then 53 else if e.early then 0 else 48)
    else if i < 257 then 0
    else if i < 265 then FieldByte([117, 115, 116, 97, 114], 257, i)
    else if i < 345 then 0
    else if i < 500 then FieldByte(e.PrefixText(), 345, i)
    else 0
  }

  function Header(e: Member): (h: seq<byte>)
    ensures |h| == 512
  {
    seq(512, i requires 0 <= i < 512 => HeaderByte(e, i))
  }

  lemma HeaderFields(e: Member)
    requires |e.NameText()| <= 100 && |e.PrefixText()| <= 155
    ensures var h := Header(e);
      && NameField(h) == Pad(e.NameText(), 100) && SizeField(h) == OctalDigits(|e.data|, 11) + [0]
      && (h[156] == TYPE_DIR <==> e.isDir) && h[257..262] == [117, 115, 116, 97, 114] && PrefixField(h) == Pad(e.PrefixText(), 155)
  {
    hide Member.NameText, Member.PrefixText, OctalDigits;
    var h := Header(e);
    forall i | 0 <= i < 100 ensures NameField(h)[i] == Pad(e.NameText(), 100)[i] {
      assert NameField(h)[i] == h[i] == HeaderByte(e, i);
      PadAt(e.NameText(), 100, i);
    }
    forall i | 0 <= i < 12 ensures SizeField(h)[i] == (OctalDigits(|e.data|, 11) + [0])[i] {
      assert SizeField(h)[i] == h[124 + i] == HeaderByte(e, 124 + i);
    }
    forall i | 0 <= i < 155 ensures PrefixField(h)[i] == Pad(e.PrefixText(), 155)[i] {
      assert PrefixField(h)[i] == h[345 + i] == HeaderByte(e, 345 + i);
      PadAt(e.PrefixText(), 155, i);
    }
  }

  lemma PadAt(s: seq<byte>, n: nat, i: nat)
    requires |s| <= n && i < n
    ensures Pad(s, n)[i] == FieldByte(s, 0, i)
  {
  }

  /** A padded text reads back up to its first NUL. */
  lemma TextBack(s: seq<byte>, n: nat)
    requires |s| <= n && ZeroFree(s)
    ensures Text(Pad(s, n)) == s
  {
    var f := Pad(s, n);
    assert forall j | 0 <= j < |s| :: f[j] == f[..|s|][j];
    if |s| < n { StrLenIs(f, 0, |s|); } else { StrLenFull(f, 0); }
  }

  lemma {:induction false} StrLenFull(f: seq<byte>, i: nat)
    requires i <= |f| && forall j | i <= j < |f| :: f[j] != 0
    ensures StrLen(f, i) == |f| - i
    decreases |f| - i
  {
    if i < |f| { StrLenFull(f, i + 1); }
  }

  lemma {:induction false} JoinZeroFree(p: Path)
    requires GoodPath(p)
    ensures ZeroFree(Join(p)) && (|p| > 0 <==> |Join(p)| > 0)
  {
    if |p| > 1 { JoinZeroFree(p[1..]); }
  }

  /** Joining prefix and name is joining the path. */
  lemma {:induction false} JoinSum(a: Path, b: Path)
    requires |b| > 0
    ensures Join(a + b) == if |a| == 0 then Join(b) else Join(a) + [47] + Join(b)
  {
    if |a| == 0 {
      assert a + b == b;
    } else {
      assert (a + b)[1..] == a[1..] + b && (a + b)[0] == a[0];
      JoinSum(a[1..], b);
      if |a| == 1 { assert a[1..] + b == b; }
    }
  }

  /** What the two fields say together. */
  lemma TextSum(e: Member)
    requires GoodMember(e)
    ensures e.FullText() == if |e.PrefixText()| > 0 then e.PrefixText() + [47] + e.NameText() else e.NameText()
  {
    JoinZeroFree(e.prefix);
    hide Join, GoodPath;
    if |e.prefix| == 0 {
      assert e.Path() == e.name;
    } else {
      JoinSum(e.prefix, e.name);
      Regroup(e.Lead(), Join(e.prefix), [47], Join(e.name), e.Tail());
    }
  }

  lemma Regroup(a: seq<byte>, b: seq<byte>, c: seq<byte>, d: seq<byte>, f: seq<byte>)
    ensures a + (b + c + d + f) == a + b + c + (d + f)
  {
  }

  lemma TextZeroFree(e: Member)
    requires GoodMember(e)
    ensures ZeroFree(e.NameText()) && ZeroFree(e.PrefixText()) && |e.NameText()| > 0
  {
    JoinZeroFree(e.prefix);
    JoinZeroFree(e.name);
    hide Join, GoodPath;
  }

  /** The path of a written header is the member's path. */
  lemma PathBack(e: Member)
    requires GoodMember(e)
    ensures |Header(e)| == BLOCK && FullPath(Header(e)) == e.FullText() && ArchivePath(FullPath(Header(e))) == e.Path()
  {
    HeaderFields(e);
    TextSum(e);
    TextZeroFree(e);
    TextBack(e.NameText(), 100);
    TextBack(e.PrefixText(), 155);
    TextMeans(e);
  }

  /** The "./" in front, and the slash behind, are not part of the path. */
  lemma TextMeans(e: Member)
    requires GoodMember(e)
    ensures ArchivePath(e.FullText()) == e.Path()
  {
    var s, p := e.FullText(), e.Path();
    if |p| == 0 {
      assert s == [46, 47] + e.Tail();
      SkipAll(s, 2);
    } else {
      SplitJoin(e.Lead(), p, e.Tail());
      assert s[|e.Lead()|] == Join(p)[0];
      if !e.dotted {
        assert s == Join(p) + e.Tail();
        NoDotSlash(p, e.Tail());
      }
    }
  }

  lemma NoDotSlash(p: Path, tail: seq<byte>)
    requires GoodPath(p) && |p| > 0 && p[0] != [46]
    ensures var s := Join(p) + tail; !(|s| >= 2 && s[0] == 46 && s[1] == 47)
  {
    var s := Join(p);
    JoinStarts(p);
    if |p| > 1 { JoinParts(p); }
    if |p[0]| == 1 {
      assert p[0] == [p[0][0]];
    } else {
      assert s[1] == s[..|p[0]|][1] by { if |p| == 1 { assert s[..|p[0]|] == p[0]; } }
      assert s[..|p[0]|] == p[0];
    }
  }

  // ---- whole archives ----

  function Padding(n: nat): nat { (n + 511) / 512 * 512 - n }

  /** Header, data, padding; two empty blocks at the end. */
  function Archive(es: seq<Member>): seq<byte> {
    if es == [] then Zeros(1024)
    else Header(es[0]) + es[0].data + Zeros(Padding(|es[0].data|)) + Archive(es[1..])
  }

  ghost predicate GoodMembers(es: seq<Member>) { forall i {:trigger es[i]} | 0 <= i < |es| :: GoodMember(es[i]) }

  /** Where member i's header starts. */
  function HeaderAt(es: seq<Member>, i: nat): nat
    requires i <= |es|
  {
    if i == 0 then 0 else HeaderAt(es, i - 1) + Room(es[i - 1])
  }

  /** The items that members es stand for when the first header is at `at`. */
  function Expected(es: seq<Member>, at: nat): seq<Item>
    decreases |es|
  {
    if es == [] then []
    else [Item(es[0].Path(), Stored(es[0], at))] + Expected(es[1..], at + Room(es[0]))
  }

  /** What the item of a member whose header is at `at` says. */
  function Stored(e: Member, at: nat): Info {
    if e.isDir then Info(true, 0, 0) else Info(false, at + BLOCK, |e.data|)
  }

  /** Header and data blocks of a member. */
  function Room(e: Member): nat { BLOCK + (|e.data| + 511) / BLOCK * BLOCK }

  lemma ArchiveStep(es: seq<Member>)
    requires |es| > 0
    ensures Archive(es) == Header(es[0]) + es[0].data + Zeros(Padding(|es[0].data|)) + Archive(es[1..])
  {
  }

  lemma PaddingIs(n: nat)
    ensures n + Padding(n) == (n + 511) / BLOCK * BLOCK
  {
  }

  lemma Parts(pre: seq<byte>, h: seq<byte>, d: seq<byte>, z: seq<byte>, rest: seq<byte>)
    requires |h| > 0
    ensures var b := pre + (h + d + z + rest);
      && b == (pre + h + d + z) + rest && b[|pre|] == h[0]
      && b[|pre|..|pre| + |h|] == h && b[|pre| + |h|..|pre| + |h| + |d|] == d
  {
  }

  /** A header reads back to its member. */
  lemma HeaderReads(b: seq<byte>, at: nat, e: Member)
    requires GoodMember(e) && at + BLOCK <= |b| < TWO32 && b[at..at + BLOCK] == Header(e) && |e.data| < TWO32
    ensures More(b, at) && NextHeader(b, at) == at + Room(e) && ItemAt(b, at) == Item(e.Path(), Stored(e, at))
  {
    hide Header, Octal, OctalDigits, FullPath, ArchivePath, Pad, Join, Zeros, Text, Member.NameText, Member.PrefixText, NameField, PrefixField, SizeField, GoodPath;
    HeaderFields(e);
    PathBack(e);
    OctalField(|e.data|, 11);
    NameStarts(e);
    assert b[at] == b[at..at + BLOCK][0];
  }

  /** Header, data and padding of the first member, and the archive of the others behind them. */
  lemma MemberThere(pre: seq<byte>, es: seq<Member>)
    requires GoodMembers(es) && |es| > 0 && |pre + Archive(es)| < TWO32
    ensures var b, e := pre + Archive(es), es[0];
      var pre' := pre + Header(e) + e.data + Zeros(Padding(|e.data|));
      && |Header(e)| == BLOCK && b == pre' + Archive(es[1..]) && |pre'| == |pre| + Room(e)
      && b[|pre| + BLOCK..|pre| + BLOCK + |e.data|] == e.data
      && More(b, |pre|) && NextHeader(b, |pre|) == |pre'| && ItemAt(b, |pre|) == Item(e.Path(), Stored(e, |pre|))
  {
    var b, e := pre + Archive(es), es[0];
    assert GoodMember(e);
    hide Pad, Join, Zeros, Text, GoodPath, Member.NameText, Member.PrefixText, Padding, Archive;
    ArchiveStep(es);
    PaddingIs(|e.data|);
    Parts(pre, Header(e), e.data, Zeros(Padding(|e.data|)), Archive(es[1..]));
    hide Header, GoodMember, More, NextHeader, ItemAt;
    HeaderReads(b, |pre|, e);
  }

  lemma EmptyArchive(pre: seq<byte>)
    ensures !More(pre + Archive([]), |pre|)
  {
    assert (pre + Zeros(1024))[|pre|] == 0;
  }

  /** Reading a written archive yields the items it was written for. */
  lemma {:induction false} ArchiveItems(pre: seq<byte>, es: seq<Member>)
    requires GoodMembers(es) && |pre + Archive(es)| < TWO32
    ensures Items(pre + Archive(es), |pre|) == Expected(es, |pre|)
    decreases |es|
  {
    hide Items, Header, GoodMember, NextHeader, ItemAt, Archive, More, Zeros, Padding, Stored, Room;
    var b := pre + Archive(es);
    ItemsStep(b, |pre|);
    if es == [] {
      EmptyArchive(pre);
    } else {
      var e := es[0];
      MemberThere(pre, es);
      var pre' := pre + Header(e) + e.data + Zeros(Padding(|e.data|));
      ArchiveItems(pre', es[1..]);
    }
  }

  lemma NameStarts(e: Member)
    requires GoodMember(e)
    ensures |Header(e)| == BLOCK && Header(e)[0] != 0
  {
    HeaderFields(e);
    TextZeroFree(e);
    assert Header(e)[0] == NameField(Header(e))[0] == Pad(e.NameText(), 100)[..|e.NameText()|][0];
  }

  // ---- reading files ----

  /** tar_read: the bytes of a file from offset on; an error on a directory. */
  method Read(t: Table, b: seq<byte>, node: nat, offset: nat, count: nat) returns (ok: bool, out: seq<byte>)
    requires t.Valid() && node < t.num && offset < TWO64 && count < TWO64
    requires var n := t.nodes[node];
      !n.isDir ==> n.offset + n.size <= |b| && (offset < n.size < TWO32 || offset >= n.size) && (offset < n.size ==> FileBlocks.Sound(offset, count, n.size))
    ensures ok <==> !t.nodes[node].isDir
    ensures ok && offset >= t.nodes[node].size ==> out == []
    ensures ok && offset < t.nodes[node].size ==>
      var n := t.nodes[node];
      out == b[n.offset + offset..n.offset + offset + (if count < n.size - offset then count else n.size - offset)]
  {
    var n := t.nodes[node];
    if n.isDir { return false, []; }
    if offset >= n.size { return true, []; }
    var want := if (offset + count) % TWO64 > n.size then n.size - offset else count;
    ClampExact(offset, count, n.size);
    ok, out := true, b[n.offset + offset..n.offset + offset + want];
  }

  // ---- from members to what is found ----

  /** The last member with exactly this path among the first n, or -1. */
  function LastOf(es: seq<Member>, p: Path, n: nat): (i: int)
    requires n <= |es|
    ensures -1 <= i < n && (i >= 0 ==> es[i].Path() == p)
    ensures forall j | i < j < n :: es[j].Path() != p
    decreases n
  {
    if n == 0 then -1 else if es[n - 1].Path() == p then n - 1 else LastOf(es, p, n - 1)
  }

  lemma HeaderShift(es: seq<Member>, i: nat)
    requires 0 < i <= |es|
    ensures HeaderAt(es, i) == Room(es[0]) + HeaderAt(es[1..], i - 1)
    decreases i
  {
    if i > 1 { HeaderShift(es, i - 1); }
  }

  lemma {:induction false} ExpectedAt(es: seq<Member>, at: nat)
    ensures |Expected(es, at)| == |es|
    ensures forall i {:trigger es[i]} | 0 <= i < |es| :: Expected(es, at)[i] == Item(es[i].Path(), Stored(es[i], at + HeaderAt(es, i)))
    decreases |es|
  {
    hide Stored, Room, Member.Path;
    if es != [] {
      ExpectedAt(es[1..], at + Room(es[0]));
      forall i | 0 <= i < |es| ensures Expected(es, at)[i] == Item(es[i].Path(), Stored(es[i], at + HeaderAt(es, i))) {
        if i > 0 {
          HeaderShift(es, i);
          assert es[i] == es[1..][i - 1];
        }
      }
    }
  }

  lemma {:induction false} LastSaysIs(es: seq<Member>, items: seq<Item>, p: Path, n: nat)
    requires n <= |es| == |items| && forall i | 0 <= i < |es| :: items[i] == Item(es[i].Path(), Stored(es[i], HeaderAt(es, i)))
    ensures LastSays(items[..n], p) ==
      var i := LastOf(es, p, n);
      if i == -1 then None else Some(Stored(es[i], HeaderAt(es, i)))
    decreases n
  {
    hide Stored, HeaderAt;
    if n > 0 {
      LastSaysIs(es, items, p, n - 1);
      assert items[..n][..n - 1] == items[..n - 1] && items[..n][n - 1] == items[n - 1];
      assert items[n - 1] == Item(es[n - 1].Path(), Stored(es[n - 1], HeaderAt(es, n - 1)));
    }
  }

  /** Each member's data is where its item says. */
  lemma {:induction false} DataThere(pre: seq<byte>, es: seq<Member>, i: nat)
    requires GoodMembers(es) && |pre + Archive(es)| < TWO32 && i < |es|
    ensures var at, b := |pre| + HeaderAt(es, i) + BLOCK, pre + Archive(es);
      at + |es[i].data| <= |b| && b[at..at + |es[i].data|] == es[i].data
    decreases i
  {
    hide Header, GoodMember, Archive, Zeros, Padding, Stored, Room, More, NextHeader, ItemAt;
    MemberThere(pre, es);
    if i > 0 {
      var pre' := pre + Header(es[0]) + es[0].data + Zeros(Padding(|es[0].data|));
      DataThere(pre', es[1..], i - 1);
      HeaderShift(es, i);
    } else {
      DataFits(pre, es);
    }
  }

  lemma DataFits(pre: seq<byte>, es: seq<Member>)
    requires |es| > 0
    ensures |pre| + BLOCK + |es[0].data| <= |pre + Archive(es)|
  {
  }

  /** No path is both a file and a directory above another member. */
  ghost predicate NoMix(es: seq<Member>) {
    forall i, j {:trigger es[i], es[j]} | 0 <= i < |es| && 0 <= j < |es| && IsPrefix(es[i].Path(), es[j].Path()) && es[i].Path() != es[j].Path() ::
      es[i].isDir
  }

  ghost predicate Names(es: seq<Member>, p: Path) {
    exists j {:trigger es[j]} :: 0 <= j < |es| && IsPrefix(p, es[j].Path())
  }

  /** What the members say about a path. */
  lemma MembersMean(es: seq<Member>, p: Path)
    ensures var m := Mounted(Expected(es, 0));
      && (p in m <==> p == [] || Names(es, p))
      && (p in m && p != [] ==>
            m[p] == var i := LastOf(es, p, |es|);
              if i == -1 then IMPLICIT else Stored(es[i], HeaderAt(es, i)))
      && [] in m && m[[]] == IMPLICIT
  {
    var items := Expected(es, 0);
    ExpectedAt(es, 0);
    MountedMeans(items, p);
    LastSaysIs(es, items, p, |es|);
    assert items[..|es|] == items;
    if j :| 0 <= j < |items| && IsPrefix(p, items[j].path) { assert items[j] == Item(es[j].Path(), Stored(es[j], HeaderAt(es, j))); }
    if Names(es, p) {
      var j :| 0 <= j < |es| && IsPrefix(p, es[j].Path());
      assert items[j].path == es[j].Path();
    }
  }

  /** Without mixed paths, every path that exists is reached. */
  lemma AllReached(es: seq<Member>, p: Path)
    requires NoMix(es)
    ensures Reach(Mounted(Expected(es, 0)), p) <==> p == [] || Names(es, p)
  {
    var m := Mounted(Expected(es, 0));
    MembersMean(es, p);
    if Names(es, p) {
      var j :| 0 <= j < |es| && IsPrefix(p, es[j].Path());
      forall k | 0 <= k < |p| ensures p[..k] in m && m[p[..k]].isDir {
        var q := p[..k];
        assert IsPrefix(q, es[j].Path()) by { assert es[j].Path()[..k] == es[j].Path()[..|p|][..k]; }
        assert Names(es, q);
        MembersMean(es, q);
        var i := LastOf(es, q, |es|);
        if q != [] && i >= 0 { assert es[i].Path() == q && |q| < |es[j].Path()|; }
      }
    }
  }

  /** How many components all members' paths have together. */
  function AllComponents(es: seq<Member>): nat {
    if es == [] then 0 else |es[0].Path()| + AllComponents(es[1..])
  }

  lemma {:induction false} ComponentsOf(es: seq<Member>, at: nat)
    ensures Components(Expected(es, at)) == AllComponents(es) && |Expected(es, at)| == |es|
    decreases |es|
  {
    if es != [] {
      ComponentsOf(es[1..], at + Room(es[0]));
      assert Expected(es, at)[1..] == Expected(es[1..], at + Room(es[0]));
    }
  }

  lemma {:induction false} ArchiveLong(es: seq<Member>)
    ensures |Archive(es)| >= BLOCK * |es| + 1024
  {
    if es != [] { ArchiveLong(es[1..]); }
  }

  lemma ItemsGood(es: seq<Member>)
    requires GoodMembers(es)
    ensures GoodItems(Expected(es, 0))
  {
    ExpectedAt(es, 0);
    forall i | 0 <= i < |es| ensures GoodPath(Expected(es, 0)[i].path) { assert GoodMember(es[i]); }
  }

  datatype Found = Nothing | Directory | File(data: seq<byte>)

  /** Write the members, mount the archive, look a path up and read what is there. */
  method Extract(es: seq<Member>, p: Path) returns (found: Found)
    requires GoodMembers(es) && |es| > 0 && |Archive(es)| < TWO32 && 1 + AllComponents(es) <= 8 * |es| + 16
    requires GoodPath(p) && |p| > 0 && NoMix(es)
    ensures found.Nothing? <==> !Names(es, p)
    ensures found.File? <==> LastOf(es, p, |es|) >= 0 && !es[LastOf(es, p, |es|)].isDir
    ensures found.File? ==> found.data == es[LastOf(es, p, |es|)].data
  {
    hide Archive, Mounted, Expected, GoodMember, GoodPath, Table.Map, TarTree.Tree, Join, Reach, Names, NoMix, Items, LastOf, GoodItems, Components;
    var b := Archive(es);
    ReadyToMount(es);
    var ok, t := Mount(b);
    ArchiveLong(es);
    TableSize(t);
    LookupJoined(p);
    var r := Lookup(t, Join(p));
    AllReached(es, p);
    NamedByItself(es, p);
    if r == -1 { return Nothing; }
    NodeSays(es, t, r, p);
    if t.nodes[r].isDir { return Directory; }
    found := ReadNode(t, b, r);
  }

  lemma NamedByItself(es: seq<Member>, p: Path)
    ensures LastOf(es, p, |es|) >= 0 ==> Names(es, p)
  {
    var i := LastOf(es, p, |es|);
    if i >= 0 { assert IsPrefix(p, es[i].Path()); }
  }

  /** read_whole_file on a file node. */
  method ReadNode(t: Table, b: seq<byte>, r: nat) returns (found: Found)
    requires t.Valid() && r < t.num && !t.nodes[r].isDir && t.nodes[r].offset + t.nodes[r].size <= |b| < TWO32
    ensures found == File(b[t.nodes[r].offset..t.nodes[r].offset + t.nodes[r].size])
  {
    var at, size := t.nodes[r].offset, t.nodes[r].size;
    var total, all := 0, [];
    while total < size
      invariant total <= size && all == b[at..at + total]
    {
      var out := ReadRest(t, b, r, total);
      AppendSlice(b, at, at + total, at + size, all, out);
      all := all + out;
      total := total + |out|;
    }
    found := File(all);
  }

  /** Asking a file for all its bytes from `total` on yields them. */
  method ReadRest(t: Table, b: seq<byte>, r: nat, total: nat) returns (out: seq<byte>)
    requires t.Valid() && r < t.num && !t.nodes[r].isDir && total < t.nodes[r].size
    requires t.nodes[r].offset + t.nodes[r].size <= |b| < TWO32
    ensures out == b[t.nodes[r].offset + total..t.nodes[r].offset + t.nodes[r].size]
  {
    hide TarTree.Tree;
    var ok;
    ok, out := Read(t, b, r, total, t.nodes[r].size - total);
  }

  lemma AppendSlice(b: seq<byte>, i: nat, j: nat, k: nat, x: seq<byte>, y: seq<byte>)
    requires i <= j <= k <= |b| && x == b[i..j] && y == b[j..k]
    ensures x + y == b[i..k] && |y| == k - j
  {
  }

  /** The node a path leads to says what the last member of that path says. */
  lemma NodeSays(es: seq<Member>, t: Table, r: nat, p: Path)
    requires GoodMembers(es) && |Archive(es)| < TWO32 && |p| > 0
    requires t.Valid() && t.Map() == Mounted(Expected(es, 0)) && r < t.num == |t.paths| && t.paths[r] == p
    ensures var i, n := LastOf(es, p, |es|), t.nodes[r];
      && (n.isDir <==> i < 0 || es[i].isDir)
      && (!n.isDir ==> n.offset + n.size <= |Archive(es)| && Archive(es)[n.offset..n.offset + n.size] == es[i].data)
  {
    hide Archive, Mounted, Expected, GoodMember, GoodPath, TarTree.Tree, Files, HeaderAt;
    FileAt(t.nodes[..t.num], t.par, t.paths, r);
    MembersMean(es, p);
    assert t.nodes[..t.num][r] == t.nodes[r];
    var i := LastOf(es, p, |es|);
    if i >= 0 {
      DataThere([], es, i);
      assert [] + Archive(es) == Archive(es);
    }
  }

  lemma TableSize(t: Table)
    requires t.Valid()
    ensures t.num <= t.nodes.Length && |t.paths| == |t.par| == t.num
  {
  }

  lemma LookupJoined(p: Path)
    requires GoodPath(p) && |p| > 0
    ensures LookupPath(Join(p)) == p
  {
    JoinStarts(p);
    assert SkipSlashes(Join(p), 0) == 0;
    LookupJoin([], p);
    assert [] + Join(p) == Join(p);
  }

  lemma ReadyToMount(es: seq<Member>)
    requires GoodMembers(es) && |es| > 0 && |Archive(es)| < TWO32 && 1 + AllComponents(es) <= 8 * |es| + 16
    ensures Items(Archive(es), 0) == Expected(es, 0) && GoodItems(Expected(es, 0))
    ensures 1 + Components(Expected(es, 0)) <= |Expected(es, 0)| * 8 + 16 && |Expected(es, 0)| == |es|
    ensures |Archive(es)| >= BLOCK && Archive(es)[257..262] == [117, 115, 116, 97, 114]
  {
    assert [] + Archive(es) == Archive(es);
    ArchiveItems([], es);
    ItemsGood(es);
    ComponentsOf(es, 0);
    MagicThere(es);
  }

  lemma MagicThere(es: seq<Member>)
    requires GoodMembers(es) && |es| > 0
    ensures |Archive(es)| >= BLOCK && Archive(es)[257..262] == [117, 115, 116, 97, 114]
  {
    assert GoodMember(es[0]);
    HeaderFields(es[0]);
    ArchiveStep(es);
    hide Archive, Header;
    assert Archive(es)[..BLOCK] == Header(es[0]);
    assert Archive(es)[257..262] == Archive(es)[..BLOCK][257..262];
  }
}
