/** ustar archives: reading headers, mounting an archive, and a writer whose archives read back. */
module TarArchive {
  import opened Options
  import opened Machine
  import opened Bytes
  import opened PathNames
  import opened TarTree
  import opened TarMeaning

  const BLOCK: nat := 512
  const ZERO_DIGIT: byte := 48
  const TYPE_DIR: byte := 53

  // ---- numbers in octal ----

  function Octal(field: seq<byte>, i: nat, value: nat): nat
    requires i <= |field|
    decreases |field| - i
  {
    if i == |field| || field[i] < ZERO_DIGIT || field[i] > ZERO_DIGIT + 7 then value
    else Octal(field, i + 1, value * 8 + (field[i] - ZERO_DIGIT))
  }

  /** parse_octal. */
  method ParseOctal(field: seq<byte>) returns (value: nat)
    ensures value == Octal(field, 0, 0)
  {
    value := 0;
    var i := 0;
    while i < |field| && ZERO_DIGIT <= field[i] <= ZERO_DIGIT + 7
      invariant 0 <= i <= |field| && Octal(field, i, value) == Octal(field, 0, 0)
    {
      value := value * 8 + (field[i] - ZERO_DIGIT);
      i := i + 1;
    }
  }

  /** n octal digits of x, most significant first, as ASCII bytes 48 to 55. */
  function OctalDigits(x: nat, n: nat): (s: seq<byte>)
    ensures |s| == n && forall i | 0 <= i < n :: 48 <= s[i] <= 55
    decreases n
  {
    if n == 0 then [] else OctalDigits(x / 8, n - 1) + [(48 + x % 8) as byte]
  }

  function Pow8(n: nat): nat { if n == 0 then 1 else 8 * Pow8(n - 1) }

  lemma {:induction false} OctalPrefix(a: seq<byte>, b: seq<byte>, i: nat, value: nat)
    requires i <= |a| && forall j | 0 <= j < |a| :: 48 <= a[j] <= 55
    ensures Octal(a + b, i, value) == Octal(a + b, |a|, Octal(a, i, value))
    decreases |a| - i
  {
    if i < |a| { OctalPrefix(a, b, i + 1, value * 8 + (a[i] - ZERO_DIGIT)); }
  }

  /** Digits read back to their number. */
  lemma {:induction false} OctalBack(x: nat, n: nat)
    requires x < Pow8(n)
    ensures Octal(OctalDigits(x, n), 0, 0) == x
    decreases n
  {
    if n > 0 {
      OctalBack(x / 8, n - 1);
      var a, b := OctalDigits(x / 8, n - 1), [(48 + x % 8) as byte];
      OctalPrefix(a, b, 0, 0);
      var f := a + b;
      assert f[n - 1] == 48 + x % 8;
      assert Octal(f, n - 1, x / 8) == Octal(f, n, x / 8 * 8 + x % 8);
    }
  }

  /** A field of digits closed by a NUL holds its number. */
  lemma OctalField(x: nat, n: nat)
    requires x < Pow8(n)
    ensures Octal(OctalDigits(x, n) + [0], 0, 0) == x
  {
    OctalBack(x, n);
    OctalPrefix(OctalDigits(x, n), [0], 0, 0);
  }

  // ---- headers ----

  /** The bytes of a field up to its first NUL. */
  function Text(field: seq<byte>): seq<byte> { field[..StrLen(field, 0)] }

  function NameField(h: seq<byte>): seq<byte> requires |h| >= BLOCK { h[..100] }
  function SizeField(h: seq<byte>): seq<byte> requires |h| >= BLOCK { h[124..136] }
  function PrefixField(h: seq<byte>): seq<byte> requires |h| >= BLOCK { h[345..500] }

  function SizeOf(h: seq<byte>): nat requires |h| >= BLOCK { Octal(SizeField(h), 0, 0) }

  /** The path of a header: prefix, slash and name, or the name alone; cut off at 255 bytes. */
  function FullPath(h: seq<byte>): seq<byte>
    requires |h| >= BLOCK
  {
    var p := Text(PrefixField(h));
    var s := if |p| > 0 then p + [SLASH] + Text(NameField(h)) else Text(NameField(h));
    if |s| <= 255 then s else s[..255]
  }

  /** build_full_path into a buffer of 256 bytes. */
  method BuildFullPath(h: seq<byte>) returns (out: seq<byte>)
    requires |h| >= BLOCK
    ensures out == FullPath(h)
  {
    var prefix, name := Text(PrefixField(h)), Text(NameField(h));
    out := [];
    if |prefix| > 0 {
      var n := if |prefix| < 255 then |prefix| else 255;
      out := prefix[..n];
      if |out| < 255 { out := out + [SLASH]; }
    }
    var n := if |name| < 255 - |out| then |name| else 255 - |out|;
    out := out + name[..n];
  }

  /** The position of the header after the one at `at`. */
  function NextHeader(b: seq<byte>, at: nat): nat
    requires at + BLOCK <= |b|
  {
    at + BLOCK + (SizeOf(b[at..at + BLOCK]) + 511) / BLOCK * BLOCK
  }

  /** There is another header at `at`. */
  predicate More(b: seq<byte>, at: nat) { at + BLOCK <= |b| && b[at] != 0 }

  function ItemAt(b: seq<byte>, at: nat): Item
    requires at + BLOCK <= |b|
  {
    var h := b[at..at + BLOCK];
    var isDir := h[156] == TYPE_DIR;
    Item(ArchivePath(FullPath(h)), Info(isDir, if isDir then 0 else (at + BLOCK) % TWO32, if isDir then 0 else SizeOf(h) % TWO32))
  }

  /** What an archive says, header by header. */
  function Items(b: seq<byte>, at: nat): seq<Item>
    decreases |b| - at
  {
    if More(b, at) then [ItemAt(b, at)] + Items(b, NextHeader(b, at)) else []
  }

  lemma ItemsStep(b: seq<byte>, at: nat)
    ensures More(b, at) ==>
      && Items(b, at) == [ItemAt(b, at)] + Items(b, NextHeader(b, at)) && |Items(b, at)| == 1 + |Items(b, NextHeader(b, at))|
      && at < NextHeader(b, at)
    ensures !More(b, at) ==> Items(b, at) == []
  {
  }

  /** count_entries. */
  method CountEntries(b: seq<byte>) returns (count: nat)
    ensures count == |Items(b, 0)|
  {
    hide Items, ItemAt, Octal;
    count := 0;
    var at := 0;
    while at + BLOCK <= |b| && b[at] != 0
      invariant count + |Items(b, at)| == |Items(b, 0)|
      decreases |b| - at
    {
      ItemsStep(b, at);
      count := count + 1;
      at := Advance(b, at);
    }
    ItemsStep(b, at);
  }

  /** Past one header and its data blocks. */
  method Advance(b: seq<byte>, at: nat) returns (next: nat)
    requires at + BLOCK <= |b|
    ensures next == NextHeader(b, at)
  {
    var size := ParseOctal(SizeField(b[at..at + BLOCK]));
    next := at + BLOCK + (size + 511) / BLOCK * BLOCK;
  }

  // ---- mounting ----

  /** How many components all paths have together. */
  function Components(items: seq<Item>): nat {
    if items == [] then 0 else |items[0].path| + Components(items[1..])
  }

  ghost predicate GoodItems(items: seq<Item>) {
    forall i {:trigger items[i]} | 0 <= i < |items| :: GoodPath(items[i].path)
  }

  lemma {:induction false} EightEach(items: seq<Item>)
    requires forall i | 0 <= i < |items| :: |items[i].path| <= 8
    ensures Components(items) <= 8 * |items|
  {
    if items != [] { EightEach(items[1..]); }
  }

  lemma MountedMore(done: seq<Item>, x: Item)
    ensures Mounted(done + [x]) == Inserted(Mounted(done), x.path, x.info)
  {
    assert (done + [x])[..|done|] == done;
  }

  /** Mounting builds the table of the archive's items, if its capacity, eight nodes for every entry
      and sixteen more, is enough. */
  method Mount(b: seq<byte>) returns (ok: bool, t: Table?)
    requires GoodItems(Items(b, 0)) && 1 + Components(Items(b, 0)) <= |Items(b, 0)| * 8 + 16
    ensures ok <==> |b| >= BLOCK && b[257..262] == [117, 115, 116, 97, 114]
    ensures ok ==> t != null && fresh(t) && t.Valid() && t.Map() == Mounted(Items(b, 0)) && t.nodes.Length == |Items(b, 0)| * 8 + 16
  {
    if |b| < BLOCK { return false, null; }
    if b[257..262] != [117, 115, 116, 97, 114] { return false, null; }
    var count := CountEntries(b);
    var u := new Table(count * 8 + 16);
    ghost var items, done := Items(b, 0), [];
    var at := 0;
    assert done + Items(b, 0) == items && Mounted([]) == map[[] := IMPLICIT];
    hide Items, ItemAt, Octal, Mounted, Inserted, GoodPath, NextHeader, Table.Map;
    while at + BLOCK <= |b| && b[at] != 0
      invariant u.Valid() && fresh(u) && fresh(u.nodes) && u.nodes.Length == count * 8 + 16
      invariant done + Items(b, at) == items && u.Map() == Mounted(done)
      invariant u.num + Components(Items(b, at)) <= u.nodes.Length
      decreases |b| - at
    {
      ItemsStep(b, at);
      ghost var x := ItemAt(b, at);
      NextItem(items, done, x, Items(b, NextHeader(b, at)));
      InsertItem(u, b, at);
      MountedMore(done, x);
      done := done + [x];
      at := Advance(b, at);
    }
    ItemsStep(b, at);
    assert done == items;
    ok, t := true, u;
  }

  lemma NextItem(items: seq<Item>, done: seq<Item>, x: Item, rest: seq<Item>)
    requires GoodItems(items) && done + ([x] + rest) == items
    ensures GoodPath(x.path) && Components([x] + rest) == |x.path| + Components(rest) && done + [x] + rest == items
  {
    assert items[|done|] == x;
    assert ([x] + rest)[1..] == rest;
  }

  /** One header's entry. */
  method InsertItem(u: Table, b: seq<byte>, at: nat)
    requires u.Valid() && at + BLOCK <= |b| && GoodPath(ItemAt(b, at).path) && u.num + |ItemAt(b, at).path| <= u.nodes.Length
    modifies u, u.nodes
    ensures u.Valid() && u.num <= old(u.num) + |ItemAt(b, at).path|
    ensures u.Map() == Inserted(old(u.Map()), ItemAt(b, at).path, ItemAt(b, at).info)
  {
    hide GoodPath, Inserted;
    var h := b[at..at + BLOCK];
    var size := ParseOctal(SizeField(h));
    var path := BuildFullPath(h);
    var isDir := h[156] == TYPE_DIR;
    u.InsertPath(path, Info(isDir, if isDir then 0 else (at + BLOCK) % TWO32, if isDir then 0 else size % TWO32));
  }
}
