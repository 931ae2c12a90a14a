/** getdents64: collecting a directory through its stream and handing it out in Linux records. */
module DirectoryEntries {
  import opened Options
  import opened Machine
  import opened Bytes
  import opened DirectoryStreams

  const MAX_ENTRIES: nat := 32
  const CHUNK: nat := 512

  // ---- reading records back ----

  /** The reader's walk: inode number, name up to its NUL, next record. */
  function Parse(b: seq<byte>): seq<Entry>
    decreases |b|
  {
    if |b| < 9 then []
    else
      var n := StrLen(b, 8);
      if 8 + n == |b| then [] else [Entry(UnLe(b[..8]), b[8..8 + n])] + Parse(b[9 + n..])
  }

  lemma ParseOne(e: Entry, rest: seq<byte>)
    requires GoodEntry(e)
    ensures var b := Record(e) + rest;
      |b| >= 9 && StrLen(b, 8) == |e.name| && UnLe(b[..8]) == e.ino && b[8..8 + |e.name|] == e.name && b[9 + |e.name|..] == rest
  {
    hide Le, UnLe, StrLen;
    var b := Record(e) + rest;
    LeRoundTrip(e.ino, 8);
    assert b[..8] == Le(e.ino, 8);
    forall j | 8 <= j < 9 + |e.name| ensures b[j] == if j < 8 + |e.name| then e.name[j - 8] else 0 {
      assert b[j] == Record(e)[j];
    }
    StrLenIs(b, 8, |e.name|);
  }

  /** A record stream parses back to the entries it was made of. */
  lemma {:induction false} ParseStream(es: seq<Entry>)
    requires GoodDir(es)
    ensures Parse(Stream(es)) == es
  {
    if es != [] {
      ParseOne(es[0], Stream(es[1..]));
      ParseStream(es[1..]);
    }
  }

  // ---- collecting ----


  /** Names for which the copy into a 48-byte field is right. */
  ghost predicate ShortNames(es: seq<Entry>) {
    forall i {:trigger es[i]} | 0 <= i < |es| :: |es[i].name| < 47
  }

  /** The first half of getdents64: the entries of the directory, read by pages of 512 bytes, up to
      thirty-two of them. */
  method Collect(es: seq<Entry>) returns (entries: seq<Entry>)
    requires GoodDir(es) && ShortNames(es)
    ensures entries == es[..Least(MAX_ENTRIES, |es|)]
  {
    hide Page, Fit, Stream, Parse;
    entries := [];
    var offset := 0;
    ghost var i := 0;
    EmptyStream();
    assert es[..0] == [];
    while |entries| < MAX_ENTRIES
      invariant i <= |es| && offset == StartOf(es, i) && entries == es[..Least(MAX_ENTRIES, i)]
      decreases |es| - i, MAX_ENTRIES - |entries|
    {
      var page := Page(es, 0, offset, CHUNK);
      ghost var k := Fit(es[i..], CHUNK);
      PageFrom(es, 0, i, CHUNK);
      PageProgress(es, i, CHUNK);
      PageAdvances(es, i, CHUNK);
      if |page| == 0 {
        if i < |es| { EmptyPage(es, i, CHUNK); }
        return;
      }
      NoEntries(es, i, k);
      entries := Unpack(page, entries, es[i..][..k]);
      TakenMore(es, i, k);
      offset := offset + |page|;
      i := i + k;
    }
  }

  lemma NoEntries(es: seq<Entry>, i: nat, k: nat)
    requires i + k <= |es|
    ensures k == 0 ==> Stream(es[i..][..k]) == []
  {
  }

  lemma TakenMore(es: seq<Entry>, i: nat, k: nat)
    requires i + k <= |es| && i < MAX_ENTRIES
    ensures es[..i] + es[i..][..k][..Least(MAX_ENTRIES - i, k)] == es[..Least(MAX_ENTRIES, i + k)]
  {
  }

  /** The inner loop: append the page's records while there is space. */
  method Unpack(page: seq<byte>, entries: seq<Entry>, ghost es: seq<Entry>) returns (more: seq<Entry>)
    requires GoodDir(es) && page == Stream(es) && |entries| < MAX_ENTRIES
    ensures more == entries + es[..Least(MAX_ENTRIES - |entries|, |es|)]
  {
    hide Stream, Record;
    more := entries;
    var p := 0;
    ghost var j := 0;
    assert es[0..] == es && page[0..] == page;
    while p < |page| && |more| < MAX_ENTRIES
      invariant p <= |page| && j <= |es| && page[p..] == Stream(es[j..]) && more == entries + es[..j] && |more| <= MAX_ENTRIES
      decreases |page| - p
    {
      StreamNonempty(es, j);
      var b := page[p..];
      ParseOne(es[j], Stream(es[j + 1..]));
      var n := StrLen(b, 8);
      more := more + [Entry(UnLe(b[..8]), b[8..8 + n])];
      assert page[p + 9 + n..] == b[9 + n..];
      p := p + 9 + n;
      j := j + 1;
    }
    StreamNonempty(es, j);
  }

  lemma StreamNonempty(es: seq<Entry>, j: nat)
    requires j <= |es|
    ensures |Stream(es[j..])| == 0 <==> j == |es|
    ensures j < |es| ==> Stream(es[j..]) == Record(es[j]) + Stream(es[j + 1..])
  {
    if j < |es| { assert es[j..][0] == es[j] && es[j..][1..] == es[j + 1..]; }
  }

  // ---- Linux records ----

  /** d_reclen: header, name and NUL, rounded up to eight. */
  function RecLen(e: Entry): (r: nat)
    ensures r % 8 == 0 && 20 + |e.name| <= r < 28 + |e.name|
  {
    (19 + |e.name| + 1 + 7) / 8 * 8
  }

  /** d_ino, d_off, d_reclen, d_type, the name and its NUL. */
  function Head(e: Entry): (h: seq<byte>)
    ensures |h| == 20 + |e.name|
  {
    Le(e.ino, 8) + Le(0, 8) + Le(RecLen(e), 2) + [0] + e.name + [0]
  }

  /** The record of e stands at `at`; the padding behind its name is whatever was there. */
  ghost predicate RecordAt(b: seq<byte>, at: nat, e: Entry) {
    at + RecLen(e) <= |b| && b[at..at + 20 + |e.name|] == Head(e)
  }

  /** The sum of the record lengths. */
  function Length(es: seq<Entry>): nat {
    if es == [] then 0 else RecLen(es[0]) + Length(es[1..])
  }

  lemma {:induction false} LengthSplit(a: seq<Entry>, b: seq<Entry>)
    ensures Length(a + b) == Length(a) + Length(b)
  {
    if a == [] {
      assert a + b == b;
    } else {
      LengthSplit(a[1..], b);
      assert (a + b)[1..] == a[1..] + b;
    }
  }

  lemma LengthNext(es: seq<Entry>, i: nat, k: nat)
    requires i <= k < |es|
    ensures Length(es[i..k + 1]) == Length(es[i..k]) + RecLen(es[k])
  {
    LengthSplit(es[i..k], [es[k]]);
    assert es[i..k] + [es[k]] == es[i..k + 1];
    assert Length([es[k]]) == RecLen(es[k]) + Length([es[k]][1..]);
  }

  /** The records of es stand one after another from `at` on. */
  ghost predicate RecordsAt(b: seq<byte>, at: nat, es: seq<Entry>)
    decreases |es|
  {
    es == [] || (RecordAt(b, at, es[0]) && RecordsAt(b, at + RecLen(es[0]), es[1..]))
  }

  /** A directory entry as a C library sees it. */
  datatype Dirent = Dirent(ino: nat, off: nat, kind: byte, name: seq<byte>)

  /** The reader of a getdents64 buffer: it walks by d_reclen and takes names up to their NUL. */
  function Decode(b: seq<byte>): seq<Dirent>
    decreases |b|
  {
    if |b| < 20 then []
    else
      var n := UnLe(b[16..18]);
      if n < 20 || n > |b| then [] else [Dirent(UnLe(b[..8]), UnLe(b[8..16]), b[18], b[19..19 + StrLen(b, 19)])] + Decode(b[n..])
  }

  /** What it should see: no offset and no kind. */
  function Dirents(es: seq<Entry>): (ds: seq<Dirent>)
    ensures |ds| == |es| && forall i {:trigger ds[i]} | 0 <= i < |es| :: ds[i] == Dirent(es[i].ino, 0, 0, es[i].name)
  {
    seq(|es|, i requires 0 <= i < |es| => Dirent(es[i].ino, 0, 0, es[i].name))
  }

  lemma HeadFields(e: Entry)
    ensures var h := Head(e);
      h[..8] == Le(e.ino, 8) && h[8..16] == Le(0, 8) && h[16..18] == Le(RecLen(e), 2) && h[18] == 0 && h[19 + |e.name|] == 0
      && forall j {:trigger h[j]} | 19 <= j < 19 + |e.name| :: h[j] == e.name[j - 19]
  {
  }

  /** The numbers of a record read back. */
  lemma HeadNumbers(e: Entry)
    requires GoodEntry(e) && |e.name| < 47
    ensures UnLe(Head(e)[..8]) == e.ino && UnLe(Head(e)[8..16]) == 0 && UnLe(Head(e)[16..18]) == RecLen(e) && Head(e)[18] == 0
  {
    HeadFields(e);
    LeRoundTrip(e.ino, 8);
    LeRoundTrip(0, 8);
    assert Pow256(2) == 256 * Pow256(1) && Pow256(1) == 256 * Pow256(0);
    LeRoundTrip(RecLen(e), 2);
  }

  /** The name of a record reads back. */
  lemma HeadName(e: Entry, c: seq<byte>)
    requires GoodEntry(e) && |c| >= 20 + |e.name| && c[..20 + |e.name|] == Head(e)
    ensures c[19..19 + StrLen(c, 19)] == e.name
  {
    hide Head;
    HeadFields(e);
    forall j | 19 <= j < 20 + |e.name| ensures c[j] == Head(e)[j] { assert c[j] == c[..20 + |e.name|][j]; }
    StrLenIs(c, 19, |e.name|);
  }

  lemma ReadRecord(b: seq<byte>, at: nat, e: Entry)
    requires RecordAt(b, at, e) && GoodEntry(e) && |e.name| < 47
    ensures var c := b[at..];
      |c| >= 20 && UnLe(c[16..18]) == RecLen(e) && 20 <= RecLen(e) <= |c| && UnLe(c[..8]) == e.ino && c[19..19 + StrLen(c, 19)] == e.name
      && UnLe(c[8..16]) == 0 && c[18] == 0
  {
    hide Head, UnLe, StrLen;
    var c := b[at..];
    assert c[..20 + |e.name|] == Head(e);
    assert c[..8] == Head(e)[..8] && c[8..16] == Head(e)[8..16] && c[16..18] == Head(e)[16..18];
    assert c[18] == c[..20 + |e.name|][18];
    HeadNumbers(e);
    HeadName(e, c);
  }

  /** What getdents64 wrote decodes to the entries it was made of. */
  lemma {:induction false} DecodeRecords(b: seq<byte>, at: nat, es: seq<Entry>)
    requires RecordsAt(b, at, es) && GoodDir(es) && ShortNames(es) && |b| == at + Length(es)
    ensures Decode(b[at..]) == Dirents(es)
    decreases |es|
  {
    hide RecordAt, RecLen;
    if es != [] {
      ReadRecord(b, at, es[0]);
      DecodeRecords(b, at + RecLen(es[0]), es[1..]);
      assert b[at..][RecLen(es[0])..] == b[at + RecLen(es[0])..];
    }
  }

  lemma {:induction false} RecordsMore(b: seq<byte>, at: nat, es: seq<Entry>, e: Entry)
    requires RecordsAt(b, at, es) && RecordAt(b, at + Length(es), e)
    ensures RecordsAt(b, at, es + [e])
    decreases |es|
  {
    if es != [] {
      RecordsMore(b, at + RecLen(es[0]), es[1..], e);
      assert (es + [e])[1..] == es[1..] + [e];
    } else {
      assert (es + [e])[1..] == [];
    }
  }

  /** Bytes from `at` on do not matter to the records before. */
  lemma {:induction false} RecordsKept(b: seq<byte>, b': seq<byte>, at: nat, es: seq<Entry>)
    requires RecordsAt(b, at, es) && |b'| == |b| && at + Length(es) <= |b| && b'[..at + Length(es)] == b[..at + Length(es)]
    ensures RecordsAt(b', at, es)
    decreases |es|
  {
    if es != [] {
      var e, n := es[0], at + Length(es);
      SameSlice(b, b', n, at, at + 20 + |e.name|);
      hide Head;
      RecordsKept(b, b', at + RecLen(e), es[1..]);
    }
  }

  lemma SameSlice(b: seq<byte>, b': seq<byte>, n: nat, lo: nat, hi: nat)
    requires n <= |b| == |b'| && b'[..n] == b[..n] && lo <= hi <= n
    ensures b'[lo..hi] == b[lo..hi]
  {
    assert b'[lo..hi] == b'[..n][lo..hi];
  }

  /** Copy bytes into a buffer. */
  method Put(buf: array<byte>, at: nat, s: seq<byte>)
    requires at + |s| <= buf.Length
    modifies buf
    ensures buf[..] == old(buf[..])[..at] + s + old(buf[..])[at + |s|..]
  {
    var i := 0;
    while i < |s|
      invariant 0 <= i <= |s|
      invariant forall j | 0 <= j < buf.Length :: buf[j] == if at <= j < at + i then s[j - at] else old(buf[j])
    {
      buf[at + i] := s[i];
      i := i + 1;
    }
  }

  /** One record. */
  method Emit(buf: array<byte>, at: nat, e: Entry)
    requires at + RecLen(e) <= buf.Length
    modifies buf
    ensures RecordAt(buf[..], at, e)
    ensures buf[..at] == old(buf[..at])
    ensures forall j {:trigger buf[j]} | at + RecLen(e) <= j < buf.Length :: buf[j] == old(buf[j])
  {
    hide Head;
    Put(buf, at, Head(e));
    assert buf[..][at..at + 20 + |e.name|] == Head(e);
  }

  lemma NoRecords(es: seq<Entry>, i: nat, b: seq<byte>)
    ensures i <= |es| ==> Length(es[i..i]) == 0 && RecordsAt(b, 0, es[i..i])
  {
  }

  /** getdents64 on a directory with entries es, for a caller whose file offset is `index`: the
      entries from there on that fit, of the first thirty-two. */
  method Getdents(es: seq<Entry>, index: nat, buf: array<byte>, count: nat) returns (written: nat, next: nat)
    requires GoodDir(es) && ShortNames(es) && count <= buf.Length
    modifies buf
    ensures var n := Least(32, |es|);
      && (index >= n ==> next == index && written == 0)
      && (index < n ==> index <= next <= n && written == Length(es[index..next]) <= count)
      && (index < n ==> RecordsAt(buf[..], 0, es[index..next]))
      && (index < n && next < n ==> Length(es[index..next + 1]) > count)
    ensures written <= buf.Length && forall j {:trigger buf[j]} | written <= j < buf.Length :: buf[j] == old(buf[j])
  {
    hide RecordAt, RecLen, Length, RecordsAt;
    NoRecords(es, index, buf[..]);
    var entries := Collect(es);
    ghost var n := Least(MAX_ENTRIES, |es|);
    written, next := 0, index;
    while next < |entries|
      invariant index >= n ==> next == index && written == 0
      invariant index < n ==> index <= next <= n && written == Length(es[index..next]) <= count && RecordsAt(buf[..], 0, es[index..next])
      invariant written <= buf.Length && forall j {:trigger buf[j]} | written <= j < buf.Length :: buf[j] == old(buf[j])
      decreases n - next
    {
      var reclen := RecLen(entries[next]);
      LengthNext(es, index, next);
      if written + reclen > count { return; }
      ghost var b := buf[..];
      Emit(buf, written, entries[next]);
      assert buf[..][..written] == buf[..written] && b[..written] == b[..][..written];
      RecordsKept(b, buf[..], 0, es[index..next]);
      RecordsMore(buf[..], 0, es[index..next], es[next]);
      assert es[index..next] + [es[next]] == es[index..next + 1];
      written := written + reclen;
      next := next + 1;
    }
  }

  /** Calling getdents64 until it returns 0, with a buffer that holds the largest record, and decoding
      each result, yields the first thirty-two entries of the directory, each once and in order. */
  method ReadDirectory(es: seq<Entry>, count: nat) returns (all: seq<Dirent>)
    requires GoodDir(es) && ShortNames(es) && forall i {:trigger es[i]} | 0 <= i < |es| :: RecLen(es[i]) <= count
    ensures all == Dirents(es[..Least(32, |es|)])
  {
    hide RecordsAt, RecLen, Decode, Length;
    var buf := new byte[count];
    all := [];
    var index := 0;
    ghost var n := Least(MAX_ENTRIES, |es|);
    while true
      invariant index <= n && all == Dirents(es[..index])
      decreases n - index
    {
      var written, next := Getdents(es, index, buf, count);
      if written == 0 {
        OneFits(es, index, next, count);
        return;
      }
      DecodePart(es, index, next, buf[..], written);
      all := all + Decode(buf[..written]);
      assert es[..index] + es[index..next] == es[..next];
      LengthNone(es, index);
      index := next;
    }
  }

  lemma LengthNone(es: seq<Entry>, i: nat)
    requires i <= |es|
    ensures Length(es[i..i]) == 0
  {
  }

  lemma OneFits(es: seq<Entry>, index: nat, next: nat, count: nat)
    requires index <= |es| && forall i {:trigger es[i]} | 0 <= i < |es| :: RecLen(es[i]) <= count
    requires var n := Least(MAX_ENTRIES, |es|);
      index <= n && (index < n ==> index <= next <= n && Length(es[index..next]) == 0)
      && (index < n && next < n ==> Length(es[index..next + 1]) > count)
    ensures index == Least(MAX_ENTRIES, |es|)
  {
    if index < Least(MAX_ENTRIES, |es|) {
      if next == index {
        LengthNext(es, index, index);
      }
    }
  }

  lemma DecodePart(es: seq<Entry>, lo: nat, hi: nat, b: seq<byte>, n: nat)
    requires GoodDir(es) && ShortNames(es) && lo <= hi <= |es| && RecordsAt(b, 0, es[lo..hi]) && n == Length(es[lo..hi]) <= |b|
    ensures Decode(b[..n]) == Dirents(es[lo..hi])
  {
    RecordsWithin(b, n, 0, es[lo..hi]);
    DecodeRecords(b[..n], 0, es[lo..hi]);
    assert b[..n][0..] == b[..n];
  }

  lemma {:induction false} RecordsWithin(b: seq<byte>, n: nat, at: nat, es: seq<Entry>)
    requires RecordsAt(b, at, es) && at + Length(es) == n <= |b|
    ensures RecordsAt(b[..n], at, es)
    decreases |es|
  {
    if es != [] {
      var e := es[0];
      assert b[..n][at..at + 20 + |e.name|] == b[at..at + 20 + |e.name|];
      RecordsWithin(b, n, at + RecLen(e), es[1..]);
    }
  }
}
