/** Directory streams: the records a readdir emits, reading them page by page, and the Linux records
    getdents64 makes of them. */
module DirectoryStreams {
  import opened Options
  import opened Bytes

  /** A directory entry. */
  datatype Entry = Entry(ino: nat, name: seq<byte>)

  ghost predicate GoodEntry(e: Entry) { e.ino < Pow256(8) && ZeroFree(e.name) }

  ghost predicate GoodDir(es: seq<Entry>) { forall i {:trigger es[i]} | 0 <= i < |es| :: GoodEntry(es[i]) }

  /** Eight bytes of inode number, the name, a NUL. */
  function Record(e: Entry): (r: seq<byte>)
    ensures |r| == 9 + |e.name|
  {
    Le(e.ino, 8) + e.name + [0]
  }

  function Stream(es: seq<Entry>): seq<byte> {
    if es == [] then [] else Record(es[0]) + Stream(es[1..])
  }

  lemma {:induction false} StreamSplit(a: seq<Entry>, b: seq<Entry>)
    ensures Stream(a + b) == Stream(a) + Stream(b)
  {
    if a == [] {
      assert a + b == b;
    } else {
      StreamSplit(a[1..], b);
      assert (a + b)[1..] == a[1..] + b;
    }
  }

  /** Where entry i starts. */
  function StartOf(es: seq<Entry>, i: nat): nat
    requires i <= |es|
  {
    |Stream(es[..i])|
  }

  // ---- one page ----

  /** What a readdir loop emits: it passes over records that start before `offset`, then emits whole
      records while they fit, and stops at the first that does not. */
  function Page(es: seq<Entry>, pos: nat, offset: nat, room: nat): (r: seq<byte>)
    ensures |r| <= room
    decreases |es|
  {
    if es == [] then []
    else
      var n := |Record(es[0])|;
      if pos < offset then Page(es[1..], pos + n, offset, room)
      else if n > room then []
      else Record(es[0]) + Page(es[1..], pos + n, offset, room - n)
  }

  /** How many entries, from the first one on, fit in `room` bytes. */
  function Fit(es: seq<Entry>, room: nat): (k: nat)
    ensures k <= |es|
    decreases |es|
  {
    if es == [] || |Record(es[0])| > room then 0 else 1 + Fit(es[1..], room - |Record(es[0])|)
  }

  /** As many as fit, and no more would. */
  lemma {:induction false} FitIsMost(es: seq<Entry>, room: nat)
    ensures |Stream(es[..Fit(es, room)])| <= room
    ensures Fit(es, room) < |es| ==> |Stream(es[..Fit(es, room) + 1])| > room
    decreases |es|
  {
    if es != [] {
      assert Stream([es[0]] + []) == Record(es[0]) + Stream([]) by { assert ([es[0]] + [])[1..] == []; }
      assert es[..1] == [es[0]];
      if |Record(es[0])| <= room {
        var rest, k := es[1..], Fit(es[1..], room - |Record(es[0])|);
        FitIsMost(rest, room - |Record(es[0])|);
        assert es[..k + 1][1..] == rest[..k] && es[..k + 1][0] == es[0];
        if k < |rest| { assert es[..k + 2][1..] == rest[..k + 1] && es[..k + 2][0] == es[0]; }
      }
    }
  }

  lemma {:induction false} PageHere(es: seq<Entry>, pos: nat, offset: nat, room: nat)
    requires offset <= pos
    ensures Page(es, pos, offset, room) == Stream(es[..Fit(es, room)])
    decreases |es|
  {
    if es != [] && |Record(es[0])| <= room {
      var k := Fit(es[1..], room - |Record(es[0])|);
      PageHere(es[1..], pos + |Record(es[0])|, offset, room - |Record(es[0])|);
      assert es[..k + 1][1..] == es[1..][..k];
    }
  }

  /** A page asked for at the start of entry i holds the entries from i on that fit. */
  lemma {:induction false} PageFrom(es: seq<Entry>, pos: nat, i: nat, room: nat)
    requires i <= |es|
    ensures Page(es, pos, pos + StartOf(es, i), room) == Stream(es[i..][..Fit(es[i..], room)])
    decreases i
  {
    if i == 0 {
      assert es[0..] == es;
      PageHere(es, pos, pos, room);
    } else {
      var n := |Record(es[0])|;
      assert es[..i][1..] == es[1..][..i - 1] && es[..i][0] == es[0];
      PageFrom(es[1..], pos + n, i - 1, room);
      assert es[1..][i - 1..] == es[i..];
    }
  }

  /** With room for the largest record, a page is empty only at the end of the directory. */
  lemma PageProgress(es: seq<Entry>, i: nat, room: nat)
    requires i <= |es| && forall k {:trigger es[k]} | 0 <= k < |es| :: |Record(es[k])| <= room
    ensures Fit(es[i..], room) > 0 <==> i < |es|
  {
    if i < |es| { assert es[i..][0] == es[i]; }
  }

  /** Advancing by the length of a page leads to the start of the entry after it. */
  lemma PageAdvances(es: seq<Entry>, i: nat, room: nat)
    requires i <= |es|
    ensures var k := Fit(es[i..], room);
      i + k <= |es| && StartOf(es, i) + |Page(es, 0, StartOf(es, i), room)| == StartOf(es, i + k)
  {
    PageFrom(es, 0, i, room);
    var k := Fit(es[i..], room);
    StreamSplit(es[..i], es[i..][..k]);
    assert es[..i] + es[i..][..k] == es[..i + k];
  }

  /** Reading a whole directory with any buffer sizes that hold the largest record, the offset
      advanced by each result: the pages are the record stream, each record once and in order. */
  method ReadWhole(es: seq<Entry>, rooms: nat -> nat) returns (all: seq<byte>)
    requires forall c, k {:trigger rooms(c), es[k]} | 0 <= k < |es| :: |Record(es[k])| <= rooms(c)
    ensures all == Stream(es)
  {
    hide Page, Fit, Stream;
    all := [];
    EmptyStream();
    var offset, call := 0, 0;
    ghost var i := 0;
    assert es[..0] == [];
    while true
      invariant i <= |es| && offset == StartOf(es, i) && all == Stream(es[..i])
      decreases |es| - i
    {
      var room := rooms(call);
      var page := Page(es, 0, offset, room);
      PageFrom(es, 0, i, room);
      PageProgress(es, i, room);
      PageAdvances(es, i, room);
      if |page| == 0 {
        if i < |es| { EmptyPage(es, i, room); }
        assert es[..|es|] == es;
        return;
      }
      ghost var k := Fit(es[i..], room);
      StreamSplit(es[..i], es[i..][..k]);
      assert es[..i] + es[i..][..k] == es[..i + k];
      all := all + page;
      offset := offset + |page|;
      call := call + 1;
      i := i + k;
    }
  }

  lemma EmptyStream()
    ensures Stream([]) == []
  {
  }

  lemma EmptyPage(es: seq<Entry>, i: nat, room: nat)
    requires i < |es| && Fit(es[i..], room) > 0
    ensures |Stream(es[i..][..Fit(es[i..], room)])| > 0
  {
    var p := es[i..][..Fit(es[i..], room)];
    assert Stream(p) == Record(p[0]) + Stream(p[1..]);
  }

  // ---- writing one page ----

  /** One record further in the stream. */
  lemma PageStep(e: Entry, rest: seq<Entry>, pos: nat, offset: nat, room: nat)
    ensures var n := |Record(e)|;
      Page([e] + rest, pos, offset, room) ==
        if pos < offset then Page(rest, pos + n, offset, room)
        else if n > room then [] else Record(e) + Page(rest, pos + n, offset, room - n)
  {
    assert ([e] + rest)[1..] == rest;
  }

  /** The loop state of readdir: what has been written, where the stream is, whether the buffer is full. */
  datatype Cursor = Cursor(out: seq<byte>, pos: nat, full: bool)

  /** `rest` is all that is still to come. */
  ghost predicate Reaches(c: Cursor, rest: seq<Entry>, offset: nat, count: nat, goal: seq<byte>) {
    |c.out| <= count && goal == c.out + (if c.full then [] else Page(rest, c.pos, offset, count - |c.out|))
  }

  /** Pass over, emit, or stop at one record. */
  function Add(c: Cursor, e: Entry, offset: nat, count: nat): Cursor {
    var n := |Record(e)|;
    if c.pos < offset then c.(pos := c.pos + n)
    else if |c.out| + n > count then c.(full := true)
    else Cursor(c.out + Record(e), c.pos + n, false)
  }

  lemma AddReaches(c: Cursor, e: Entry, more: seq<Entry>, offset: nat, count: nat, goal: seq<byte>)
    requires !c.full && Reaches(c, [e] + more, offset, count, goal)
    ensures Reaches(Add(c, e, offset, count), more, offset, count, goal)
  {
    hide Page, Record;
    PageStep(e, more, c.pos, offset, count - |c.out|);
    AppendAssoc(c.out, Record(e), Page(more, c.pos + |Record(e)|, offset, if c.pos >= offset && |c.out| + |Record(e)| <= count then count - |c.out| - |Record(e)| else 0));
  }

  lemma AppendAssoc(a: seq<byte>, b: seq<byte>, c: seq<byte>)
    ensures a + (b + c) == a + b + c
  {
  }

  lemma FullReaches(c: Cursor, a: seq<Entry>, b: seq<Entry>, offset: nat, count: nat, goal: seq<byte>)
    requires c.full && Reaches(c, a, offset, count, goal)
    ensures Reaches(c, b, offset, count, goal)
  {
  }

  lemma NoMore(pos: nat, offset: nat, room: nat)
    ensures Page([], pos, offset, room) == []
  {
  }
}
