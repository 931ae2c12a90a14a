/** Path strings and the components they name. */
module PathNames {
  import opened Bytes

  const SLASH: byte := 47
  const DOT: byte := 46

  type Name = seq<byte>
  type Path = seq<Name>

  /** The position after the slashes at p. */
  function SkipSlashes(s: seq<byte>, p: nat): (q: nat)
    requires p <= |s|
    ensures p <= q <= |s| && (q < |s| ==> s[q] != SLASH)
    decreases |s| - p
  {
    if p < |s| && s[p] == SLASH then SkipSlashes(s, p + 1) else p
  }

  /** The end of the component at p. */
  function ComponentEnd(s: seq<byte>, p: nat): (q: nat)
    requires p <= |s|
    ensures p <= q <= |s| && (q < |s| ==> s[q] == SLASH) && (p < |s| && s[p] != SLASH ==> p < q)
    decreases |s| - p
  {
    if p < |s| && s[p] != SLASH then ComponentEnd(s, p + 1) else p
  }

  /** The components from p on, any number of slashes between them. */
  function Split(s: seq<byte>, p: nat): Path
    requires p <= |s| && (p < |s| ==> s[p] != SLASH)
    decreases |s| - p
  {
    if p == |s| then [] else
    var q := ComponentEnd(s, p);
    [s[p..q]] + Split(s, SkipSlashes(s, q))
  }

  /** Where an archive path starts: behind one "./" and all slashes. */
  function ArchiveStart(s: seq<byte>): (p: nat)
    ensures p <= |s| && (p < |s| ==> s[p] != SLASH)
  {
    SkipSlashes(s, if |s| >= 2 && s[0] == DOT && s[1] == SLASH then 2 else 0)
  }

  function ArchivePath(s: seq<byte>): Path { Split(s, ArchiveStart(s)) }

  /** The components of a path to look up: slashes in front do not count, one slash between
      components; a second slash in a row names an empty component. */
  function LookupSplit(s: seq<byte>, p: nat): Path
    requires p <= |s|
    decreases |s| - p
  {
    if p == |s| then [] else
    var q := ComponentEnd(s, p);
    if q == |s| then [s[p..q]] else [s[p..q]] + LookupSplit(s, q + 1)
  }

  function LookupPath(s: seq<byte>): Path { LookupSplit(s, SkipSlashes(s, 0)) }

  // ---- writing paths ----

  ghost predicate GoodName(n: Name) { 0 < |n| < 99 && forall i | 0 <= i < |n| :: n[i] != 47 && n[i] != 0 }

  ghost predicate GoodPath(p: Path) { forall i {:trigger p[i]} | 0 <= i < |p| :: GoodName(p[i]) }

  /** The components joined by single slashes, byte 47. */
  function Join(p: Path): seq<byte> {
    if |p| == 0 then [] else if |p| == 1 then p[0] else p[0] + [47] + Join(p[1..])
  }

  lemma {:induction false} EndAfter(s: seq<byte>, p: nat, n: Name)
    requires GoodName(n) && p + |n| <= |s| && s[p..p + |n|] == n && (p + |n| < |s| ==> s[p + |n|] == SLASH)
    ensures ComponentEnd(s, p) == p + |n|
  {
    assert forall j | p <= j < p + |n| :: s[j] == s[p..p + |n|][j - p];
    EndIs(s, p, p + |n|);
  }

  lemma {:induction false} EndIs(s: seq<byte>, p: nat, q: nat)
    requires p <= q <= |s| && (q < |s| ==> s[q] == SLASH) && forall j | p <= j < q :: s[j] != SLASH
    ensures ComponentEnd(s, p) == q
    decreases q - p
  {
    if p < q { EndIs(s, p + 1, q); }
  }

  lemma JoinParts(p: Path)
    requires |p| > 1
    ensures Join(p)[..|p[0]|] == p[0] && |Join(p)| > |p[0]| && Join(p)[|p[0]|] == SLASH && Join(p)[|p[0]| + 1..] == Join(p[1..])
  {
  }

  /** The first component of a joined path and what follows it. */
  lemma JoinStep(pre: seq<byte>, p: Path)
    requires |p| > 1 && GoodPath(p)
    ensures var s, q := pre + Join(p), |pre| + |p[0]|;
      && q < |s| && s[|pre|..q] == p[0] && s[q] == SLASH && s == (pre + p[0] + [SLASH]) + Join(p[1..])
      && ComponentEnd(s, |pre|) == q && |pre + p[0] + [SLASH]| == q + 1
  {
    JoinParts(p);
    var s := pre + Join(p);
    assert s[|pre|..|pre| + |p[0]|] == p[0];
    EndAfter(s, |pre|, p[0]);
  }

  /** Looking up a joined path looks up its components, with or without a slash in front. */
  lemma {:induction false} LookupJoin(pre: seq<byte>, p: Path)
    requires GoodPath(p)
    ensures LookupSplit(pre + Join(p), |pre|) == p
    decreases |p|
  {
    hide ComponentEnd;
    var s := pre + Join(p);
    if |p| == 1 {
      assert s[|pre|..|pre| + |p[0]|] == p[0];
      EndAfter(s, |pre|, p[0]);
    } else if |p| > 1 {
      JoinStep(pre, p);
      hide Join;
      LookupJoin(pre + p[0] + [SLASH], p[1..]);
    }
  }

  lemma JoinStarts(p: Path)
    requires GoodPath(p) && |p| > 0
    ensures |Join(p)| > 0 && Join(p)[0] == p[0][0] != SLASH
  {
  }

  ghost predicate Slashes(s: seq<byte>) { forall i | 0 <= i < |s| :: s[i] == 47 }

  /** The same for an archive path, with or without slashes behind it. */
  lemma {:induction false} SplitJoin(pre: seq<byte>, p: Path, tail: seq<byte>)
    requires GoodPath(p) && |p| > 0 && Slashes(tail)
    ensures |Join(p)| > 0 && Join(p)[0] != SLASH
    ensures Split(pre + (Join(p) + tail), |pre|) == p
    decreases |p|
  {
    hide Split, ComponentEnd, SkipSlashes;
    var s := pre + (Join(p) + tail);
    JoinStarts(p);
    assert s[|pre|] == Join(p)[0];
    if |p| == 1 {
      var q := |pre| + |p[0]|;
      assert s[|pre|..q] == p[0] && p == [p[0]] && forall i | q <= i < |s| :: s[i] == tail[i - q];
      EndAfter(s, |pre|, p[0]);
      SkipAll(s, q);
      SplitEnd(s, |pre|, q);
    } else {
      JoinParts(p);
      assert s[|pre|..|pre| + |p[0]|] == p[0] && s[|pre| + |p[0]|] == SLASH;
      EndAfter(s, |pre|, p[0]);
      var pre' := pre + p[0] + [SLASH];
      assert s == pre' + (Join(p[1..]) + tail);
      SplitJoin(pre', p[1..], tail);
      assert s[|pre'|] == Join(p[1..])[0];
      SplitNext(s, |pre|, |pre| + |p[0]|);
      assert p == [p[0]] + p[1..];
    }
  }

  lemma {:induction false} SkipAll(s: seq<byte>, p: nat)
    requires p <= |s| && forall i | p <= i < |s| :: s[i] == SLASH
    ensures SkipSlashes(s, p) == |s|
    decreases |s| - p
  {
    if p < |s| { SkipAll(s, p + 1); }
  }

  lemma SplitEnd(s: seq<byte>, p: nat, q: nat)
    requires p < q <= |s| && s[p] != SLASH && ComponentEnd(s, p) == q && SkipSlashes(s, q) == |s|
    ensures Split(s, p) == [s[p..q]]
  {
  }

  lemma SplitNext(s: seq<byte>, p: nat, q: nat)
    requires p < q && q + 1 <= |s| && s[p] != SLASH && ComponentEnd(s, p) == q && s[q] == SLASH && (q + 1 < |s| ==> s[q + 1] != SLASH)
    ensures Split(s, p) == [s[p..q]] + Split(s, q + 1)
  {
    assert SkipSlashes(s, q + 1) == q + 1 && SkipSlashes(s, q) == q + 1;
  }
}
