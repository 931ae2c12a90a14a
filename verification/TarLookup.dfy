/** Reading directories of an archive and walking paths through them, as the virtual file system does. */
module TarLookup {
  import opened Options
  import opened Bytes
  import opened PathNames
  import opened DirectoryStreams
  import opened DirectoryEntries
  import opened TarTree
  import opened TarMeaning

  // ---- a directory's entries ----

  /** The children of p among the nodes below n, newest first. */
  function Kids(nodes: seq<Node>, par: seq<nat>, p: nat, n: nat): seq<Entry>
    requires n <= |nodes| == |par|
    decreases n
  {
    if n <= 1 then []
    else if par[n - 1] == p then [Entry(n - 1, nodes[n - 1].name)] + Kids(nodes, par, p, n - 1)
    else Kids(nodes, par, p, n - 1)
  }

  /** They are what the links lead through. */
  lemma {:induction false} KidsFollowLinks(nodes: seq<Node>, par: seq<nat>, p: nat, n: nat)
    requires n <= |nodes| == |par|
    ensures var i := LastBelow(par, p, n);
      Kids(nodes, par, p, n) == if i == -1 then [] else [Entry(i, nodes[i].name)] + Kids(nodes, par, p, i)
    decreases n
  {
    if n > 1 && par[n - 1] != p { KidsFollowLinks(nodes, par, p, n - 1); }
  }

  /** Exactly the children, each with its own name. */
  lemma {:induction false} KidsAre(nodes: seq<Node>, par: seq<nat>, p: nat, n: nat, e: Entry)
    requires n <= |nodes| == |par|
    ensures e in Kids(nodes, par, p, n) <==> 0 < e.ino < n && par[e.ino] == p && e.name == nodes[e.ino].name
    decreases n
  {
    if n > 1 { KidsAre(nodes, par, p, n - 1, e); }
  }

  /** Numbers only fall, so none stands twice. */
  ghost predicate Falling(es: seq<Entry>) { forall j, k {:trigger es[j], es[k]} | 0 <= j < k < |es| :: es[k].ino < es[j].ino }

  /** The newest child comes first, and each comes once. */
  lemma {:induction false} KidsInOrder(nodes: seq<Node>, par: seq<nat>, p: nat, n: nat)
    requires n <= |nodes| == |par|
    ensures Falling(Kids(nodes, par, p, n))
    decreases n
  {
    hide Falling;
    if n <= 1 {
      NoneFall();
    } else {
      KidsInOrder(nodes, par, p, n - 1);
      var rest := Kids(nodes, par, p, n - 1);
      forall e | e in rest ensures e.ino < n - 1 { KidsAre(nodes, par, p, n - 1, e); }
      FirstFalls(Entry(n - 1, nodes[n - 1].name), rest);
    }
  }

  lemma NoneFall()
    ensures Falling([])
  {
  }

  lemma FirstFalls(e: Entry, rest: seq<Entry>)
    requires (forall x {:trigger x in rest} | x in rest :: x.ino < e.ino) && Falling(rest)
    ensures Falling([e] + rest)
  {
    var es := [e] + rest;
    forall j, k | 0 <= j < k < |es| ensures es[k].ino < es[j].ino {
      assert es[k] == rest[k - 1] && rest[k - 1] in rest;
      if j > 0 { assert es[j] == rest[j - 1]; }
    }
  }

  lemma KidsGood(nodes: seq<Node>, par: seq<nat>, paths: seq<Path>, p: nat)
    requires Tree(nodes, par, paths) && |nodes| < 0x8000_0000
    ensures GoodDir(Kids(nodes, par, p, |nodes|))
    ensures forall k {:trigger Kids(nodes, par, p, |nodes|)[k]} | 0 <= k < |Kids(nodes, par, p, |nodes|)| :: |Kids(nodes, par, p, |nodes|)[k].name| < 99
  {
    var es := Kids(nodes, par, p, |nodes|);
    forall k | 0 <= k < |es| ensures GoodEntry(es[k]) && |es[k].name| < 99 {
      KidsAre(nodes, par, p, |nodes|, es[k]);
      assert es[k] in es;
      assert Hangs(nodes, par, paths, es[k].ino);
      BigEnough();
    }
  }

  lemma BigEnough()
    ensures Pow256(8) > 0x8000_0000
  {
    assert Pow256(1) == 256 && Pow256(2) == 256 * 256 && Pow256(3) == 256 * 256 * 256 && Pow256(4) == 0x1_0000_0000;
    assert Pow256(5) >= Pow256(4) && Pow256(6) >= Pow256(5) && Pow256(7) >= Pow256(6) && Pow256(8) >= Pow256(7);
  }

  /** tar_readdir: a page of the record stream of the children, or an error on a file. */
  method Readdir(t: Table, node: nat, offset: nat, count: nat) returns (ok: bool, out: seq<byte>)
    requires t.Valid() && node < t.num
    ensures ok <==> t.nodes[node].isDir
    ensures ok ==> t.num == |t.par| && out == Page(Kids(t.nodes[..t.num], t.par, node, t.num), 0, offset, count)
    ensures !ok ==> out == []
  {
    hide Page, Reaches, Add;
    if !t.nodes[node].isDir { return false, []; }
    ghost var nodes, par := t.nodes[..t.num], t.par;
    RootPath(nodes, par, t.paths);
    var child := t.nodes[node].firstChild;
    assert nodes[node].firstChild == child;
    ghost var n := t.num;
    ghost var goal := Page(Kids(nodes, par, node, t.num), 0, offset, count);
    var c := Cursor([], 0, false);
    StartReaches(Kids(nodes, par, node, t.num), offset, count);
    while child != -1 && !c.full
      invariant 0 <= n <= t.num && child == LastBelow(par, node, n)
      invariant Reaches(c, Kids(nodes, par, node, n), offset, count, goal)
      decreases n, !c.full
    {
      KidsFollowLinks(nodes, par, node, n);
      var e := Entry(child, t.nodes[child].name);
      AddReaches(c, e, Kids(nodes, par, node, child), offset, count, goal);
      c := Add(c, e, offset, count);
      assert Hangs(nodes, par, t.paths, child) && nodes[child] == t.nodes[child];
      n := child;
      child := t.nodes[child].nextSibling;
    }
    KidsFollowLinks(nodes, par, node, n);
    EndReaches(c, Kids(nodes, par, node, n), offset, count, goal);
    ok, out := true, c.out;
  }

  lemma StartReaches(es: seq<Entry>, offset: nat, count: nat)
    ensures Reaches(Cursor([], 0, false), es, offset, count, Page(es, 0, offset, count))
  {
  }

  lemma EndReaches(c: Cursor, rest: seq<Entry>, offset: nat, count: nat, goal: seq<byte>)
    requires Reaches(c, rest, offset, count, goal) && (c.full || rest == [])
    ensures goal == c.out
  {
  }

  // ---- one component ----

  /** Nobody among the first i entries has this name. */
  ghost predicate Absent(es: seq<Entry>, i: nat, name: Name)
    requires i <= |es|
  {
    forall k {:trigger es[k]} | 0 <= k < i :: es[k].name != name
  }

  /** The search of lookup_path in one directory, by pages of 512 bytes. */
  method FindName(t: Table, node: nat, name: Name) returns (r: int)
    requires t.Valid() && node < t.num < 0x8000_0000
    ensures r == -1 || 0 <= r < t.num
    ensures !t.nodes[node].isDir ==> r == -1
    ensures t.nodes[node].isDir ==>
      var es := Kids(t.nodes[..t.num], t.par, node, |t.par|);
      if r == -1 then Absent(es, |es|, name) else Entry(r, name) in es
  {
    hide Page, Kids, Stream, Fit;
    RootPath(t.nodes[..t.num], t.par, t.paths);
    ghost var es := Kids(t.nodes[..t.num], t.par, node, t.num);
    KidsGood(t.nodes[..t.num], t.par, t.paths, node);
    var offset := 0;
    ghost var i: nat := 0;
    EmptyStream();
    assert es[..0] == [];
    while true
      invariant i <= |es| && offset == StartOf(es, i) && Absent(es, i, name)
      decreases |es| - i
    {
      var ok, page := Readdir(t, node, offset, 512);
      if !ok { return -1; }
      ghost var k := Fit(es[i..], 512);
      PageFrom(es, 0, i, 512);
      PageProgress(es, i, 512);
      PageAdvances(es, i, 512);
      if |page| == 0 {
        if i < |es| { EmptyPage(es, i, 512); }
        return -1;
      }
      r := Scan(page, name, es[i..][..k]);
      if r != -1 {
        FoundIn(t.nodes[..t.num], t.par, node, es, i, k, r, name);
        return;
      }
      AbsentMore(es, i, k, name);
      NoEntries(es, i, k);
      offset := offset + |page|;
      i := i + k;
    }
  }

  lemma AbsentMore(es: seq<Entry>, i: nat, k: nat, name: Name)
    requires i + k <= |es| && Absent(es, i, name) && Absent(es[i..][..k], k, name)
    ensures Absent(es, i + k, name)
  {
    forall j | 0 <= j < i + k ensures es[j].name != name {
      if j >= i { assert es[i..][..k][j - i] == es[j]; }
    }
  }

  lemma FoundIn(nodes: seq<Node>, par: seq<nat>, node: nat, es: seq<Entry>, i: nat, k: nat, r: nat, name: Name)
    requires |nodes| == |par| && es == Kids(nodes, par, node, |par|) && i + k <= |es| && Entry(r, name) in es[i..][..k]
    ensures Entry(r, name) in es && r < |nodes|
  {
    var j :| 0 <= j < k && es[i..][..k][j] == Entry(r, name);
    assert es[i + j] == Entry(r, name);
    KidsAre(nodes, par, node, |par|, Entry(r, name));
  }

  /** One page: the number of the first record with this name, or -1. */
  method Scan(page: seq<byte>, name: Name, ghost es: seq<Entry>) returns (r: int)
    requires GoodDir(es) && page == Stream(es)
    ensures if r == -1 then Absent(es, |es|, name) else r >= 0 && Entry(r, name) in es
  {
    hide Stream, Record;
    var p := 0;
    ghost var j := 0;
    assert es[0..] == es && page[0..] == page;
    while p < |page|
      invariant p <= |page| && j <= |es| && page[p..] == Stream(es[j..]) && Absent(es, j, name)
      decreases |page| - p
    {
      StreamNonempty(es, j);
      var b := page[p..];
      ParseOne(es[j], Stream(es[j + 1..]));
      var n := StrLen(b, 8);
      if b[8..8 + n] == name {
        r := UnLe(b[..8]);
        assert es[j] == Entry(r, name);
        return;
      }
      assert page[p + 9 + n..] == b[9 + n..];
      p := p + 9 + n;
      j := j + 1;
    }
    StreamNonempty(es, j);
    r := -1;
  }

  // ---- whole paths ----

  /** p exists and leads through directories only. */
  ghost predicate Reach(m: map<Path, Info>, p: Path) {
    p in m && forall k {:trigger p[..k]} | 0 <= k < |p| :: p[..k] in m && m[p[..k]].isDir
  }

  /** Every prefix of a path in the table is in the table, and every component is a proper name. */
  lemma {:induction false} PrefixesThere(nodes: seq<Node>, par: seq<nat>, paths: seq<Path>, i: nat, k: nat)
    requires Tree(nodes, par, paths) && i < |nodes| && k <= |paths[i]|
    ensures paths[i][..k] in paths && GoodPath(paths[i])
    decreases i
  {
    if i > 0 {
      assert Hangs(nodes, par, paths, i);
      var q := paths[par[i]];
      PrefixesThere(nodes, par, paths, par[i], if k <= |q| then k else 0);
      if k <= |q| { assert paths[i][..k] == q[..k]; } else { assert paths[i][..k] == paths[i]; }
    } else {
      assert paths[i][..k] == paths[0];
    }
  }

  /** A name that the directory at cur does not have: no path goes on that way. */
  lemma NoWay(nodes: seq<Node>, par: seq<nat>, paths: seq<Path>, cur: nat, p: Path, k: nat, name: Name)
    requires Tree(nodes, par, paths) && cur < |nodes| && k < |p| && paths[cur] == p[..k] && p[k] == name
    requires Absent(Kids(nodes, par, cur, |par|), |Kids(nodes, par, cur, |par|)|, name) || !GoodName(name)
    ensures p !in Files(nodes, paths)
  {
    if p in paths {
      var i := IndexOf(paths, p);
      PrefixesThere(nodes, par, paths, i, k + 1);
      var j := IndexOf(paths, p[..k + 1]);
      assert p[..k + 1] == paths[cur] + [name];
      assert j > 0;
      ChildPath(nodes, par, paths, cur, j, name);
      KidsAre(nodes, par, cur, |par|, Entry(j, name));
    }
  }

  lemma SameSize(nodes: seq<Node>, par: seq<nat>, paths: seq<Path>)
    requires Tree(nodes, par, paths)
    ensures |nodes| == |par| == |paths|
  {
  }

  /** The child found sits at the longer path. */
  lemma OneFurther(nodes: seq<Node>, par: seq<nat>, paths: seq<Path>, cur: nat, p: Path, k: nat, r: nat)
    requires Tree(nodes, par, paths) && cur < |nodes| && k < |p| && paths[cur] == p[..k]
    requires Entry(r, p[k]) in Kids(nodes, par, cur, |par|)
    ensures r < |nodes| && paths[r] == p[..k + 1]
  {
    SameSize(nodes, par, paths);
    hide Tree, Kids;
    KidsAre(nodes, par, cur, |par|, Entry(r, p[k]));
    ChildPath(nodes, par, paths, cur, r, p[k]);
    assert p[..k + 1] == p[..k] + [p[k]];
  }

  /** Copy one component of a path to look up, at most 255 bytes of it. */
  method CopyLookup(s: seq<byte>, p: nat) returns (c: Name, q: nat)
    requires p < |s|
    ensures p <= q <= ComponentEnd(s, p) && c == s[p..q] && (ComponentEnd(s, p) - p <= 255 ==> q == ComponentEnd(s, p))
    ensures ComponentEnd(s, p) - p > 255 ==> |c| == 255
  {
    q, c := p, [];
    while q < |s| && s[q] != SLASH && |c| < 255
      invariant p <= q <= |s| && c == s[p..q] && ComponentEnd(s, q) == ComponentEnd(s, p) && |c| <= 255
    {
      assert s[p..q + 1] == s[p..q] + [s[q]];
      c := c + [s[q]];
      q := q + 1;
    }
  }

  lemma SplitLookup(s: seq<byte>, p: nat)
    requires p <= |s|
    ensures p == |s| ==> LookupSplit(s, p) == []
    ensures p < |s| ==>
      var q := ComponentEnd(s, p);
      && |LookupSplit(s, p)| > 0 && LookupSplit(s, p)[0] == s[p..q]
      && LookupSplit(s, p)[1..] == LookupSplit(s, if q == |s| then q else q + 1)
  {
  }

  /** The first k components lead through directories. */
  ghost predicate DirsTo(m: map<Path, Info>, p: Path, k: nat)
    requires k <= |p|
  {
    forall j {:trigger p[..j]} | 0 <= j < k :: p[..j] in m && m[p[..j]].isDir
  }

  /** No entry has a name longer than its field. */
  lemma NoLongName(nodes: seq<Node>, par: seq<nat>, paths: seq<Path>, p: nat, r: nat, name: Name)
    requires Tree(nodes, par, paths) && Entry(r, name) in Kids(nodes, par, p, |par|)
    ensures GoodName(name) && |name| < 99
  {
    KidsAre(nodes, par, p, |par|, Entry(r, name));
    assert Hangs(nodes, par, paths, r);
  }

  /** The walk cannot go on. */
  lemma DeadEnd(nodes: seq<Node>, par: seq<nat>, paths: seq<Path>, cur: nat, p: Path, k: nat, name: Name)
    requires Tree(nodes, par, paths) && cur < |nodes| && k < |p| && paths[cur] == p[..k]
    requires nodes[cur].isDir ==> Absent(Kids(nodes, par, cur, |par|), |Kids(nodes, par, cur, |par|)|, name)
    requires name == p[k] || |p[k]| > 255
    ensures !Reach(Files(nodes, paths), p)
  {
    FileAt(nodes, par, paths, cur);
    if nodes[cur].isDir {
      assert |p[k]| > 255 ==> !GoodName(p[k]);
      NoWay(nodes, par, paths, cur, p, k, p[k]);
    } else {
      assert !Files(nodes, paths)[p[..k]].isDir;
    }
  }

  /** One directory further. */
  lemma DirsOneMore(nodes: seq<Node>, par: seq<nat>, paths: seq<Path>, cur: nat, p: Path, k: nat)
    requires Tree(nodes, par, paths) && cur < |nodes| && k < |p| && paths[cur] == p[..k] && nodes[cur].isDir
    requires DirsTo(Files(nodes, paths), p, k)
    ensures DirsTo(Files(nodes, paths), p, k + 1)
  {
    FileAt(nodes, par, paths, cur);
  }

  lemma Arrived(nodes: seq<Node>, par: seq<nat>, paths: seq<Path>, cur: nat, p: Path)
    requires Tree(nodes, par, paths) && cur < |nodes| && paths[cur] == p && DirsTo(Files(nodes, paths), p, |p|)
    ensures Reach(Files(nodes, paths), p)
  {
    FileAt(nodes, par, paths, cur);
  }

  /** lookup_path: for every path string, the node at its path if that leads through directories only,
      and nothing otherwise. */
  method Lookup(t: Table, path: seq<byte>) returns (r: int)
    requires t.Valid() && t.num < 0x8000_0000
    ensures r == -1 <==> !Reach(t.Map(), LookupPath(path))
    ensures r != -1 ==> 0 <= r < t.num == |t.paths| && t.paths[r] == LookupPath(path)
  {
    hide Tree, Files, LookupSplit, Kids, ComponentEnd, GoodName, DirsTo, Absent, Reach;
    ghost var comps, nodes, par, paths := LookupPath(path), t.nodes[..t.num], t.par, t.paths;
    RootPath(nodes, par, paths);
    var p: nat := PassSlashes(path, 0);
    var cur: nat := 0;
    ghost var k: nat := 0;
    assert comps[0..] == comps && comps[..0] == [];
    NoDirs(t.Map(), comps);
    while p < |path|
      invariant p <= |path| && k <= |comps| && LookupSplit(path, p) == comps[k..]
      invariant cur < t.num == |paths| && paths[cur] == comps[..k] && DirsTo(t.Map(), comps, k)
      decreases |path| - p
    {
      SplitLookup(path, p);
      assert comps[k] == comps[k..][0] && comps[k + 1..] == comps[k..][1..];
      var c, q := CopyLookup(path, p);
      assert nodes[cur] == t.nodes[cur];
      var child := FindName(t, cur, c);
      if child == -1 {
        DeadEnd(nodes, par, paths, cur, comps, k, c);
        return -1;
      }
      NoLongName(nodes, par, paths, cur, child, c);
      OneFurther(nodes, par, paths, cur, comps, k, child);
      DirsOneMore(nodes, par, paths, cur, comps, k);
      if q < |path| && path[q] == SLASH { q := q + 1; }
      cur, p, k := child, q, k + 1;
    }
    SplitLookup(path, p);
    assert |comps[k..]| == 0 && comps[..k] == comps;
    Arrived(nodes, par, paths, cur, comps);
    r := cur;
  }

  lemma NoDirs(m: map<Path, Info>, p: Path)
    ensures DirsTo(m, p, 0)
  {
  }
}
