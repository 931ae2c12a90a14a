/** The node table of an archive file system: a tree threaded through an array by first-child and
    next-sibling links, and the map from paths to files that it stands for. */
module TarTree {
  import opened Options
  import opened Bytes
  import opened PathNames
  import opened DirectoryStreams

  datatype Node = Node(name: Name, isDir: bool, offset: nat, size: nat, firstChild: int, nextSibling: int)

  /** What a path leads to. */
  datatype Info = Info(isDir: bool, offset: nat, size: nat)

  /** A directory nobody wrote an entry for. */
  const IMPLICIT := Info(true, 0, 0)

  function InfoOf(n: Node): Info { Info(n.isDir, n.offset, n.size) }

  // ---- parents ----

  /** The last node below n whose parent is p, or -1. Node 0 is the root and nobody's child. */
  function LastBelow(par: seq<nat>, p: nat, n: nat): (i: int)
    requires n <= |par|
    ensures -1 <= i < n && i != 0
    ensures i > 0 ==> par[i] == p
    ensures forall j | 0 < j < n && j > i :: par[j] != p
    decreases n
  {
    if n <= 1 then -1 else if par[n - 1] == p then n - 1 else LastBelow(par, p, n - 1)
  }

  lemma {:induction false} LastBelowPrefix(par: seq<nat>, more: seq<nat>, p: nat, n: nat)
    requires n <= |par|
    ensures LastBelow(par + more, p, n) == LastBelow(par, p, n)
    decreases n
  {
    if n > 1 { LastBelowPrefix(par, more, p, n - 1); }
  }

  // ---- the table against its paths ----

  ghost predicate Apart(paths: seq<Path>, i: nat, j: nat)
    requires i < |paths| && j < |paths|
  {
    i != j ==> paths[i] != paths[j]
  }

  /** Node i hangs below its parent, and its sibling link leads to the node before it with the same
      parent. */
  ghost predicate Hangs(nodes: seq<Node>, par: seq<nat>, paths: seq<Path>, i: nat)
    requires 0 < i < |nodes| == |par| == |paths|
  {
    && par[i] < i && paths[i] == paths[par[i]] + [nodes[i].name] && GoodName(nodes[i].name)
    && nodes[i].nextSibling == LastBelow(par, par[i], i)
  }

  ghost predicate Tree(nodes: seq<Node>, par: seq<nat>, paths: seq<Path>) {
    && |nodes| == |par| == |paths| > 0 && paths[0] == []
    && (forall i: nat, j: nat {:trigger Apart(paths, i, j)} | i < |paths| && j < |paths| :: Apart(paths, i, j))
    && (forall i: nat {:trigger Hangs(nodes, par, paths, i)} | 0 < i < |nodes| :: Hangs(nodes, par, paths, i))
    && (forall i: nat {:trigger nodes[i].firstChild} | i < |nodes| :: nodes[i].firstChild == LastBelow(par, i, |par|))
  }

  /** Every node but the root has a parent before it, so the tree has no cycle and following the links
      ends. Two children of one parent never have the same name. */
  lemma SiblingsDiffer(nodes: seq<Node>, par: seq<nat>, paths: seq<Path>, i: nat, j: nat)
    requires Tree(nodes, par, paths) && 0 < i < |nodes| && 0 < j < |nodes| && i != j && par[i] == par[j]
    ensures nodes[i].name != nodes[j].name
  {
    assert Hangs(nodes, par, paths, i) && Hangs(nodes, par, paths, j) && Apart(paths, i, j);
  }

  /** The child of p with this name sits at p's path with the name added, and at no other path. */
  lemma ChildPath(nodes: seq<Node>, par: seq<nat>, paths: seq<Path>, p: nat, i: nat, name: Name)
    requires Tree(nodes, par, paths) && p < |nodes| && 0 < i < |nodes|
    ensures par[i] == p && nodes[i].name == name <==> paths[i] == paths[p] + [name]
  {
    assert Hangs(nodes, par, paths, i);
    if paths[i] == paths[p] + [name] {
      var a, b := paths[par[i]] + [nodes[i].name], paths[p] + [name];
      assert a[..|a| - 1] == paths[par[i]] && b[..|b| - 1] == paths[p] && a[|a| - 1] == nodes[i].name && b[|b| - 1] == name;
      assert Apart(paths, par[i], p);
    }
  }

  /** The position of a path, or the number of paths. */
  function IndexOf(paths: seq<Path>, p: Path): (i: nat)
    ensures i <= |paths|
    ensures i < |paths| ==> paths[i] == p
    ensures forall j | 0 <= j < i :: paths[j] != p
  {
    if paths == [] then 0 else if paths[0] == p then 0 else 1 + IndexOf(paths[1..], p)
  }

  /** The files and directories of the table, by path. */
  ghost function Files(nodes: seq<Node>, paths: seq<Path>): map<Path, Info>
    requires |nodes| == |paths|
  {
    map p | p in paths :: InfoOf(nodes[IndexOf(paths, p)])
  }

  lemma FileAt(nodes: seq<Node>, par: seq<nat>, paths: seq<Path>, i: nat)
    requires Tree(nodes, par, paths) && i < |nodes|
    ensures paths[i] in Files(nodes, paths) && Files(nodes, paths)[paths[i]] == InfoOf(nodes[i]) && IndexOf(paths, paths[i]) == i
  {
    assert paths[i] in paths;
    assert Apart(paths, IndexOf(paths, paths[i]), i);
  }

  // ---- growing ----

  /** A new child of p at the end of the table, linked in front of its siblings. */
  function Grown(nodes: seq<Node>, par: seq<nat>, p: nat, name: Name): seq<Node>
    requires p < |nodes|
  {
    nodes[p := nodes[p].(firstChild := |nodes|)] + [Node(name, true, 0, 0, -1, nodes[p].firstChild)]
  }

  lemma GrowTree(nodes: seq<Node>, par: seq<nat>, paths: seq<Path>, p: nat, name: Name)
    requires Tree(nodes, par, paths) && p < |nodes| && GoodName(name)
    requires forall i: nat | i < |paths| :: paths[i] != paths[p] + [name]
    ensures Tree(Grown(nodes, par, p, name), par + [p], paths + [paths[p] + [name]])
  {
    var nodes', par', paths' := Grown(nodes, par, p, name), par + [p], paths + [paths[p] + [name]];
    forall i: nat | 0 < i < |nodes'| ensures Hangs(nodes', par', paths', i) {
      if i < |nodes| {
        assert Hangs(nodes, par, paths, i);
        LastBelowPrefix(par, [p], par[i], i);
      } else {
        LastBelowPrefix(par, [p], p, |par|);
        assert nodes[p].firstChild == LastBelow(par, p, |par|);
      }
    }
    forall i: nat, j: nat | i < |paths'| && j < |paths'| ensures Apart(paths', i, j) {
      if i < |paths| && j < |paths| { assert Apart(paths, i, j); }
    }
    forall i: nat | i < |nodes'| ensures nodes'[i].firstChild == LastBelow(par', i, |par'|) {
      LastBelowPrefix(par, [p], i, |par|);
      if i < |nodes| {
        assert nodes[i].firstChild == LastBelow(par, i, |par|);
      } else {
        NoChildren(nodes, par, paths, i);
      }
    }
  }

  lemma {:induction false} NoChildrenBelow(par: seq<nat>, p: nat, n: nat)
    requires n <= |par| && forall j | 0 < j < n :: par[j] != p
    ensures LastBelow(par, p, n) == -1
  {
  }

  lemma NoChildren(nodes: seq<Node>, par: seq<nat>, paths: seq<Path>, p: nat)
    requires Tree(nodes, par, paths) && p == |nodes|
    ensures LastBelow(par, p, |par|) == -1
  {
    forall j: nat | 0 < j < |par| ensures par[j] != p { assert Hangs(nodes, par, paths, j); }
    NoChildrenBelow(par, p, |par|);
  }

  /** The new path stands for an implicit directory; the others are as before. */
  lemma GrowFiles(nodes: seq<Node>, par: seq<nat>, paths: seq<Path>, p: nat, name: Name)
    requires Tree(nodes, par, paths) && p < |nodes| && GoodName(name)
    requires forall i: nat | i < |paths| :: paths[i] != paths[p] + [name]
    ensures var q := paths[p] + [name];
      Files(Grown(nodes, par, p, name), paths + [q]) == Files(nodes, paths)[q := IMPLICIT]
  {
    var q := paths[p] + [name];
    var nodes', paths' := Grown(nodes, par, p, name), paths + [q];
    GrowTree(nodes, par, paths, p, name);
    forall r | r in paths' ensures r in Files(nodes, paths)[q := IMPLICIT] && Files(nodes', paths')[r] == Files(nodes, paths)[q := IMPLICIT][r] {
      var i := IndexOf(paths', r);
      FileAt(nodes', par + [p], paths', i);
      if i < |paths| { FileAt(nodes, par, paths, i); }
    }
    forall r | r in Files(nodes, paths)[q := IMPLICIT] ensures r in paths' {
      if r == q { assert paths'[|paths|] == q; } else { assert paths'[IndexOf(paths, r)] == r; }
    }
  }

  /** Stamping a node changes what its path leads to. */
  lemma StampFiles(nodes: seq<Node>, par: seq<nat>, paths: seq<Path>, i: nat, info: Info)
    requires Tree(nodes, par, paths) && i < |nodes|
    ensures var nodes' := nodes[i := nodes[i].(isDir := info.isDir, offset := info.offset, size := info.size)];
      Tree(nodes', par, paths) && Files(nodes', paths) == Files(nodes, paths)[paths[i] := info]
  {
    var nodes' := nodes[i := nodes[i].(isDir := info.isDir, offset := info.offset, size := info.size)];
    forall j: nat | 0 < j < |nodes'| ensures Hangs(nodes', par, paths, j) { assert Hangs(nodes, par, paths, j); }
    assert paths[i] in paths;
    forall r | r in paths ensures Files(nodes', paths)[r] == Files(nodes, paths)[paths[i] := info][r] {
      var j := IndexOf(paths, r);
      assert Apart(paths, i, j);
    }
  }

  // ---- inserting a path ----

  /** Walking to component k makes every missing directory on the way. */
  function Walked(m: map<Path, Info>, p: Path, k: nat): map<Path, Info>
    requires k <= |p|
  {
    if k == 0 then m else
    var m' := Walked(m, p, k - 1);
    if p[..k] in m' then m' else m'[p[..k] := IMPLICIT]
  }

  /** insert_path: directories on the way, the entry at the end, replacing what was there. */
  function Inserted(m: map<Path, Info>, p: Path, info: Info): map<Path, Info> {
    if p == [] then m else Walked(m, p, |p|)[p := info]
  }

  class Table {
    const nodes: array<Node>
    var num: nat
    ghost var par: seq<nat>
    ghost var paths: seq<Path>

    /** The root. */
    constructor (capacity: nat)
      requires capacity > 0
      ensures Valid() && num == 1 && nodes.Length == capacity && fresh(nodes) && paths == [[]]
      ensures Map() == map[[] := IMPLICIT]
    {
      nodes := new Node[capacity](_ => Node([], true, 0, 0, -1, -1));
      num := 1;
      par, paths := [0], [[]];
    }

    ghost predicate Valid()
      reads this, nodes
    {
      num <= nodes.Length && Tree(nodes[..num], par, paths)
    }

    /** The files by path. */
    ghost function Map(): map<Path, Info>
      requires Valid()
      reads this, nodes
    {
      Files(nodes[..num], paths)
    }

    /** find_child: the one child of `parent` with this name, or -1. */
    method FindChild(parent: nat, name: Name) returns (r: int)
      requires Valid() && parent < num
      ensures r == -1 ==> forall i: nat | i < num :: paths[i] != paths[parent] + [name]
      ensures r != -1 ==> 0 < r < num && paths[r] == paths[parent] + [name]
    {
      ghost var t := nodes[..num];
      var cur := nodes[parent].firstChild;
      assert t[parent].firstChild == cur;
      while cur != -1
        invariant -1 <= cur < num && cur != 0 && (cur > 0 ==> par[cur] == parent)
        invariant forall j: nat | 0 < j < num && j > cur && par[j] == parent :: t[j].name != name
        decreases cur
      {
        if nodes[cur].name == name {
          ChildPath(t, par, paths, parent, cur, name);
          return cur;
        }
        assert Hangs(t, par, paths, cur) && t[cur] == nodes[cur];
        cur := nodes[cur].nextSibling;
      }
      r := -1;
      forall i: nat | i < num ensures paths[i] != paths[parent] + [name] {
        if i > 0 { ChildPath(t, par, paths, parent, i, name); }
      }
    }

    /** get_or_create_child: -1 only when the table is full. */
    method GetOrCreateChild(parent: nat, name: Name) returns (r: int)
      requires Valid() && parent < num && GoodName(name)
      modifies this, nodes
      ensures Valid() && num >= old(num) && paths[..old(num)] == old(paths)
      ensures r == -1 ==> old(num) == nodes.Length && Map() == old(Map())
      ensures r != -1 ==> 0 < r < num <= old(num) + 1 && paths[r] == old(paths)[parent] + [name]
      ensures r != -1 ==> Map() == var q := paths[r]; if q in old(Map()) then old(Map()) else old(Map())[q := IMPLICIT]
    {
      hide Files, GoodName;
      r := FindChild(parent, name);
      if r != -1 {
        FileAt(nodes[..num], par, paths, r);
        return;
      }
      if num >= nodes.Length { return -1; }
      ghost var t, q := nodes[..num], paths[parent] + [name];
      r := num;
      GrowTree(t, par, paths, parent, name);
      GrowFiles(t, par, paths, parent, name);
      nodes[r] := Node(name, true, 0, 0, -1, nodes[parent].firstChild);
      nodes[parent] := nodes[parent].(firstChild := r);
      num := num + 1;
      assert nodes[..num] == Grown(t, par, parent, name);
      par, paths := par + [parent], paths + [q];
      NewPath(t, old(paths), q);
    }

    /** The last component's node becomes what the entry says. */
    method Stamp(i: nat, info: Info)
      requires Valid() && i < num
      modifies nodes
      ensures Valid() && i < num == |paths| && Map() == old(Map())[paths[i] := info]
    {
      hide Files;
      RootPath(nodes[..num], par, paths);
      ghost var t := nodes[..num];
      StampFiles(t, par, paths, i, info);
      nodes[i] := nodes[i].(isDir := info.isDir, offset := info.offset, size := info.size);
      assert nodes[..num] == t[i := t[i].(isDir := info.isDir, offset := info.offset, size := info.size)];
    }

    /** One component of the walk: find or make its directory, and pass the slashes behind it. */
    method WalkOne(path: seq<byte>, p: nat, cur: nat, ghost comps: Path, ghost k: nat, ghost m0: map<Path, Info>)
      returns (child: nat, q: nat)
      requires Valid() && cur < num == |paths| && num < nodes.Length && k < |comps| && GoodPath(comps)
      requires p < |path| && path[p] != SLASH && comps[k..] == Split(path, p)
      requires paths[cur] == comps[..k] && Map() == Walked(m0, comps, k)
      modifies this, nodes
      ensures Valid() && child < num == |paths| && num <= old(num) + 1 && paths[child] == comps[..k + 1]
      ensures Map() == Walked(m0, comps, k + 1)
      ensures p < q <= |path| && (q < |path| ==> path[q] != SLASH) && comps[k + 1..] == Split(path, q)
    {
      hide Tree, Files, Split, GoodName;
      SplitHere(path, p);
      assert comps[k] == comps[k..][0] && comps[k + 1..] == comps[k..][1..];
      GoodShort(comps, k);
      var component;
      component, q := CopyComponent(path, p);
      q := PassSlashes(path, q);
      child := MakeChild(cur, component);
      assert comps[..k + 1] == comps[..k] + [component];
      assert comps[..k + 1][..k] == comps[..k];
    }

    /** get_or_create_child with space left. */
    method MakeChild(parent: nat, name: Name) returns (child: nat)
      requires Valid() && parent < num == |paths| && num < nodes.Length && GoodName(name)
      modifies this, nodes
      ensures Valid() && child < num == |paths| && num <= old(num) + 1 && paths[child] == old(paths)[parent] + [name]
      ensures Map() == var q := paths[child]; if q in old(Map()) then old(Map()) else old(Map())[q := IMPLICIT]
    {
      hide Files, GoodName;
      child := GetOrCreateChild(parent, name);
      RootPath(nodes[..num], par, paths);
    }

    /** insert_path, for a path whose components fit their fields and a table with space for them. */
    method InsertPath(path: seq<byte>, info: Info)
      requires Valid() && GoodPath(ArchivePath(path)) && num + |ArchivePath(path)| <= nodes.Length
      modifies this, nodes
      ensures Valid() && num <= old(num) + |ArchivePath(path)|
      ensures Map() == Inserted(old(Map()), ArchivePath(path), info)
    {
      hide Tree, Files, Split, GoodPath, Walked;
      var p := 0;
      if |path| >= 2 && path[0] == DOT && path[1] == SLASH { p := 2; }
      p := PassSlashes(path, p);
      ghost var comps, m0 := ArchivePath(path), Map();
      SplitHere(path, p);
      if p == |path| { return; }
      var cur: nat := 0;
      ghost var k: nat := 0;
      RootPath(nodes[..num], par, paths);
      WalkStart(m0, comps);
      var last := false;
      while !last
        invariant Valid() && cur < num == |paths| && num <= old(num) + k && k <= |comps|
        invariant p <= |path| && (p < |path| ==> path[p] != SLASH) && comps[k..] == Split(path, p) && (last <==> p == |path|)
        invariant !last ==> paths[cur] == comps[..k] && Map() == Walked(m0, comps, k)
        invariant last ==> Map() == Inserted(m0, comps, info)
        decreases |path| - p
      {
        SplitHere(path, p);
        var child;
        child, p := WalkOne(path, p, cur, comps, k, m0);
        SplitHere(path, p);
        last := p == |path|;
        k := k + 1;
        if last {
          assert comps[..k] == comps;
          Stamp(child, info);
        }
        cur := child;
      }
    }
  }

  lemma WalkStart(m: map<Path, Info>, comps: Path)
    ensures Walked(m, comps, 0) == m && comps[0..] == comps && comps[..0] == []
  {
  }

  lemma GoodShort(comps: Path, k: nat)
    requires GoodPath(comps) && k < |comps|
    ensures GoodName(comps[k]) && |comps[k]| < 99
  {
  }

  lemma NewPath(nodes: seq<Node>, paths: seq<Path>, q: Path)
    requires |nodes| == |paths| && forall i: nat | i < |paths| :: paths[i] != q
    ensures q !in Files(nodes, paths)
  {
  }

  method PassSlashes(s: seq<byte>, p: nat) returns (q: nat)
    requires p <= |s|
    ensures q == SkipSlashes(s, p)
  {
    q := p;
    while q < |s| && s[q] == SLASH
      invariant p <= q <= |s| && SkipSlashes(s, q) == SkipSlashes(s, p)
    {
      q := q + 1;
    }
  }

  /** Copy one component, at most 99 bytes of it. */
  method CopyComponent(s: seq<byte>, p: nat) returns (c: Name, q: nat)
    requires p < |s| && ComponentEnd(s, p) - p < 99
    ensures q == ComponentEnd(s, p) && c == s[p..q]
  {
    q, c := p, [];
    while q < |s| && s[q] != SLASH && |c| < 99
      invariant p <= q <= |s| && c == s[p..q] && ComponentEnd(s, q) == ComponentEnd(s, p)
    {
      assert s[p..q + 1] == s[p..q] + [s[q]];
      c := c + [s[q]];
      q := q + 1;
    }
  }

  lemma SplitHere(s: seq<byte>, p: nat)
    requires p <= |s| && (p < |s| ==> s[p] != SLASH)
    ensures p == |s| ==> Split(s, p) == []
    ensures p < |s| ==>
      var q := ComponentEnd(s, p);
      Split(s, p) == [s[p..q]] + Split(s, SkipSlashes(s, q)) && Split(s, p)[0] == s[p..q] && Split(s, p)[1..] == Split(s, SkipSlashes(s, q))
  {
  }

  lemma RootPath(nodes: seq<Node>, par: seq<nat>, paths: seq<Path>)
    requires Tree(nodes, par, paths)
    ensures |paths| == |nodes| > 0 && paths[0] == []
  {
  }
}
