/** What a sequence of archive entries means, and finding it again through the node table. */
module TarMeaning {
  import opened Options
  import opened Bytes
  import opened PathNames
  import opened DirectoryStreams
  import opened DirectoryEntries
  import opened TarTree

  /** An archive entry: its path and what it says about it. */
  datatype Item = Item(path: Path, info: Info)

  /** The files after inserting all items in order. */
  function Mounted(items: seq<Item>): map<Path, Info> {
    if items == [] then map[[] := IMPLICIT]
    else var n := |items| - 1;
      Inserted(Mounted(items[..n]), items[n].path, items[n].info)
  }

  predicate IsPrefix(q: Path, p: Path) { |q| <= |p| && p[..|q|] == q }

  lemma {:induction false} WalkedMeans(m: map<Path, Info>, p: Path, k: nat, q: Path)
    requires k <= |p|
    ensures q in Walked(m, p, k) <==> q in m || (0 < |q| <= k && IsPrefix(q, p))
    ensures q in Walked(m, p, k) ==> Walked(m, p, k)[q] == if q in m then m[q] else IMPLICIT
    decreases k
  {
    if k > 0 { WalkedMeans(m, p, k - 1, q); }
  }

  /** The info of the last item with exactly this path. */
  function LastSays(items: seq<Item>, p: Path): Option<Info> {
    if items == [] then None
    else var n := |items| - 1;
      if items[n].path == p then Some(items[n].info) else LastSays(items[..n], p)
  }

  /** A path exists exactly when it is a prefix of some entry's path; it says what the last entry with
      that very path says, and is an implicit directory when there is none. */
  lemma {:induction false} MountedMeans(items: seq<Item>, q: Path)
    ensures q in Mounted(items) <==> q == [] || exists i {:trigger items[i]} :: 0 <= i < |items| && IsPrefix(q, items[i].path)
    ensures q in Mounted(items) && q != [] ==>
      Mounted(items)[q] == match LastSays(items, q) case Some(info) => info case None => IMPLICIT
    ensures [] in Mounted(items) && Mounted(items)[[]] == IMPLICIT
  {
    if items != [] {
      var n := |items| - 1;
      var p := items[n].path;
      MountedMeans(items[..n], q);
      MountedMeans(items[..n], []);
      WalkedMeans(Mounted(items[..n]), p, |p|, q);
      WalkedMeans(Mounted(items[..n]), p, |p|, []);
      SaidIsThere(items[..n], q);
      if i :| 0 <= i < |items| && IsPrefix(q, items[i].path) && i < n { assert items[..n][i] == items[i]; }
      if exists i {:trigger items[..n][i]} :: 0 <= i < n && IsPrefix(q, items[..n][i].path) {
        var i :| 0 <= i < n && IsPrefix(q, items[..n][i].path);
        assert items[i] == items[..n][i];
      }
    }
  }

  lemma {:induction false} SaidIsThere(items: seq<Item>, q: Path)
    ensures LastSays(items, q).Some? ==> exists i {:trigger items[i]} :: 0 <= i < |items| && items[i].path == q && IsPrefix(q, items[i].path)
  {
    if items != [] {
      var n := |items| - 1;
      if items[n].path != q {
        SaidIsThere(items[..n], q);
        if LastSays(items, q).Some? {
          var i :| 0 <= i < n && items[..n][i].path == q && IsPrefix(q, items[..n][i].path);
          assert items[i] == items[..n][i];
        }
      }
    }
  }
}
