/** User memory byte by byte: pages of 4096 bytes at their page numbers. */
module UserBytes {
  import opened Options
  import opened Machine
  import opened Bytes


  type Memory = map<nat, seq<byte>>

  ghost predicate GoodMemory(m: Memory) { forall p {:trigger p in m} | p in m :: |m[p]| == PAGE_SIZE }

  /** The byte at address a, where a page is mapped. */
  ghost function ByteAt(m: Memory, a: nat): Option<byte>
    requires GoodMemory(m)
  {
    if a / PAGE_SIZE in m then Some(m[a / PAGE_SIZE][a % PAGE_SIZE]) else None
  }

  /** Every page that lo..hi touches is mapped. */
  ghost predicate MappedFrom(m: Memory, lo: nat, hi: nat) {
    forall a {:trigger a / PAGE_SIZE} | lo <= a < hi :: a / PAGE_SIZE in m
  }

  /** A store of s at addr, as a flat memory would do it. */
  ghost predicate Stored(m: Memory, m': Memory, addr: nat, s: seq<byte>)
    requires GoodMemory(m)
  {
    && GoodMemory(m') && m'.Keys == m.Keys
    && forall a: nat {:trigger ByteAt(m', a)} :: ByteAt(m', a) == if addr <= a < addr + |s| then Some(s[a - addr]) else ByteAt(m, a)
  }

  /** Overwrite part of one page. */
  function Patched(page: seq<byte>, off: nat, s: seq<byte>): (r: seq<byte>)
    requires off + |s| <= |page|
    ensures |r| == |page| && forall i | 0 <= i < |page| :: r[i] == if off <= i < off + |s| then s[i - off] else page[i]
  {
    page[..off] + s + page[off + |s|..]
  }

  /** copy_to_user: page by page, each page's share through its own translation; the result is that
      of one flat copy. */
  method CopyToUser(m: Memory, addr: nat, s: seq<byte>) returns (m': Memory)
    requires GoodMemory(m) && MappedFrom(m, addr, addr + |s|)
    ensures Stored(m, m', addr, s)
  {
    m' := m;
    var done := 0;
    while done < |s|
      invariant 0 <= done <= |s| && Stored(m, m', addr, s[..done])
    {
      var va := addr + done;
      var pageBase := va / PAGE_SIZE * PAGE_SIZE;
      var off := va - pageBase;
      var chunk := Least(PAGE_SIZE - off, |s| - done);
      assert va / PAGE_SIZE in m && off == va % PAGE_SIZE;
      ghost var before := m';
      m' := m'[va / PAGE_SIZE := Patched(m'[va / PAGE_SIZE], off, s[done..done + chunk])];
      PatchStored(before, m', va, s[done..done + chunk]);
      StoredThen(m, before, m', addr, s, done, chunk);
      done := done + chunk;
    }
    assert s[..|s|] == s;
  }

  /** Patching inside one page stores there and nowhere else. */
  lemma PatchStored(m: Memory, m': Memory, va: nat, s: seq<byte>)
    requires GoodMemory(m) && va / PAGE_SIZE in m && va % PAGE_SIZE + |s| <= PAGE_SIZE
    requires m' == m[va / PAGE_SIZE := Patched(m[va / PAGE_SIZE], va % PAGE_SIZE, s)]
    ensures Stored(m, m', va, s)
  {
    forall a: nat ensures ByteAt(m', a) == if va <= a < va + |s| then Some(s[a - va]) else ByteAt(m, a) {
      assert a == a / PAGE_SIZE * PAGE_SIZE + a % PAGE_SIZE && va == va / PAGE_SIZE * PAGE_SIZE + va % PAGE_SIZE;
    }
  }

  lemma StoredThen(m: Memory, m1: Memory, m2: Memory, addr: nat, s: seq<byte>, done: nat, chunk: nat)
    requires GoodMemory(m) && done + chunk <= |s| && Stored(m, m1, addr, s[..done])
    requires Stored(m1, m2, addr + done, s[done..done + chunk])
    ensures Stored(m, m2, addr, s[..done + chunk])
  {
    hide ByteAt;
    forall a: nat ensures ByteAt(m2, a) == if addr <= a < addr + (done + chunk) then Some(s[..done + chunk][a - addr]) else ByteAt(m, a) {
      assert ByteAt(m1, a) == if addr <= a < addr + done then Some(s[..done][a - addr]) else ByteAt(m, a);
    }
  }

  // ---- reading ----

  /** Eight bytes at a hold the number x. */
  ghost predicate WordIs(m: Memory, a: nat, x: nat)
    requires GoodMemory(m)
  {
    exists w: seq<byte> :: |w| == 8 && UnLe(w) == x && forall i {:trigger w[i]} | 0 <= i < 8 :: ByteAt(m, a + i) == Some(w[i])
  }

  /** The C string at a is s. */
  ghost predicate StringIs(m: Memory, a: nat, s: seq<byte>)
    requires GoodMemory(m)
  {
    && ZeroFree(s) && (forall i {:trigger s[i]} | 0 <= i < |s| :: ByteAt(m, a + i) == Some(s[i]))
    && ByteAt(m, a + |s|) == Some(0)
  }

  lemma StoredAt(m: Memory, m': Memory, addr: nat, s: seq<byte>, j: nat)
    requires GoodMemory(m) && Stored(m, m', addr, s) && j < |s|
    ensures ByteAt(m', addr + j) == Some(s[j])
  {
  }

  /** A stored number reads back, */
  lemma StoredWord(m: Memory, m': Memory, addr: nat, s: seq<byte>, k: nat, x: nat)
    requires GoodMemory(m) && Stored(m, m', addr, s) && k + 8 <= |s| && s[k..k + 8] == Le(x, 8) && x < Pow256(8)
    ensures WordIs(m', addr + k, x)
  {
    hide ByteAt;
    LeRoundTrip(x, 8);
    var w := Le(x, 8);
    forall i | 0 <= i < 8 ensures ByteAt(m', addr + k + i) == Some(w[i]) {
      assert s[k..k + 8][i] == s[k + i];
      StoredAt(m, m', addr, s, k + i);
    }
  }

  /** and so does a stored string. */
  lemma StoredString(m: Memory, m': Memory, addr: nat, s: seq<byte>, k: nat, t: seq<byte>)
    requires GoodMemory(m) && Stored(m, m', addr, s) && k + |t| + 1 <= |s| && s[k..k + |t|] == t && s[k + |t|] == 0 && ZeroFree(t)
    ensures StringIs(m', addr + k, t)
  {
    hide ByteAt;
    forall i | 0 <= i < |t| ensures ByteAt(m', addr + k + i) == Some(t[i]) {
      assert s[k..k + |t|][i] == s[k + i];
      StoredAt(m, m', addr, s, k + i);
    }
    StoredAt(m, m', addr, s, k + |t|);
  }

  /** A word or string in memory is determined: two readers agree. */
  lemma ReadersAgree(m: Memory, a: nat, x: nat, y: nat, s: seq<byte>, t: seq<byte>)
    requires GoodMemory(m)
    ensures WordIs(m, a, x) && WordIs(m, a, y) ==> x == y
    ensures StringIs(m, a, s) && StringIs(m, a, t) ==> s == t
  {
    if WordIs(m, a, x) && WordIs(m, a, y) {
      var v: seq<byte> :| |v| == 8 && UnLe(v) == x && forall i {:trigger v[i]} | 0 <= i < 8 :: ByteAt(m, a + i) == Some(v[i]);
      var w: seq<byte> :| |w| == 8 && UnLe(w) == y && forall i {:trigger w[i]} | 0 <= i < 8 :: ByteAt(m, a + i) == Some(w[i]);
      forall i | 0 <= i < 8 ensures v[i] == w[i] { assert ByteAt(m, a + i) == Some(v[i]); }
      assert v == w;
    }
    if StringIs(m, a, s) && StringIs(m, a, t) {
      Shorter(m, a, s, t);
      Shorter(m, a, t, s);
      forall i | 0 <= i < |s| ensures s[i] == t[i] { assert ByteAt(m, a + i) == Some(s[i]); }
    }
  }

  lemma Shorter(m: Memory, a: nat, s: seq<byte>, t: seq<byte>)
    requires GoodMemory(m) && StringIs(m, a, s) && StringIs(m, a, t)
    ensures |s| <= |t|
  {
    hide ByteAt;
    forall x: nat | a <= x < a + |s| ensures ByteAt(m, x) != Some(0) {
      var i := x - a;
      assert ByteAt(m, a + i) == Some(s[i]);
    }
  }
}
