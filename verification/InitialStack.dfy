/** The block a new program finds at its stack pointer: argc, argv, envp and the auxiliary vector, with
    the strings they point to. */
module InitialStack {
  import opened Options
  import opened Machine
  import opened Bytes
  import opened UserBytes

  const AT_NULL: nat := 0
  const AT_PHDR: nat := 3
  const AT_PHENT: nat := 4
  const AT_PHNUM: nat := 5
  const AT_PAGESZ: nat := 6
  const AT_BASE: nat := 7
  const AT_FLAGS: nat := 8
  const AT_ENTRY: nat := 9
  const AT_UID: nat := 11
  const AT_EUID: nat := 12
  const AT_GID: nat := 13
  const AT_EGID: nat := 14
  const AT_SECURE: nat := 23
  const AT_RANDOM: nat := 25

  /** What the loader says about the program. */
  datatype Loaded = Loaded(entry: nat, phdr: nat, phnum: nat, phentsize: nat)

  /** The thirteen pairs of the auxiliary vector. */
  function Aux(p: Loaded, randomAddr: nat): seq<(nat, nat)> {
    [(AT_PHDR, p.phdr), (AT_PHENT, p.phentsize), (AT_PHNUM, p.phnum), (AT_PAGESZ, 4096), (AT_BASE, 0), (AT_FLAGS, 0),
     (AT_ENTRY, p.entry), (AT_UID, 0), (AT_EUID, 0), (AT_GID, 0), (AT_EGID, 0), (AT_SECURE, 0), (AT_RANDOM, randomAddr)]
  }

  // ---- the layout ----

  function Round16(x: nat): (r: nat)
    ensures r % 16 == 0 && x <= r < x + 16
  {
    (x + 15) / 16 * 16
  }

  /** The bytes of the array section. */
  function ArraySize(argc: nat, envc: nat): nat { (1 + argc + 1 + envc + 1 + 13 * 2 + 2) * 8 }

  /** The bytes of the first n strings with their NULs. */
  function StringBytes(ss: seq<seq<byte>>, n: nat): nat
    requires n <= |ss|
  {
    if n == 0 then 0 else StringBytes(ss, n - 1) + |ss[n - 1]| + 1
  }

  lemma {:induction false} StringBytesGrow(ss: seq<seq<byte>>, a: nat, b: nat)
    requires a < b <= |ss|
    ensures StringBytes(ss, a) + |ss[a]| + 1 <= StringBytes(ss, b)
    decreases b
  {
    if a < b - 1 { StringBytesGrow(ss, a, b - 1); }
  }

  /** Where the strings start, behind the array and sixteen random bytes. */
  function StringsAt(argc: nat, envc: nat): nat { Round16(ArraySize(argc, envc)) + 16 }

  /** The offset of string j: first argv, then envp. */
  function Offset(argv: seq<seq<byte>>, envp: seq<seq<byte>>, j: nat): nat
    requires j <= |argv| + |envp|
  {
    StringsAt(|argv|, |envp|) + StringBytes(argv + envp, j)
  }

  function Total(argv: seq<seq<byte>>, envp: seq<seq<byte>>): nat { Offset(argv, envp, |argv| + |envp|) }

  /** The strings one behind the other, each closed by a NUL. */
  function Closed(ss: seq<seq<byte>>): seq<byte> {
    if ss == [] then [] else Closed(ss[..|ss| - 1]) + ss[|ss| - 1] + [0]
  }

  lemma {:induction false} ClosedSize(ss: seq<seq<byte>>, n: nat)
    requires n <= |ss|
    ensures |Closed(ss[..n])| == StringBytes(ss, n)
  {
    if n > 0 {
      ClosedSize(ss, n - 1);
      assert ss[..n][..n - 1] == ss[..n - 1];
    }
  }

  /** The block is as large as what is in it: thirty-one words and one for each string, rounded up to
      sixteen bytes, the random bytes, and the strings. */
  lemma TotalIs(argv: seq<seq<byte>>, envp: seq<seq<byte>>)
    ensures Total(argv, envp) == Round16(8 * (|argv| + |envp| + 31)) + 16 + |Closed(argv + envp)|
  {
    hide Closed, StringBytes, Round16;
    assert ArraySize(|argv|, |envp|) == 8 * (|argv| + |envp| + 31);
    ClosedSize(argv + envp, |argv| + |envp|);
    assert (argv + envp)[..|argv| + |envp|] == argv + envp;
  }

  /** The word with index k of the array, for a block at address `base`. */
  function Word(p: Loaded, argv: seq<seq<byte>>, envp: seq<seq<byte>>, base: nat, k: nat): nat {
    var argc, envc := |argv|, |envp|;
    var aux := argc + envc + 3;
    if k == 0 then argc
    else if k <= argc then base + Offset(argv, envp, k - 1)
    else if k == argc + 1 then 0
    else if k < aux - 1 then base + Offset(argv, envp, k - 2)
    else if k == aux - 1 then 0
    else if k < aux + 26 then
      var pair := Aux(p, base + StringsAt(argc, envc) - 16)[(k - aux) / 2];
      if (k - aux) % 2 == 0 then pair.0 else pair.1
    else 0
  }

  // ---- the scratch buffer ----

  /** Words below n are in place. */
  ghost predicate WordsIn(b: seq<byte>, p: Loaded, argv: seq<seq<byte>>, envp: seq<seq<byte>>, base: nat, n: nat) {
    forall k: nat {:trigger Word(p, argv, envp, base, k)} | k < n :: 8 * k + 8 <= |b| && b[8 * k..8 * k + 8] == Le(Word(p, argv, envp, base, k), 8)
  }

  /** String s with its NUL is at off. */
  ghost predicate StringAt(b: seq<byte>, off: nat, s: seq<byte>) {
    off + |s| + 1 <= |b| && b[off..off + |s|] == s && b[off + |s|] == 0
  }

  /** The first n strings are in place. */
  ghost predicate StringsIn(b: seq<byte>, argv: seq<seq<byte>>, envp: seq<seq<byte>>, n: nat)
    requires n <= |argv| + |envp|
  {
    forall j: nat {:trigger Offset(argv, envp, j)} | j < n :: StringAt(b, Offset(argv, envp, j), (argv + envp)[j])
  }

  method PutBytes(buf: array<byte>, at: nat, s: seq<byte>)
    requires at + |s| <= buf.Length
    modifies buf
    ensures buf[at..at + |s|] == s
    ensures forall j {:trigger buf[j]} | 0 <= j < buf.Length && !(at <= j < at + |s|) :: buf[j] == old(buf[j])
  {
    var i := 0;
    while i < |s|
      invariant 0 <= i <= |s|
      invariant forall j {:trigger buf[j]} | 0 <= j < buf.Length :: buf[j] == if at <= j < at + i then s[j - at] else old(buf[j])
    {
      buf[at + i] := s[i];
      i := i + 1;
    }
  }

  /** Everything below n is as it was. */
  lemma StringStays(b: seq<byte>, b': seq<byte>, off: nat, s: seq<byte>, lo: nat, hi: nat)
    requires StringAt(b, off, s) && |b'| == |b| && (off + |s| + 1 <= lo || hi <= off)
    requires forall j {:trigger b'[j]} | 0 <= j < |b| && !(lo <= j < hi) :: b'[j] == b[j]
    ensures StringAt(b', off, s)
  {
    assert b'[off..off + |s|] == b[off..off + |s|];
  }

  /** Copy string number n behind the others. */
  method PutString(buf: array<byte>, argv: seq<seq<byte>>, envp: seq<seq<byte>>, n: nat, off: nat)
    requires n < |argv| + |envp| && off == Offset(argv, envp, n) && buf.Length == Total(argv, envp)
    requires StringsIn(buf[..], argv, envp, n)
    modifies buf
    ensures StringsIn(buf[..], argv, envp, n + 1)
    ensures forall j {:trigger buf[j]} | 0 <= j < off :: buf[j] == old(buf[j])
  {
    var s := (argv + envp)[n];
    ghost var b := buf[..];
    StringBytesGrow(argv + envp, n, |argv| + |envp|);
    PutBytes(buf, off, s + [0]);
    assert buf[..][off..off + |s| + 1] == s + [0];
    StringsMore(b, buf[..], argv, envp, n);
  }

  lemma StringsMore(b: seq<byte>, b': seq<byte>, argv: seq<seq<byte>>, envp: seq<seq<byte>>, n: nat)
    requires n < |argv| + |envp| && StringsIn(b, argv, envp, n) && |b'| == |b|
    requires var off, s := Offset(argv, envp, n), (argv + envp)[n];
      && off + |s| + 1 <= |b| && b'[off..off + |s| + 1] == s + [0]
      && forall j {:trigger b'[j]} | 0 <= j < |b| && !(off <= j < off + |s| + 1) :: b'[j] == b[j]
    ensures StringsIn(b', argv, envp, n + 1)
  {
    var off, s := Offset(argv, envp, n), (argv + envp)[n];
    forall j: nat | j < n + 1 ensures StringAt(b', Offset(argv, envp, j), (argv + envp)[j]) {
      if j < n {
        StringBytesGrow(argv + envp, j, n);
        StringStays(b, b', Offset(argv, envp, j), (argv + envp)[j], off, off + |s| + 1);
      } else {
        assert b'[off..off + |s|] == b'[off..off + |s| + 1][..|s|] && b'[off + |s|] == b'[off..off + |s| + 1][|s|];
      }
    }
  }

  /** The number of words in the array. */
  function Words(argv: seq<seq<byte>>, envp: seq<seq<byte>>): nat { |argv| + |envp| + 31 }

  lemma Below(argv: seq<seq<byte>>, envp: seq<seq<byte>>, k: nat)
    requires k < Words(argv, envp)
    ensures 8 * k + 8 <= ArraySize(|argv|, |envp|) <= StringsAt(|argv|, |envp|) - 16
    ensures StringsAt(|argv|, |envp|) <= Total(argv, envp)
  {
  }

  /** Store word k of the array; the strings stay. */
  method PutWord(buf: array<byte>, p: Loaded, argv: seq<seq<byte>>, envp: seq<seq<byte>>, base: nat, k: nat, x: nat)
    requires k < Words(argv, envp) && x == Word(p, argv, envp, base, k) && buf.Length == Total(argv, envp)
    requires WordsIn(buf[..], p, argv, envp, base, k) && StringsIn(buf[..], argv, envp, |argv| + |envp|)
    modifies buf
    ensures WordsIn(buf[..], p, argv, envp, base, k + 1) && StringsIn(buf[..], argv, envp, |argv| + |envp|)
    ensures forall j {:trigger buf[j]} | StringsAt(|argv|, |envp|) - 16 <= j < buf.Length :: buf[j] == old(buf[j])
  {
    hide Word, ArraySize, StringsAt;
    ghost var b := buf[..];
    Below(argv, envp, k);
    PutBytes(buf, 8 * k, Le(x, 8));
    WordStored(b, buf[..], p, argv, envp, base, k);
    StringsStay(b, buf[..], argv, envp, 8 * k, 8 * k + 8);
  }

  lemma WordStored(b: seq<byte>, b': seq<byte>, p: Loaded, argv: seq<seq<byte>>, envp: seq<seq<byte>>, base: nat, k: nat)
    requires WordsIn(b, p, argv, envp, base, k) && |b'| == |b| && 8 * k + 8 <= |b| && b'[8 * k..8 * k + 8] == Le(Word(p, argv, envp, base, k), 8)
    requires forall j {:trigger b'[j]} | 0 <= j < |b| && !(8 * k <= j < 8 * k + 8) :: b'[j] == b[j]
    ensures WordsIn(b', p, argv, envp, base, k + 1)
  {
    hide Word, Le;
    forall i: nat | i < k + 1 ensures 8 * i + 8 <= |b'| && b'[8 * i..8 * i + 8] == Le(Word(p, argv, envp, base, i), 8) {
      if i < k { assert b'[8 * i..8 * i + 8] == b[8 * i..8 * i + 8]; }
    }
  }

  lemma StringsStay(b: seq<byte>, b': seq<byte>, argv: seq<seq<byte>>, envp: seq<seq<byte>>, lo: nat, hi: nat)
    requires StringsIn(b, argv, envp, |argv| + |envp|) && |b'| == |b| && hi <= StringsAt(|argv|, |envp|)
    requires forall j {:trigger b'[j]} | 0 <= j < |b| && !(lo <= j < hi) :: b'[j] == b[j]
    ensures StringsIn(b', argv, envp, |argv| + |envp|)
  {
    hide StringAt;
    forall j: nat | j < |argv| + |envp| ensures StringAt(b', Offset(argv, envp, j), (argv + envp)[j]) {
      StringStays(b, b', Offset(argv, envp, j), (argv + envp)[j], lo, hi);
    }
  }

  /** The sixteen random bytes, then all strings. */
  method PutStrings(buf: array<byte>, argv: seq<seq<byte>>, envp: seq<seq<byte>>, random: seq<byte>)
    requires buf.Length == Total(argv, envp) && |random| == 16
    modifies buf
    ensures StringsIn(buf[..], argv, envp, |argv| + |envp|)
    ensures StringsAt(|argv|, |envp|) <= buf.Length && buf[StringsAt(|argv|, |envp|) - 16..StringsAt(|argv|, |envp|)] == random
  {
    hide StringsIn, ArraySize;
    Below(argv, envp, 0);
    var start := StringsAt(|argv|, |envp|);
    PutBytes(buf, start - 16, random);
    NoStrings(buf[..], argv, envp);
    var off, n := start, 0;
    while n < |argv| + |envp|
      invariant 0 <= n <= |argv| + |envp| && off == Offset(argv, envp, n)
      invariant StringsIn(buf[..], argv, envp, n) && buf[start - 16..start] == random
    {
      PutString(buf, argv, envp, n, off);
      off := off + |if n < |argv| then argv[n] else envp[n - |argv|]| + 1;
      n := n + 1;
    }
  }

  lemma NoStrings(b: seq<byte>, argv: seq<seq<byte>>, envp: seq<seq<byte>>)
    ensures StringsIn(b, argv, envp, 0)
  {
  }

  /** The array, word by word in the order of the layout. */
  method PutArray(buf: array<byte>, p: Loaded, argv: seq<seq<byte>>, envp: seq<seq<byte>>, base: nat)
    requires buf.Length == Total(argv, envp) && StringsIn(buf[..], argv, envp, |argv| + |envp|)
    modifies buf
    ensures WordsIn(buf[..], p, argv, envp, base, Words(argv, envp)) && StringsIn(buf[..], argv, envp, |argv| + |envp|)
    ensures forall j {:trigger buf[j]} | StringsAt(|argv|, |envp|) - 16 <= j < buf.Length :: buf[j] == old(buf[j])
  {
    hide StringsIn, WordsIn, StringsAt;
    var argc, envc := |argv|, |envp|;
    NoWords(buf[..], p, argv, envp, base);
    var i := 0;
    PutWord(buf, p, argv, envp, base, i, argc);
    i := i + 1;
    i := PutPointers(buf, p, argv, envp, base, i, 0, argc);
    PutWord(buf, p, argv, envp, base, i, 0);
    i := i + 1;
    i := PutPointers(buf, p, argv, envp, base, i, argc, envc);
    PutWord(buf, p, argv, envp, base, i, 0);
    i := i + 1;
    i := PutAux(buf, p, argv, envp, base, i);
    PutWord(buf, p, argv, envp, base, i, AT_NULL);
    i := i + 1;
    PutWord(buf, p, argv, envp, base, i, 0);
  }

  lemma NoWords(b: seq<byte>, p: Loaded, argv: seq<seq<byte>>, envp: seq<seq<byte>>, base: nat)
    ensures WordsIn(b, p, argv, envp, base, 0)
  {
  }

  /** Pointers to `count` strings from string `first` on. */
  method PutPointers(buf: array<byte>, p: Loaded, argv: seq<seq<byte>>, envp: seq<seq<byte>>, base: nat, at: nat, first: nat, count: nat)
    returns (i: nat)
    requires (first == 0 && count == |argv| && at == 1) || (first == |argv| && count == |envp| && at == |argv| + 2)
    requires buf.Length == Total(argv, envp)
    requires WordsIn(buf[..], p, argv, envp, base, at) && StringsIn(buf[..], argv, envp, |argv| + |envp|)
    modifies buf
    ensures i == at + count
    ensures WordsIn(buf[..], p, argv, envp, base, i) && StringsIn(buf[..], argv, envp, |argv| + |envp|)
    ensures forall j {:trigger buf[j]} | StringsAt(|argv|, |envp|) - 16 <= j < buf.Length :: buf[j] == old(buf[j])
  {
    hide StringsIn, WordsIn, Offset;
    i := at;
    var j := 0;
    while j < count
      invariant 0 <= j <= count && i == at + j
      invariant WordsIn(buf[..], p, argv, envp, base, i) && StringsIn(buf[..], argv, envp, |argv| + |envp|)
      invariant forall j {:trigger buf[j]} | StringsAt(|argv|, |envp|) - 16 <= j < buf.Length :: buf[j] == old(buf[j])
    {
      PutWord(buf, p, argv, envp, base, i, base + Offset(argv, envp, first + j));
      i := i + 1;
      j := j + 1;
    }
  }

  /** The auxiliary vector. */
  method PutAux(buf: array<byte>, p: Loaded, argv: seq<seq<byte>>, envp: seq<seq<byte>>, base: nat, at: nat) returns (i: nat)
    requires at == |argv| + |envp| + 3 && buf.Length == Total(argv, envp)
    requires WordsIn(buf[..], p, argv, envp, base, at) && StringsIn(buf[..], argv, envp, |argv| + |envp|)
    modifies buf
    ensures i == at + 26
    ensures WordsIn(buf[..], p, argv, envp, base, i) && StringsIn(buf[..], argv, envp, |argv| + |envp|)
    ensures forall j {:trigger buf[j]} | StringsAt(|argv|, |envp|) - 16 <= j < buf.Length :: buf[j] == old(buf[j])
  {
    hide StringsIn, WordsIn;
    var aux := Aux(p, base + StringsAt(|argv|, |envp|) - 16);
    i := at;
    var k := 0;
    while k < |aux|
      invariant 0 <= k <= 13 == |aux| && i == at + 2 * k
      invariant WordsIn(buf[..], p, argv, envp, base, i) && StringsIn(buf[..], argv, envp, |argv| + |envp|)
      invariant forall j {:trigger buf[j]} | StringsAt(|argv|, |envp|) - 16 <= j < buf.Length :: buf[j] == old(buf[j])
    {
      PutWord(buf, p, argv, envp, base, i, aux[k].0);
      PutWord(buf, p, argv, envp, base, i + 1, aux[k].1);
      i := i + 2;
      k := k + 1;
    }
  }

  // ---- the block in user memory ----

  /** The word at `at` is the address of the string s. */
  ghost predicate PointsTo(m: Memory, at: nat, s: seq<byte>)
    requires GoodMemory(m)
  {
    exists a: nat {:trigger StringIs(m, a, s)} :: WordIs(m, at, a) && StringIs(m, a, s)
  }

  /** The words from `at` on point to these strings, and a null word follows. */
  ghost predicate PointersHold(m: Memory, at: nat, ss: seq<seq<byte>>)
    requires GoodMemory(m)
  {
    && (forall j: nat {:trigger ss[j]} | j < |ss| :: PointsTo(m, at + 8 * j, ss[j]))
    && WordIs(m, at + 8 * |ss|, 0)
  }

  /** The words from `at` on are these pairs, and a pair of zeros follows. */
  ghost predicate PairsHold(m: Memory, at: nat, aux: seq<(nat, nat)>)
    requires GoodMemory(m)
  {
    && (forall k: nat {:trigger aux[k]} | k < |aux| :: WordIs(m, at + 16 * k, aux[k].0) && WordIs(m, at + 16 * k + 8, aux[k].1))
    && WordIs(m, at + 16 * |aux|, 0) && WordIs(m, at + 16 * |aux| + 8, 0)
  }

  /** A reader of the layout at rsp finds exactly these arguments, this environment and this vector. */
  ghost predicate StackHolds(m: Memory, rsp: nat, argv: seq<seq<byte>>, envp: seq<seq<byte>>, aux: seq<(nat, nat)>)
    requires GoodMemory(m)
  {
    && WordIs(m, rsp, |argv|)
    && PointersHold(m, rsp + 8, argv)
    && PointersHold(m, rsp + 8 * (2 + |argv|), envp)
    && PairsHold(m, rsp + 8 * (3 + |argv| + |envp|), aux)
  }

  ghost predicate Strings(ss: seq<seq<byte>>) { forall j {:trigger ss[j]} | 0 <= j < |ss| :: ZeroFree(ss[j]) }

  ghost predicate Fits64(p: Loaded) {
    p.entry < Pow256(8) && p.phdr < Pow256(8) && p.phnum < Pow256(8) && p.phentsize < Pow256(8)
  }

  /** What has been stored at base reads back as the block b. */
  ghost predicate Landed(b: seq<byte>, p: Loaded, argv: seq<seq<byte>>, envp: seq<seq<byte>>, base: nat, m: Memory, m': Memory) {
    && |b| == Total(argv, envp) && WordsIn(b, p, argv, envp, base, Words(argv, envp)) && StringsIn(b, argv, envp, |argv| + |envp|)
    && GoodMemory(m) && Stored(m, m', base, b) && Strings(argv) && Strings(envp) && Fits64(p)
    && |argv| + |envp| < Pow256(8) && base + |b| < Pow256(8) && 4096 < Pow256(8)
  }

  lemma ReadsWord(b: seq<byte>, p: Loaded, argv: seq<seq<byte>>, envp: seq<seq<byte>>, base: nat, m: Memory, m': Memory, k: nat, x: nat)
    requires Landed(b, p, argv, envp, base, m, m') && k < Words(argv, envp) && x == Word(p, argv, envp, base, k)
    ensures WordIs(m', base + 8 * k, x)
  {
    hide Word, WordsIn, StringsIn, WordIs, Pow256;
    WordReads(b, p, argv, envp, base, m, m', k);
  }

  /** A pointer of the array, and the string it points to. */
  lemma ReadsPointer(b: seq<byte>, p: Loaded, argv: seq<seq<byte>>, envp: seq<seq<byte>>, base: nat, m: Memory, m': Memory, k: nat, j: nat)
    requires Landed(b, p, argv, envp, base, m, m') && j < |argv| + |envp| && k == (if j < |argv| then 1 + j else 2 + j)
    ensures GoodMemory(m') && PointsTo(m', base + 8 * k, (argv + envp)[j])
  {
    hide WordsIn, StringsIn, WordIs, StringIs, Pow256;
    ReadsWord(b, p, argv, envp, base, m, m', k, base + Offset(argv, envp, j));
    StringReads(b, p, argv, envp, base, m, m', j);
  }

  lemma AuxSize(p: Loaded, r: nat)
    ensures |Aux(p, r)| == 13
  {
  }

  lemma LandedGood(b: seq<byte>, p: Loaded, argv: seq<seq<byte>>, envp: seq<seq<byte>>, base: nat, m: Memory, m': Memory)
    requires Landed(b, p, argv, envp, base, m, m')
    ensures GoodMemory(m')
  {
  }

  /** The words that are no pointers and no pairs. */
  lemma FixedWords(p: Loaded, argv: seq<seq<byte>>, envp: seq<seq<byte>>, base: nat)
    ensures var n := |argv| + |envp|;
      && Word(p, argv, envp, base, 0) == |argv| && Word(p, argv, envp, base, 1 + |argv|) == 0 && Word(p, argv, envp, base, 2 + n) == 0
      && Word(p, argv, envp, base, 29 + n) == 0 && Word(p, argv, envp, base, 30 + n) == 0
  {
    hide Offset;
  }

  /** A null-terminated group of pointers, from word `at` and string `first` on. */
  lemma PointersRead(b: seq<byte>, p: Loaded, argv: seq<seq<byte>>, envp: seq<seq<byte>>, base: nat, m: Memory, m': Memory, at: nat, first: nat, ss: seq<seq<byte>>)
    requires Landed(b, p, argv, envp, base, m, m') && GoodMemory(m')
    requires (at == 1 && first == 0 && ss == argv) || (at == 2 + |argv| && first == |argv| && ss == envp)
    ensures PointersHold(m', base + 8 * at, ss)
  {
    hide Landed, WordIs, PointsTo, Offset, Word;
    FixedWords(p, argv, envp, base);
    ReadsWord(b, p, argv, envp, base, m, m', at + |ss|, 0);
    assert base + 8 * (at + |ss|) == base + 8 * at + 8 * |ss|;
    forall j: nat | j < |ss| ensures PointsTo(m', base + 8 * at + 8 * j, ss[j]) {
      ReadsPointer(b, p, argv, envp, base, m, m', at + j, first + j);
      assert base + 8 * (at + j) == base + 8 * at + 8 * j && (argv + envp)[first + j] == ss[j];
    }
  }

  lemma PairWords(p: Loaded, argv: seq<seq<byte>>, envp: seq<seq<byte>>, base: nat, k: nat)
    requires k < 13
    ensures var at, pair := 3 + |argv| + |envp| + 2 * k, Aux(p, base + StringsAt(|argv|, |envp|) - 16)[k];
      Word(p, argv, envp, base, at) == pair.0 && Word(p, argv, envp, base, at + 1) == pair.1
  {
    hide Offset;
  }

  lemma PairRead(b: seq<byte>, p: Loaded, argv: seq<seq<byte>>, envp: seq<seq<byte>>, base: nat, m: Memory, m': Memory, at: nat, k: nat, pair: (nat, nat))
    requires Landed(b, p, argv, envp, base, m, m') && GoodMemory(m') && k < 13 && at == base + 8 * (3 + |argv| + |envp|)
    requires pair == Aux(p, base + StringsAt(|argv|, |envp|) - 16)[k]
    ensures WordIs(m', at + 16 * k, pair.0) && WordIs(m', at + 16 * k + 8, pair.1)
  {
    hide Landed, WordIs, Aux, Word, StringsAt;
    PairWords(p, argv, envp, base, k);
    var w := 3 + |argv| + |envp| + 2 * k;
    ReadsWord(b, p, argv, envp, base, m, m', w, pair.0);
    ReadsWord(b, p, argv, envp, base, m, m', w + 1, pair.1);
    assert base + 8 * w == at + 16 * k && base + 8 * (w + 1) == at + 16 * k + 8;
  }

  lemma AuxRead(b: seq<byte>, p: Loaded, argv: seq<seq<byte>>, envp: seq<seq<byte>>, base: nat, m: Memory, m': Memory, aux: seq<(nat, nat)>)
    requires Landed(b, p, argv, envp, base, m, m') && GoodMemory(m') && aux == Aux(p, base + StringsAt(|argv|, |envp|) - 16) && |aux| == 13
    ensures PairsHold(m', base + 8 * (3 + |argv| + |envp|), aux)
  {
    hide Landed, WordIs, Aux, Word, StringsAt;
    var n := |argv| + |envp|;
    var at := base + 8 * (3 + n);
    FixedWords(p, argv, envp, base);
    ReadsWord(b, p, argv, envp, base, m, m', 29 + n, 0);
    ReadsWord(b, p, argv, envp, base, m, m', 30 + n, 0);
    assert base + 8 * (29 + n) == at + 16 * 13 && base + 8 * (30 + n) == at + 16 * 13 + 8;
    forall k: nat | k < 13 ensures WordIs(m', at + 16 * k, aux[k].0) && WordIs(m', at + 16 * k + 8, aux[k].1) {
      PairRead(b, p, argv, envp, base, m, m', at, k, aux[k]);
    }
  }

  /** What the scratch buffer holds is what the reader finds once it is stored at base. */
  lemma BlockReads(b: seq<byte>, p: Loaded, argv: seq<seq<byte>>, envp: seq<seq<byte>>, base: nat, m: Memory, m': Memory)
    requires Landed(b, p, argv, envp, base, m, m')
    ensures GoodMemory(m') && StackHolds(m', base, argv, envp, Aux(p, base + StringsAt(|argv|, |envp|) - 16))
    ensures AuxFound(m', base + 8 * (3 + |argv| + |envp|), p, base + StringsAt(|argv|, |envp|) - 16)
  {
    hide Landed, WordIs, PointersHold, PairsHold, Aux, Word, AuxFound;
    var aux := Aux(p, base + StringsAt(|argv|, |envp|) - 16);
    AuxSize(p, base + StringsAt(|argv|, |envp|) - 16);
    LandedGood(b, p, argv, envp, base, m, m');
    FixedWords(p, argv, envp, base);
    ReadsWord(b, p, argv, envp, base, m, m', 0, |argv|);
    PointersRead(b, p, argv, envp, base, m, m', 1, 0, argv);
    PointersRead(b, p, argv, envp, base, m, m', 2 + |argv|, |argv|, envp);
    AuxRead(b, p, argv, envp, base, m, m', aux);
    VectorFound(m', base + 8 * (3 + |argv| + |envp|), p, base + StringsAt(|argv|, |envp|) - 16);
  }

  lemma WordReads(b: seq<byte>, p: Loaded, argv: seq<seq<byte>>, envp: seq<seq<byte>>, base: nat, m: Memory, m': Memory, k: nat)
    requires k < Words(argv, envp) && WordsIn(b, p, argv, envp, base, Words(argv, envp)) && |b| == Total(argv, envp)
    requires GoodMemory(m) && Stored(m, m', base, b) && Fits64(p)
    requires |argv| + |envp| < Pow256(8) && base + |b| < Pow256(8) && 4096 < Pow256(8)
    ensures WordIs(m', base + 8 * k, Word(p, argv, envp, base, k))
  {
    hide Word, Stored, Pow256, Le, Total, WordIs;
    WordSmall(p, argv, envp, base, k);
    StoredWord(m, m', base, b, 8 * k, Word(p, argv, envp, base, k));
  }

  /** No word needs more than eight bytes. */
  lemma WordSmall(p: Loaded, argv: seq<seq<byte>>, envp: seq<seq<byte>>, base: nat, k: nat)
    requires k < Words(argv, envp) && Fits64(p) && |argv| + |envp| < Pow256(8) && base + Total(argv, envp) < Pow256(8) && 4096 < Pow256(8)
    ensures Word(p, argv, envp, base, k) < Pow256(8)
  {
    hide Pow256;
    Below(argv, envp, k);
    forall j: nat | j < |argv| + |envp| ensures Offset(argv, envp, j) <= Total(argv, envp) {
      StringBytesGrow(argv + envp, j, |argv| + |envp|);
    }
  }

  lemma StringReads(b: seq<byte>, p: Loaded, argv: seq<seq<byte>>, envp: seq<seq<byte>>, base: nat, m: Memory, m': Memory, j: nat)
    requires j < |argv| + |envp| && StringsIn(b, argv, envp, |argv| + |envp|) && |b| == Total(argv, envp)
    requires GoodMemory(m) && Stored(m, m', base, b) && Strings(argv) && Strings(envp)
    ensures StringIs(m', base + Offset(argv, envp, j), (argv + envp)[j])
  {
    hide Stored, Offset, Total;
    assert StringAt(b, Offset(argv, envp, j), (argv + envp)[j]);
    if j < |argv| { assert ZeroFree(argv[j]); } else { assert ZeroFree(envp[j - |argv|]); }
    StoredString(m, m', base, b, Offset(argv, envp, j), (argv + envp)[j]);
  }

  // ---- searching the vector ----

  /** None of the first k pairs of the vector has type t or ends it. */
  ghost predicate Skips(m: Memory, at: nat, k: nat, t: nat)
    requires GoodMemory(m)
  {
    forall j: nat {:trigger OtherType(m, at, j, t)} | j < k :: OtherType(m, at, j, t)
  }

  ghost predicate OtherType(m: Memory, at: nat, j: nat, t: nat)
    requires GoodMemory(m)
  {
    exists u: nat {:trigger WordIs(m, at + 16 * j, u)} :: u != t && u != 0 && WordIs(m, at + 16 * j, u)
  }

  /** A program that looks for type t in the vector finds value v in its k-th pair. */
  ghost predicate FoundAt(m: Memory, at: nat, k: nat, t: nat, v: nat)
    requires GoodMemory(m)
  {
    Skips(m, at, k, t) && WordIs(m, at + 16 * k, t) && WordIs(m, at + 16 * k + 8, v)
  }

  ghost predicate Finds(m: Memory, at: nat, t: nat, v: nat)
    requires GoodMemory(m)
  {
    exists k: nat {:trigger FoundAt(m, at, k, t, v)} :: FoundAt(m, at, k, t, v)
  }

  /** It finds nothing: the vector ends before. */
  ghost predicate Lacks(m: Memory, at: nat, t: nat)
    requires GoodMemory(m)
  {
    exists k: nat {:trigger Skips(m, at, k, t)} :: Skips(m, at, k, t) && WordIs(m, at + 16 * k, 0)
  }

  /** The search has one outcome. */
  lemma OneOutcome(m: Memory, at: nat, t: nat, v: nat, w: nat)
    requires GoodMemory(m) && t != 0 && Finds(m, at, t, v)
    ensures !Lacks(m, at, t) && (Finds(m, at, t, w) ==> w == v)
  {
    hide WordIs;
    var k: nat :| FoundAt(m, at, k, t, v);
    if Lacks(m, at, t) {
      var n: nat :| Skips(m, at, n, t) && WordIs(m, at + 16 * n, 0);
      SameStop(m, at, t, k, t, n, 0);
      ReadersAgree(m, at + 16 * k, t, 0, [], []);
      assert false;
    }
    if Finds(m, at, t, w) {
      var n: nat :| FoundAt(m, at, n, t, w);
      SameStop(m, at, t, k, t, n, t);
      ReadersAgree(m, at + 16 * k + 8, v, w, [], []);
    }
  }

  /** Two searches for the same type stop at the same pair. */
  lemma SameStop(m: Memory, at: nat, t: nat, k: nat, x: nat, n: nat, y: nat)
    requires GoodMemory(m) && Skips(m, at, k, t) && Skips(m, at, n, t) && (x == t || x == 0) && (y == t || y == 0)
    requires WordIs(m, at + 16 * k, x) && WordIs(m, at + 16 * n, y)
    ensures k == n
  {
    hide WordIs;
    if k < n {
      var u: nat :| u != t && u != 0 && WordIs(m, at + 16 * k, u) by { assert OtherType(m, at, k, t); }
      ReadersAgree(m, at + 16 * k, x, u, [], []);
    }
    if n < k {
      var u: nat :| u != t && u != 0 && WordIs(m, at + 16 * n, u) by { assert OtherType(m, at, n, t); }
      ReadersAgree(m, at + 16 * n, y, u, [], []);
    }
  }

  /** What a C library finds in the vector, by the type numbers of the System V ABI and of Linux: the
      program headers, the page size, the entry point, user and group 0, no secure mode, and the address r
      of the random bytes. It finds nothing else. */
  ghost predicate AuxFound(m: Memory, at: nat, p: Loaded, r: nat)
    requires GoodMemory(m)
  {
    && Finds(m, at, 3, p.phdr) && Finds(m, at, 4, p.phentsize) && Finds(m, at, 5, p.phnum)
    && Finds(m, at, 6, 4096) && Finds(m, at, 7, 0) && Finds(m, at, 8, 0) && Finds(m, at, 9, p.entry)
    && Finds(m, at, 11, 0) && Finds(m, at, 12, 0) && Finds(m, at, 13, 0) && Finds(m, at, 14, 0)
    && Finds(m, at, 23, 0) && Finds(m, at, 25, r)
    && forall t: nat {:trigger Lacks(m, at, t)} | t > 25 || t == 1 || t == 2 || t == 10 || 15 <= t <= 22 || t == 24 :: Lacks(m, at, t)
  }

  /** These bytes stand at a. */
  ghost predicate BytesAre(m: Memory, a: nat, s: seq<byte>)
    requires GoodMemory(m)
  {
    forall i: nat {:trigger s[i]} | i < |s| :: ByteAt(m, a + i) == Some(s[i])
  }

  /** A search of the vector at `at` finds all of this, and these random bytes. */
  ghost predicate VectorReads(m: Memory, at: nat, p: Loaded, random: seq<byte>)
    requires GoodMemory(m)
  {
    exists r: nat {:trigger AuxFound(m, at, p, r)} :: AuxFound(m, at, p, r) && BytesAre(m, r, random)
  }

  lemma PairSkipped(m: Memory, at: nat, aux: seq<(nat, nat)>, k: nat, t: nat)
    requires GoodMemory(m) && PairsHold(m, at, aux) && k <= |aux|
    requires forall j: nat {:trigger aux[j]} | j < k :: aux[j].0 != t && aux[j].0 != 0
    ensures Skips(m, at, k, t)
  {
    hide WordIs;
    forall j: nat | j < k ensures OtherType(m, at, j, t) { assert WordIs(m, at + 16 * j, aux[j].0); }
  }

  lemma PairFound(m: Memory, at: nat, aux: seq<(nat, nat)>, k: nat)
    requires GoodMemory(m) && PairsHold(m, at, aux) && k < |aux|
    requires forall j: nat {:trigger aux[j]} | j < k :: aux[j].0 != aux[k].0 && aux[j].0 != 0
    ensures Finds(m, at, aux[k].0, aux[k].1)
  {
    hide WordIs;
    PairSkipped(m, at, aux, k, aux[k].0);
    assert FoundAt(m, at, k, aux[k].0, aux[k].1);
  }

  lemma TypeLacking(m: Memory, at: nat, aux: seq<(nat, nat)>, t: nat)
    requires GoodMemory(m) && PairsHold(m, at, aux)
    requires forall j: nat {:trigger aux[j]} | j < |aux| :: aux[j].0 != t && aux[j].0 != 0
    ensures Lacks(m, at, t)
  {
    hide WordIs;
    PairSkipped(m, at, aux, |aux|, t);
  }

  lemma VectorFound(m: Memory, at: nat, p: Loaded, r: nat)
    requires GoodMemory(m) && PairsHold(m, at, Aux(p, r))
    ensures AuxFound(m, at, p, r)
  {
    hide PairsHold, Finds, Lacks;
    var aux := Aux(p, r);
    AuxSize(p, r);
    AllFound(m, at, aux);
    assert aux[0] == (3, p.phdr) && aux[1] == (4, p.phentsize) && aux[2] == (5, p.phnum) && aux[3] == (6, 4096);
    assert aux[4] == (7, 0) && aux[5] == (8, 0) && aux[6] == (9, p.entry) && aux[7] == (11, 0) && aux[8] == (12, 0);
    assert aux[9] == (13, 0) && aux[10] == (14, 0) && aux[11] == (23, 0) && aux[12] == (25, r);
    forall t: nat | t > 25 || t == 1 || t == 2 || t == 10 || 15 <= t <= 22 || t == 24 ensures Lacks(m, at, t) { TypeLacking(m, at, aux, t); }
  }

  /** In a vector without a type twice every pair is found. */
  lemma AllFound(m: Memory, at: nat, aux: seq<(nat, nat)>)
    requires GoodMemory(m) && PairsHold(m, at, aux)
    requires forall j: nat, k: nat {:trigger aux[j], aux[k]} | j < k < |aux| :: aux[j].0 != aux[k].0 && aux[j].0 != 0
    ensures forall k: nat {:trigger aux[k]} | k < |aux| :: Finds(m, at, aux[k].0, aux[k].1)
  {
    hide PairsHold, Finds;
    forall k: nat | k < |aux| ensures Finds(m, at, aux[k].0, aux[k].1) { PairFound(m, at, aux, k); }
  }

  /** build_linux_stack: 0 exactly when the block does not fit the stack; otherwise the start of the
      block, aligned to sixteen, with the whole block inside the stack, and nothing else changed. */
  method Build(m: Memory, p: Loaded, argv: seq<seq<byte>>, envp: seq<seq<byte>>, random: seq<byte>) returns (rsp: nat, m': Memory)
    requires GoodMemory(m) && MappedFrom(m, STACK_BASE, STACK_TOP)
    requires Strings(argv) && Strings(envp) && Fits64(p) && |random| == 16 && Total(argv, envp) < 0x1_0000_0000
    ensures rsp == 0 <==> Round16(Total(argv, envp)) > STACK_TOP - STACK_BASE
    ensures rsp == 0 ==> m' == m
    ensures rsp != 0 ==>
      && rsp % 16 == 0 && STACK_BASE <= rsp && rsp + Total(argv, envp) <= STACK_TOP < rsp + Total(argv, envp) + 16 && GoodMemory(m')
      && StackHolds(m', rsp, argv, envp, Aux(p, rsp + StringsAt(|argv|, |envp|) - 16))
      && forall a: nat {:trigger ByteAt(m', a)} | !(rsp <= a < rsp + Total(argv, envp)) :: ByteAt(m', a) == ByteAt(m, a)
    ensures rsp != 0 ==>
      VectorReads(m', rsp + 8 * (3 + |argv| + |envp|), p, random)
  {
    hide WordsIn, StringsIn, StackHolds, Word, Pow256, VectorReads, Aux, Stored, Strings, Round16, Total, StringsAt;
    var total := Total(argv, envp);
    var buf := new byte[total];
    Below(argv, envp, 0);
    PutStrings(buf, argv, envp, random);
    ghost var at, b := StringsAt(|argv|, |envp|), buf[..];
    assert b[at - 16..at] == random;
    var base := STACK_TOP - Round16(total);
    if base < STACK_BASE { return 0, m; }
    PutArray(buf, p, argv, envp, base);
    assert buf[..][at - 16..at] == b[at - 16..at];
    m' := CopyToUser(m, base, buf[..]);
    Enough(argv, envp);
    Bounds(total);
    BlockFound(buf[..], p, argv, envp, base, m, m', random);
    rsp := base;
  }

  lemma Bounds(total: nat)
    requires Round16(total) <= STACK_TOP - STACK_BASE
    ensures (STACK_TOP - Round16(total)) % 16 == 0 && total <= Round16(total) < total + 16
  {
  }

  /** The scratch buffer, once stored, is what a program looks for. */
  lemma BlockFound(b: seq<byte>, p: Loaded, argv: seq<seq<byte>>, envp: seq<seq<byte>>, base: nat, m: Memory, m': Memory, random: seq<byte>)
    requires Landed(b, p, argv, envp, base, m, m') && StringsAt(|argv|, |envp|) <= |b|
    requires |random| == 16 && b[StringsAt(|argv|, |envp|) - 16..StringsAt(|argv|, |envp|)] == random
    ensures GoodMemory(m') && StackHolds(m', base, argv, envp, Aux(p, base + StringsAt(|argv|, |envp|) - 16))
    ensures VectorReads(m', base + 8 * (3 + |argv| + |envp|), p, random)
  {
    hide WordsIn, StringsIn, StackHolds, Word, Pow256, AuxFound, Aux, Stored, Strings;
    BlockReads(b, p, argv, envp, base, m, m');
    RandomReads(m, m', base, b, StringsAt(|argv|, |envp|) - 16, random);
  }

  lemma RandomReads(m: Memory, m': Memory, base: nat, b: seq<byte>, at: nat, random: seq<byte>)
    requires GoodMemory(m) && GoodMemory(m') && Stored(m, m', base, b) && at + |random| <= |b| && b[at..at + |random|] == random
    ensures BytesAre(m', base + at, random)
  {
    hide Stored, ByteAt;
    forall i: nat | i < |random| ensures ByteAt(m', base + at + i) == Some(random[i]) {
      StoredAt(m, m', base, b, at + i);
      assert b[at..at + |random|][i] == b[at + i];
    }
  }

  lemma Enough(argv: seq<seq<byte>>, envp: seq<seq<byte>>)
    requires Total(argv, envp) < 0x1_0000_0000
    ensures |argv| + |envp| < Pow256(8) && 4096 < STACK_TOP < Pow256(8)
  {
    Below(argv, envp, 0);
    assert Pow256(1) == 256 && Pow256(2) == 0x1_0000 && Pow256(3) == 0x100_0000 && Pow256(4) == 0x1_0000_0000;
    assert Pow256(5) == 0x100_0000_0000 && Pow256(6) == 0x1_0000_0000_0000 && Pow256(7) == 0x100_0000_0000_0000;
  }
}
