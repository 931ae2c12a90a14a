/** Words of memory as the eight bytes that they are: a page read as a table entry by entry, and the
    same page read byte by byte. */
module WordBytes {
  import opened Bytes
  import opened PageTables

  const TWO40: nat := 0x100_0000_0000

  /** The 64-bit number that has these fields. */
  function Raw(e: Entry): nat {
    var fl := e.fl;
    RawLow(fl) + 4096 * (e.frame + TWO40 * (fl.high + (if fl.nx then 2048 else 0)))
  }

  function Bit(x: nat): (r: nat) ensures r < 2 { x % 2 }

  /** The twelve low bits as flags, the rest above them. */
  function LowFlags(v: nat, nx: bool, high: nat): Flags {
    var v1 := v / 2;
    var v2 := v1 / 2;
    var v3 := v2 / 2;
    var v7 := v3 / 16;
    Flags(Bit(v) == 1, Bit(v1) == 1, Bit(v2) == 1, Bit(v7) == 1, nx, v3 % 16 * 8 + v7 / 2 * 256, high)
  }

  /** The fields of a 64-bit number. */
  function Fields(x: nat): Entry {
    var y := x / 4096;
    var z := y / TWO40;
    Entry(y % TWO40, LowFlags(x % 4096, Bit(z / 2048) == 1, z % 2048))
  }

  /** What Raw makes of the flags below the frame number. */
  function RawLow(fl: Flags): nat {
    (if fl.present then 1 else 0) + (if fl.writable then 2 else 0) + (if fl.user then 4 else 0) + fl.low + (if fl.huge then 128 else 0)
  }

  lemma LowFields(v: nat, nx: bool, high: nat)
    ensures RawLow(LowFlags(v, nx, high)) == v && LowFlags(v, nx, high).nx == nx && LowFlags(v, nx, high).high == high
  {
    var v1 := v / 2;
    var v2 := v1 / 2;
    var v3 := v2 / 2;
    var v7 := v3 / 16;
    assert v == Bit(v) + 2 * v1 && v1 == Bit(v1) + 2 * v2 && v2 == Bit(v2) + 2 * v3;
    assert v3 == v3 % 16 + 16 * v7 && v7 == Bit(v7) + 2 * (v7 / 2);
    hide Bit;
  }

  lemma HighFields(y: nat)
    requires y < 0x10_0000_0000_0000
    ensures var z := y / TWO40;
      y == y % TWO40 + TWO40 * z && z == z % 2048 + 2048 * Bit(z / 2048)
  {
    var z := y / TWO40;
    assert y == y % TWO40 + TWO40 * z && z < 4096;
    assert z / 2048 < 2;
  }

  /** The fields determine the number. */
  lemma RawFields(x: nat)
    requires x < 0x1_0000_0000_0000_0000
    ensures Raw(Fields(x)) == x
  {
    var y := x / 4096;
    assert x == x % 4096 + 4096 * y && y < 0x10_0000_0000_0000;
    var z := y / TWO40;
    HighFields(y);
    LowFields(x % 4096, Bit(z / 2048) == 1, z % 2048);
    hide LowFlags, Bit, RawLow;
    var e := Fields(x);
    assert e.frame + TWO40 * (e.fl.high + (if e.fl.nx then 2048 else 0)) == y;
  }

  function WordOf(b: seq<byte>): Entry { Fields(UnLe(b)) }
  function BytesOf(e: Entry): (b: seq<byte>) ensures |b| == 8 { Le(Raw(e), 8) }

  lemma {:induction false} LeOfUnLe(b: seq<byte>)
    ensures UnLe(b) < Pow256(|b|) && Le(UnLe(b), |b|) == b
    decreases |b|
  {
    if b != [] {
      LeOfUnLe(b[1..]);
      var x, r := UnLe(b), UnLe(b[1..]);
      assert x == b[0] + 256 * r && x % 256 == b[0] && x / 256 == r;
      assert [b[0]] + b[1..] == b;
    }
  }

  lemma EightBytes()
    ensures Pow256(8) == 0x1_0000_0000_0000_0000
  {
    assert Pow256(1) == 256 && Pow256(2) == 0x1_0000 && Pow256(3) == 0x100_0000 && Pow256(4) == 0x1_0000_0000;
    assert Pow256(5) == 0x100_0000_0000 && Pow256(6) == 0x1_0000_0000_0000 && Pow256(7) == 0x100_0000_0000_0000;
  }

  /** Eight bytes stored as a word read back as those bytes. */
  lemma WordRoundTrip(b: seq<byte>)
    requires |b| == 8
    ensures BytesOf(WordOf(b)) == b
  {
    hide Raw, Fields, Pow256, Le, UnLe;
    LeOfUnLe(b);
    EightBytes();
    RawFields(UnLe(b));
  }

  /** A block of bytes as words. */
  function WordsOf(b: seq<byte>): (w: seq<Entry>)
    requires |b| % 8 == 0
    ensures |w| == |b| / 8
  {
    seq(|b| / 8, k requires 0 <= k < |b| / 8 => WordOf(b[8 * k..8 * k + 8]))
  }

  /** Byte i of a block of words. */
  function ByteOf(w: seq<Entry>, i: nat): byte
    requires i < 8 * |w|
  {
    BytesOf(w[i / 8])[i % 8]
  }

  lemma BlockRoundTrip(b: seq<byte>, i: nat)
    requires |b| % 8 == 0 && i < |b|
    ensures ByteOf(WordsOf(b), i) == b[i]
  {
    hide WordOf, BytesOf;
    var k := i / 8;
    assert 8 * k + 8 <= |b| && i == 8 * k + i % 8;
    WordRoundTrip(b[8 * k..8 * k + 8]);
  }

  /** The bytes of a page. */
  function PageBytes(t: Table): (b: seq<byte>)
    ensures |b| == 4096
  {
    seq(4096, i requires 0 <= i < 4096 => ByteOf(t, i))
  }

  lemma PageRoundTrip(b: seq<byte>)
    requires |b| == 4096
    ensures PageBytes(WordsOf(b)) == b
  {
    hide ByteOf, WordsOf;
    assert |WordsOf(b)| == 512;
    forall i | 0 <= i < 4096 ensures PageBytes(WordsOf(b))[i] == b[i] { BlockRoundTrip(b, i); }
  }
}
