/** Bytes, little-endian numbers and C strings. */
module Bytes {

  type byte = b: nat | b < 256

  /** The n low bytes of x, least significant first. */
  function Le(x: nat, n: nat): (s: seq<byte>)
    ensures |s| == n
  {
    if n == 0 then [] else [(x % 256) as byte] + Le(x / 256, n - 1)
  }

  function UnLe(s: seq<byte>): nat {
    if s == [] then 0 else s[0] + 256 * UnLe(s[1..])
  }

  /** Reading back what was written gives the number, if it fits. */
  lemma {:induction false} LeRoundTrip(x: nat, n: nat)
    requires x < Pow256(n)
    ensures UnLe(Le(x, n)) == x
    decreases n
  {
    if n > 0 {
      LeRoundTrip(x / 256, n - 1);
      assert Le(x, n)[1..] == Le(x / 256, n - 1);
    }
  }

  function Pow256(n: nat): nat { if n == 0 then 1 else 256 * Pow256(n - 1) }

  /** Byte k of a number in memory is its digit of weight 256^k. */
  lemma {:induction false} LeByte(x: nat, n: nat, k: nat)
    requires k < n
    ensures Pow256(k) > 0 && Le(x, n)[k] == x / Pow256(k) % 256
    decreases n
  {
    if k > 0 {
      LeByte(x / 256, n - 1, k - 1);
      DivideTwice(x, Pow256(k - 1));
    }
  }

  lemma DivideTwice(x: nat, p: nat)
    requires p > 0
    ensures x / 256 / p == x / (256 * p)
  {
    var q := x / (256 * p);
    var r := x - q * (256 * p);
    assert q * (256 * p) == 256 * (q * p);
    assert x / 256 == q * p + r / 256;
    assert r / 256 < p;
    Quotient(x / 256, q, r / 256, p);
  }

  lemma Quotient(v: nat, q: nat, r: nat, p: nat)
    requires v == q * p + r && r < p
    ensures v / p == q
  {
    assert v / p * p + v % p == v;
    if v / p < q {
      assert (v / p + 1) * p <= q * p by { Larger(v / p + 1, q, p); }
    }
    if v / p > q {
      assert (q + 1) * p <= v / p * p by { Larger(q + 1, v / p, p); }
    }
  }

  lemma Larger(a: nat, b: nat, p: nat)
    requires a <= b
    ensures a * p <= b * p
  {
  }

  /** A string as C sees it: no NUL inside. */
  predicate ZeroFree(s: seq<byte>) { forall i | 0 <= i < |s| :: s[i] != 0 }

  /** strlen of what starts at position i, or up to the end of the buffer. */
  function StrLen(s: seq<byte>, i: nat): (n: nat)
    requires i <= |s|
    ensures i + n <= |s|
    ensures forall j | i <= j < i + n :: s[j] != 0
    ensures i + n < |s| ==> s[i + n] == 0
    decreases |s| - i
  {
    if i == |s| || s[i] == 0 then 0 else 1 + StrLen(s, i + 1)
  }

  lemma StrLenIs(s: seq<byte>, i: nat, n: nat)
    requires i + n < |s| && s[i + n] == 0 && forall j | i <= j < i + n :: s[j] != 0
    ensures StrLen(s, i) == n
  {
  }
}
