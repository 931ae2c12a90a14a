/** How many frames the kernel heap takes: its pages and the page tables behind them. */
module HeapFrames {
  import Numerals

  const PER_TABLE: nat := 512
  const PER_DIRECTORY: nat := 262144

  function CeilDiv(n: nat, d: nat): nat
    requires d > 0
  {
    (n + d - 1) / d
  }

  /** The page tables, page directories and the table above them behind the first `pages` pages. */
  function TableCount(pages: nat): nat {
    CeilDiv(pages, PER_TABLE) + CeilDiv(pages, PER_DIRECTORY) + (if pages > 0 then 1 else 0)
  }

  /** The frames that `more` pages take when there are `have`. */
  function GrowthFrames(have: nat, more: nat): int {
    more + TableCount(have + more) - TableCount(have)
  }

  lemma CeilNext(n: nat, d: nat)
    requires d > 0
    ensures CeilDiv(n + 1, d) == CeilDiv(n, d) + (if n % d == 0 then 1 else 0)
  {
    var q, r := n / d, n % d;
    assert n == q * d + r;
    if r == 0 {
      assert n + 1 + d - 1 == (q + 1) * d && n + d - 1 == q * d + (d - 1);
      DivIs(n + d, q + 1, 0, d);
      DivIs(n + d - 1, q, d - 1, d);
    } else {
      assert n + d == (q + 1) * d + r && n + d - 1 == (q + 1) * d + (r - 1);
      DivIs(n + d, q + 1, r, d);
      DivIs(n + d - 1, q + 1, r - 1, d);
    }
  }

  lemma DivIs(n: nat, q: nat, r: nat, d: nat)
    requires d > 0 && r < d && n == q * d + r
    ensures n / d == q && n % d == r
  {
    Numerals.Back(q, r, d);
  }

  /** One page more costs its own frame, and the tables that start with it. */
  lemma GrowthNext(have: nat, more: nat)
    ensures GrowthFrames(have, more + 1) == GrowthFrames(have, more) + 1 + Starting(have + more)
  {
    CeilNext(have + more, PER_TABLE);
    CeilNext(have + more, PER_DIRECTORY);
  }

  /** How many tables begin at page e. */
  function Starting(e: nat): nat {
    (if e % PER_TABLE == 0 then 1 else 0) + (if e % PER_DIRECTORY == 0 then 1 else 0) + (if e == 0 then 1 else 0)
  }

  lemma {:induction false} GrowthMonotone(have: nat, a: nat, b: nat)
    requires a <= b
    ensures a <= GrowthFrames(have, a) <= GrowthFrames(have, b)
    decreases b
  {
    if a < b {
      GrowthMonotone(have, a, b - 1);
      GrowthNext(have, b - 1);
    } else if a > 0 {
      GrowthMonotone(have, a - 1, a - 1);
      GrowthNext(have, a - 1);
    }
  }
}
