/** Numbers written with a fixed number of digits in a base. */
module Numerals {

  function Times(a: nat, b: nat): (r: nat) { a * b }
  function Quot(x: nat, p: nat): (q: nat) requires p > 0 { x / p }
  function Rem(x: nat, p: nat): (r: nat) requires p > 0 ensures r < p { x % p }

  lemma QuotRem(x: nat, p: nat)
    requires p > 0
    ensures x == Times(Quot(x, p), p) + Rem(x, p)
  {
  }

  lemma TimesStep(a: nat, p: nat)
    ensures Times(a + 1, p) == Times(a, p) + p
  {
  }

  lemma {:induction false} TimesGrows(a: nat, b: nat, p: nat)
    requires a <= b
    ensures Times(a, p) <= Times(b, p)
    decreases b
  {
    hide Times;
    if a < b {
      TimesGrows(a, b - 1, p);
      TimesStep(b - 1, p);
    }
  }

  /** A quotient and a remainder below the base are determined by the number. */
  lemma Unique(q: nat, r: nat, q': nat, r': nat, p: nat)
    requires r < p && r' < p && Times(q, p) + r == Times(q', p) + r'
    ensures q == q' && r == r'
  {
    hide Times;
    TimesStep(q, p);
    TimesStep(q', p);
    if q < q' { TimesGrows(q + 1, q', p); }
    if q' < q { TimesGrows(q' + 1, q, p); }
  }

  lemma Back(q: nat, r: nat, p: nat)
    requires r < p
    ensures Quot(Times(q, p) + r, p) == q && Rem(Times(q, p) + r, p) == r
  {
    hide Times, Quot, Rem;
    QuotRem(Times(q, p) + r, p);
    Unique(q, r, Quot(Times(q, p) + r, p), Rem(Times(q, p) + r, p), p);
  }

  function Power(p: nat, n: nat): nat { if n == 0 then 1 else Times(Power(p, n - 1), p) }

  /** The n digits of x in base p, most significant first. */
  function Digits(x: nat, p: nat, n: nat): (s: seq<nat>)
    requires p > 0
    ensures |s| == n
    decreases n
  {
    if n == 0 then [] else Digits(Quot(x, p), p, n - 1) + [Rem(x, p)]
  }

  function Value(digits: seq<nat>, p: nat): nat {
    if digits == [] then 0 else Times(Value(digits[..|digits| - 1], p), p) + digits[|digits| - 1]
  }

  lemma {:induction false} DigitsSmall(x: nat, p: nat, n: nat)
    requires p > 0
    ensures forall i | 0 <= i < n :: Digits(x, p, n)[i] < p
    decreases n
  {
    hide Times, Quot, Rem;
    if n > 0 { DigitsSmall(Quot(x, p), p, n - 1); }
  }

  lemma QuotBelow(x: nat, p: nat, q: nat)
    requires p > 0 && x < Times(q, p)
    ensures Quot(x, p) < q
  {
    hide Times, Quot, Rem;
    QuotRem(x, p);
    if q <= Quot(x, p) { TimesGrows(q, Quot(x, p), p); }
  }

  /** The digits of a number below p^n give the number back, */
  lemma {:induction false} DigitsValue(x: nat, p: nat, n: nat)
    requires p > 0 && x < Power(p, n)
    ensures Value(Digits(x, p, n), p) == x
    decreases n
  {
    hide Times, Quot, Rem;
    if n > 0 {
      QuotBelow(x, p, Power(p, n - 1));
      DigitsValue(Quot(x, p), p, n - 1);
      assert Digits(x, p, n)[..n - 1] == Digits(Quot(x, p), p, n - 1);
      QuotRem(x, p);
    }
  }

  /** and n digits below p are the digits of their value, which is below p^n. */
  lemma {:induction false} ValueDigits(s: seq<nat>, p: nat)
    requires p > 0 && forall i | 0 <= i < |s| :: s[i] < p
    ensures Value(s, p) < Power(p, |s|) && Digits(Value(s, p), p, |s|) == s
    decreases |s|
  {
    hide Times, Quot, Rem;
    if |s| > 0 {
      var n := |s| - 1;
      var v := Value(s[..n], p);
      ValueDigits(s[..n], p);
      Back(v, s[n], p);
      TimesStep(v, p);
      TimesGrows(v + 1, Power(p, n), p);
      assert s == s[..n] + [s[n]];
    }
  }

  /** Two numbers below p^n with the same n digits are equal. */
  lemma DigitsDistinct(a: nat, b: nat, p: nat, n: nat)
    requires p > 0 && a < Power(p, n) && b < Power(p, n) && Digits(a, p, n) == Digits(b, p, n)
    ensures a == b
  {
    DigitsValue(a, p, n);
    DigitsValue(b, p, n);
  }
}
