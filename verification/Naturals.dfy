/**
 The operations on numbers that happen to be non-negative: with no limit above,
 and truncating division, they are the operations of the natural numbers.
 `IsNat(v, a, k)` says that v is a * 10^-k.
 */
module Naturals {
  import opened Digits
  import opened Numbers
  import opened Rounding
  import opened Arithmetic
  import opened Laws
  import opened Powers

  ghost predicate IsNat(v: Number, a: int, k: int)
  {
    a >= 0 && v.s == 1 && Is(v, a, k)
  }

  /** The settings of the loop of `toFraction`. */
  function Truncating(lo: int): Settings
  {
    Settings(0, ROUND_DOWN, lo, Unlimited)
  }

  lemma NatMag(v: Number, a: int, k: int)
    requires IsNat(v, a, k)
    ensures MagOf(v, k) == a && (IsZero(v) <==> a == 0)
  {
    hide Val, Pow, Mag;
    Signed(v, k);
  }

  lemma NatZero(k: nat)
    ensures IsNat(Zero(1), 0, k)
  {
    hide Pow;
    ValOne(0, 10);
  }

  lemma NatOne()
    ensures IsNat(ONE, 1, 0)
  {
    hide Pow;
    ValOne(1, 10);
    PowStep(10, 0);
  }

  lemma NatTimes(u: Number, v: Number, a: int, b: int, k: nat, g: Settings)
    requires IsNat(u, a, 0) && IsNat(v, b, k) && g.hi == Unlimited && !Below(a * b, g.lo, k)
    ensures a * b >= 0 && IsNat(Times(u, v, g), a * b, k)
  {
    hide Val, Pow, Mag, Times;
    MulMono(0, a, b);
    TimesMeaning(u, v, g, 0, k);
  }

  lemma NatPlus(u: Number, v: Number, a: int, b: int, lo: int)
    requires IsNat(u, a, 0) && IsNat(v, b, 0)
    ensures IsNat(Plus(u, v, lo), a + b, 0)
    ensures !PlusFails(u, v, Unlimited)
  {
    hide Val, Pow, Mag, SumSame;
    PlusMeaning(u, v, lo, 0);
    ExactSigned2(u, v);
  }

  lemma ExactSigned2(u: Number, v: Number)
    requires Valid(u) && Valid(v) && Finite(u) && Finite(v) && u.s == v.s == 1
    ensures PlusSame(u, v).s == 1
  {
    hide Val, Pow, Mag;
  }

  lemma NatMinus(u: Number, v: Number, a: int, b: int, k: nat, lo: int)
    requires IsNat(u, a, k) && IsNat(v, b, k) && b <= a && !Below(a - b, lo, k)
    ensures IsNat(Minus(u, v, lo), a - b, k)
    ensures !PlusFails(u, Negate(v), Unlimited)
  {
    hide Val, Pow, Mag;
    NatMag(u, a, k);
    NatMag(v, b, k);
    MinusMeaning(u, v, lo, k);
    if Nonzero(u) && Nonzero(v) {
      DiffSameAt(u, v, k);
    }
  }

  lemma NatDiv(u: Number, v: Number, a: int, b: int, k: int, lo: int)
    requires IsNat(u, a, k) && IsNat(v, b, k) && b > 0 && lo < 0
    ensures Valid(u) && Valid(v) && IsNat(Div(u, v, Truncating(lo)), a / b, 0)
  {
    hide Val, Pow, Mag, InBase, NormalDigits, QuotUnits, Exact;
    NatMag(u, a, k);
    NatMag(v, b, k);
    NatZero(0);
    if a == 0 {
    } else {
      WholeQuotientIs(u, v, k);
      var t := WholeQuotient(u, v, k);
      ExactSigned(1, t, 0);
      if t > 0 { ExponentMeaning(1, t, 0); }
    }
  }

  lemma NatCmp(u: Number, v: Number, a: int, b: int, k: int)
    requires IsNat(u, a, k) && IsNat(v, b, k)
    ensures Cmp(u, v) == if a > b then 1 else if a < b then -1 else 0
  {
    hide Val, Pow, Mag, At;
    CmpMeaning(u, v, k);
    CmpRange(u, v);
  }

  lemma NatExact(v: Number, a: int)
    requires IsNat(v, a, 0)
    ensures v == Exact(1, a, 0)
  {
    hide Val, Pow, Mag, Exact;
    NatMag(v, a, 0);
    ExactOf(v, 0);
  }

  /** Nothing that is a whole number underflows. */
  lemma WholeNotBelow(n: int, lo: int)
    requires lo < 0
    ensures !Below(n, lo, 0)
  {
  }

  // ----- common divisors

  ghost predicate Coprime(p: nat, q: nat)
  {
    forall d: nat :: d > 0 && p % d == 0 && q % d == 0 ==> d == 1
  }

  /** Two pairs whose determinant is one are in lowest terms. */
  lemma DeterminantCoprime(p: nat, q: nat, a: int, b: int)
    requires p * b - a * q == 1 || p * b - a * q == -1
    ensures Coprime(p, q)
  {
    forall d: nat | d > 0 && p % d == 0 && q % d == 0 ensures d == 1 {
      var i, j := p / d, q / d;
      assert p == d * i && q == d * j;
      assert p * b - a * q == d * (i * b - a * j) by {
        MulAssoc3(d, i, b);
        Swap(a, d, j);
      }
      UnitDivisor(d, i * b - a * j);
    }
  }

  lemma UnitDivisor(d: nat, m: int)
    requires d > 0 && (d * m == 1 || d * m == -1)
    ensures d == 1
  {
    if d > 1 {
      if m >= 1 { MulMono(1, m, d); } else if m <= -1 { MulMono(m, -1, d); }
    }
  }
}
