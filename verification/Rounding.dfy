/**
 The nine rounding modes: what the documentation says of each, and the number
 each one picks.
 */
module Rounding {
  import opened Digits
  import opened Numbers

  type Mode = m: int | 0 <= m <= 8

  const ROUND_UP: Mode := 0
  const ROUND_DOWN: Mode := 1
  const ROUND_CEIL: Mode := 2
  const ROUND_FLOOR: Mode := 3
  const ROUND_HALF_UP: Mode := 4
  const ROUND_HALF_DOWN: Mode := 5
  const ROUND_HALF_EVEN: Mode := 6
  const ROUND_HALF_CEIL: Mode := 7
  const ROUND_HALF_FLOOR: Mode := 8

  /** The side of `n` on which `v`, the multiple of the unit picked, has to lie; `m` counts the units. */
  ghost predicate OnSide(mode: Mode, n: int, v: int, m: int)
  {
    match mode
    case 0 => Abs(v) >= Abs(n)      // away from zero
    case 1 => Abs(v) <= Abs(n)      // towards zero
    case 2 => v >= n                // towards +Infinity
    case 3 => v <= n                // towards -Infinity
    case 4 => Abs(v) >= Abs(n)
    case 5 => Abs(v) <= Abs(n)
    case 6 => m % 2 == 0            // towards the even neighbour
    case 7 => v >= n
    case _ => v <= n
  }

  /** `v`, which is `m` units of `d`, is a legal rounding of `n`. */
  ghost predicate Picks(mode: Mode, n: int, d: nat, v: int, m: int)
  {
    var gap := Abs(v - n);
    && gap < d
    && (mode < ROUND_HALF_UP ==> OnSide(mode, n, v, m))
    && (mode >= ROUND_HALF_UP ==> 2 * gap <= d && (2 * gap == d ==> OnSide(mode, n, v, m)))
  }

  /** The integer `m` is the fraction n/d rounded in `mode`, as the documentation of the modes has it. */
  ghost predicate IsRounded(mode: Mode, n: int, d: nat, m: int)
  {
    Picks(mode, n, d, m * d, m)
  }

  /** Whether a magnitude of `q` units and `r` parts of a unit of `d` goes up; `neg` says the number is negative. */
  predicate Bump(mode: Mode, neg: bool, q: nat, r: nat, d: nat)
  {
    if mode < ROUND_HALF_UP then
      r != 0 && (mode == ROUND_UP || (mode == ROUND_CEIL && !neg) || (mode == ROUND_FLOOR && neg))
    else
      2 * r > d || (2 * r == d &&
        (mode == ROUND_HALF_UP || (mode == ROUND_HALF_EVEN && q % 2 == 1) ||
         (mode == ROUND_HALF_CEIL && !neg) || (mode == ROUND_HALF_FLOOR && neg)))
  }

  /** The magnitude n/d of a number, negative iff `neg`, rounded to an integer. */
  function RoundMag(mode: Mode, neg: bool, n: nat, d: nat): nat
    requires d > 0
  {
    n / d + if Bump(mode, neg, n / d, n % d, d) then 1 else 0
  }

  lemma DivLaw(n: nat, d: nat)
    requires d > 0
    ensures n == n / d * d + n % d && 0 <= n % d < d
  {
  }

  /** Every mode does to a signed fraction what its documentation says. */
  lemma RoundMeaning(mode: Mode, s: int, n: nat, d: nat)
    requires d > 0 && (s == 1 || s == -1)
    ensures IsRounded(mode, s * n, d, s * RoundMag(mode, s < 0, n, d))
  {
    DivLaw(n, d);
    var q, r := n / d, n % d;
    var m := RoundMag(mode, s < 0, n, d);
    OneMore(q, d);
    SignedPicks(mode, s, q, r, d, q * d);
    MulAssoc3(s, m, d);
  }

  lemma OneMore(q: int, d: int)
    ensures (q + 1) * d == q * d + d
  {
  }

  lemma SignedPicks(mode: Mode, s: int, q: nat, r: nat, d: nat, v: nat)
    requires r < d && (s == 1 || s == -1)
    ensures if Bump(mode, s < 0, q, r, d) then Picks(mode, s * (v + r), d, s * (v + d), s * (q + 1))
            else Picks(mode, s * (v + r), d, s * v, s * q)
  {
    if s == 1 {
      PicksPositive(mode, q, r, d, v);
    } else {
      PicksNegative(mode, q, r, d, v);
      Opposite(v + r); Opposite(v + d); Opposite(v); Opposite(q + 1); Opposite(q);
    }
  }

  lemma Opposite(x: int)
    ensures -1 * x == 0 - x
  {
  }

  lemma PicksPositive(mode: Mode, q: nat, r: nat, d: nat, v: nat)
    requires r < d
    ensures if Bump(mode, false, q, r, d) then Picks(mode, v + r, d, v + d, q + 1) else Picks(mode, v + r, d, v, q)
  {
  }

  lemma PicksNegative(mode: Mode, q: nat, r: nat, d: nat, v: nat)
    requires r < d
    ensures if Bump(mode, true, q, r, d) then Picks(mode, 0 - (v + r), d, 0 - (v + d), 0 - (q + 1))
            else Picks(mode, 0 - (v + r), d, 0 - v, 0 - q)
  {
    assert (0 - q) % 2 == q % 2 && (0 - (q + 1)) % 2 == (q + 1) % 2;
  }

  /** The documentation leaves no choice: each mode picks exactly one integer. */
  lemma RoundUnique(mode: Mode, n: int, d: nat, m: int, m': int)
    requires IsRounded(mode, n, d, m) && IsRounded(mode, n, d, m')
    ensures m == m'
  {
    if m < m' {
      Neighbours(mode, n, d, m, m');
    } else if m' < m {
      Neighbours(mode, n, d, m', m);
    }
  }

  lemma Neighbours(mode: Mode, n: int, d: nat, lo: int, hi: int)
    requires lo < hi
    ensures !(IsRounded(mode, n, d, lo) && IsRounded(mode, n, d, hi))
  {
    MulMono(lo + 1, hi, d);
    assert (lo + 1) * d == lo * d + d;
    if hi > lo + 1 {
      MulMono(lo + 2, hi, d);
      assert (lo + 2) * d == lo * d + 2 * d;
    } else {
      if lo >= 0 { MulMono(0, lo, d); } else { MulMono(hi, 0, d); }
      OneOfTwo(mode, n, d, lo * d, lo);
    }
  }

  /** No mode accepts both of two neighbouring multiples that lie on one side of zero. */
  lemma OneOfTwo(mode: Mode, n: int, d: nat, v: int, m: int)
    requires v >= 0 || v + d <= 0
    ensures !(Picks(mode, n, d, v, m) && Picks(mode, n, d, v + d, m + 1))
  {
  }

  /** A fraction in other terms rounds the same. */
  lemma RoundScale(mode: Mode, neg: bool, n: nat, d: nat, k: nat)
    requires d > 0 && k > 0
    ensures n * k >= 0 && d * k > 0
    ensures RoundMag(mode, neg, n * k, d * k) == RoundMag(mode, neg, n, d)
  {
    DivScale(n, d, k);
    BumpScale(mode, neg, n / d, n % d, d, k);
  }

  lemma DivScale(n: nat, d: nat, k: nat)
    requires d > 0 && k > 0
    ensures n * k >= 0 && d * k > 0
    ensures (n * k) / (d * k) == n / d && (n * k) % (d * k) == (n % d) * k
  {
    DivLaw(n, d);
    var q, r := n / d, n % d;
    ScaleSum(q, d, r, k);
    MulStrict(r, d, k);
    DivModUnique(q, d * k, r * k);
  }

  lemma ScaleSum(q: int, d: int, r: int, k: int)
    ensures (q * d + r) * k == q * (d * k) + r * k
  {
    MulAssoc3(q, d, k);
  }

  lemma BumpScale(mode: Mode, neg: bool, q: nat, r: nat, d: nat, k: nat)
    requires k > 0
    ensures r * k >= 0 && d * k >= 0
    ensures Bump(mode, neg, q, r * k, d * k) == Bump(mode, neg, q, r, d)
  {
    MulAssoc3(2, r, k);
    MulCancel(2 * r, d, k);
    MulCancel(d, 2 * r, k);
  }
}
