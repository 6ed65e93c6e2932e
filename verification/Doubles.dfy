/**
 The host's plain numbers: the double nearest to a decimal, ties going to the even
 one. The JSON reader keeps a number plain or makes it a big number by what this
 conversion gives, so its thresholds are thresholds of rounded values.
 */
module Doubles {
  import opened Digits
  import opened Numbers
  import opened Rounding

  /** A magnitude of q * 2^e; at most 53 bits are significant. */
  datatype Double = Double(q: nat, e: int)

  const HALF: nat := 0x10_0000_0000_0000
  const FULL: nat := 0x20_0000_0000_0000
  const LEAST := -1074

  function Nearest(num: nat, den: nat): nat
    requires den > 0
  {
    RoundMag(ROUND_HALF_EVEN, false, num, den)
  }

  /** num/den * 2^e with the unit doubled until 53 bits are left. */
  function Up(num: nat, den: nat, e: int): Double
    requires den > 0 && num >= den * HALF
    decreases num - den
  {
    if num >= den * FULL then Up(num, 2 * den, e + 1) else Double(Nearest(num, den), e)
  }

  /** num/den * 2^e with the unit halved until 53 bits are left or no smaller unit exists. */
  function Down(num: nat, den: nat, e: int): Double
    requires den > 0 && num < den * FULL
    decreases e - LEAST
  {
    if num < den * HALF && e > LEAST then Down(2 * num, den, e - 1) else Double(Nearest(num, den), e)
  }

  function ToDouble(num: nat, den: nat): Double
    requires den > 0
  {
    if num >= den * FULL then Up(num, den, 0) else Down(num, den, 0)
  }

  /** The double nearest to a finite number; the sign apart. */
  function Nearby(x: Number): Double
    requires Valid(x) && Finite(x)
  {
    var k := Max(0, Places(x));
    MagPositive(x, k);
    ToDouble(MagOf(x, k), Pow10(k))
  }

  /** A double as a number in normal form; every double is a finite decimal. */
  function AsNumber(s: int, d: Double): Number
  {
    if d.q == 0 then Zero(s)
    else if d.e >= 0 then Exact(s, d.q * Pow(2, d.e), 0)
    else Exact(s, d.q * Pow(5, -d.e), -d.e)
  }

  predicate AboveInteger(d: Double)
  {
    d.e >= 0 && d.q * Pow(2, d.e) > FULL
  }

  const MAX_BITS: nat := 1024

  /** No double is as large: the conversion gives an infinity. */
  predicate Overflows(d: Double)
  {
    d.e >= 0 && d.q * Pow(2, d.e) >= Pow(2, MAX_BITS)
  }

  lemma AsNumberValid(s: int, d: Double)
    requires s == 1 || s == -1
    ensures Valid(AsNumber(s, d)) && Finite(AsNumber(s, d)) && AsNumber(s, d).s == s
  {
    hide Pow, Exact;
    if d.q > 0 {
      if d.e >= 0 {
        MulStrict(0, d.q, Pow(2, d.e));
        ExactMeaning(s, d.q * Pow(2, d.e), 0);
      } else {
        MulStrict(0, d.q, Pow(5, -d.e));
        ExactMeaning(s, d.q * Pow(5, -d.e), -d.e);
      }
    }
  }

  // ----- the shape of the result

  lemma {:induction false} UpShape(num: nat, den: nat, e: int)
    requires den > 0 && num >= den * HALF
    ensures var r := Up(num, den, e);
            && r.e >= e
            && var u := den * Pow(2, r.e - e);
            u > 0 && u * HALF <= num < u * FULL && r.q == Nearest(num, u)
    decreases num - den
  {
    hide Nearest;
    if num >= den * FULL {
      UpShape(num, 2 * den, e + 1);
      var k := Up(num, den, e).e - e;
      PowStep(2, k - 1);
      MulAssoc3(2, den, Pow(2, k - 1));
      MulAssoc3(den, 2, Pow(2, k - 1));
    } else {
      PowStep(2, 0);
    }
  }

  lemma {:induction false} DownShape(num: nat, den: nat, e: int)
    requires den > 0 && num < den * FULL && e >= LEAST
    ensures var r := Down(num, den, e);
            && LEAST <= r.e <= e
            && var m := num * Pow(2, e - r.e);
            0 <= m < den * FULL && r.q == Nearest(m, den) && (r.e > LEAST ==> m >= den * HALF)
    decreases e - LEAST
  {
    hide Nearest;
    if num < den * HALF && e > LEAST {
      DownShape(2 * num, den, e - 1);
      var k := e - Down(num, den, e).e;
      PowStep(2, k - 1);
      MulAssoc3(2, num, Pow(2, k - 1));
      MulAssoc3(num, 2, Pow(2, k - 1));
    } else {
      PowStep(2, 0);
    }
  }

  /** Whole units stay within whole bounds when they are rounded. */
  lemma NearestBounds(num: nat, den: nat, lo: nat, hi: nat)
    requires den > 0 && den * lo <= num && num < den * hi
    ensures lo <= Nearest(num, den) <= hi
  {
    DivLaw(num, den);
    var q := num / den;
    if q < lo { MulMono(q + 1, lo, den); }
    if q >= hi { MulMono(hi, q, den); }
  }

  /**
   By the rounding of IEEE 754 the fraction num / den becomes q * 2^e: a multiple of
   a power of two with at most 53 bits, nearest to the fraction, even on a tie; the
   unit is the smallest one that leaves no more bits.
   */
  ghost predicate RoundsTo(num: nat, den: nat, q: nat, e: int)
  {
    && LEAST <= e && q <= FULL && (e > LEAST ==> q >= HALF)
    && (if e >= 0 then IsRounded(ROUND_HALF_EVEN, num, den * Pow(2, e), q)
        else IsRounded(ROUND_HALF_EVEN, num * Pow(2, -e), den, q))
  }

  /** The conversion is this rounding. */
  lemma DoubleMeaning(num: nat, den: nat)
    requires den > 0
    ensures var r := ToDouble(num, den); RoundsTo(num, den, r.q, r.e)
  {
    hide Pow, Up, Down, IsRounded;
    var r := ToDouble(num, den);
    if num >= den * FULL {
      UpShape(num, den, 0);
      NearestBounds(num, den * Pow(2, r.e), HALF, FULL);
      NearestRounded(num, den * Pow(2, r.e));
    } else {
      DownShape(num, den, 0);
      PowStep(2, 0);
      var m := num * Pow(2, 0 - r.e);
      NearestBounds(m, den, if r.e > LEAST then HALF else 0, FULL);
      NearestRounded(m, den);
    }
  }

  /** A fraction in other terms rounds the same. */
  lemma RoundsScaled(num: nat, den: nat, q: nat, e: int, c: nat)
    requires RoundsTo(num, den, q, e) && c > 0
    ensures num * c >= 0 && den * c >= 0 && RoundsTo(num * c, den * c, q, e)
  {
    hide Pow;
    MulMono(0, num, c);
    MulMono(0, den, c);
    if e >= 0 {
      var p := Pow(2, e);
      EvenScaled(num, den * p, q, c);
      assert (den * p) * c == (den * c) * p by { MulAssoc3(den, p, c); MulAssoc3(den, c, p); Commute(p, c); }
    } else {
      var p := Pow(2, -e);
      MulMono(0, num, p);
      EvenScaled(num * p, den, q, c);
      assert (num * p) * c == (num * c) * p by { MulAssoc3(num, p, c); MulAssoc3(num, c, p); Commute(p, c); }
    }
  }

  lemma EvenScaled(n: nat, d: nat, m: nat, c: nat)
    requires IsRounded(ROUND_HALF_EVEN, n, d, m) && c > 0
    ensures n * c >= 0 && d * c >= 0 && IsRounded(ROUND_HALF_EVEN, n * c, d * c, m)
  {
    MulMono(0, n, c);
    MulMono(0, d, c);
    MulAssoc3(m, d, c);
    Distribute(m * d - n, m * d, n, c);
    ScaledGap(Abs(m * d - n), d, c);
    if m * d - n < 0 { Neg(m * d - n, c); }
  }

  lemma ScaledGap(gap: nat, d: nat, c: nat)
    requires c > 0
    ensures gap < d ==> gap * c < d * c
    ensures 2 * gap <= d ==> 2 * (gap * c) <= d * c
    ensures 2 * (gap * c) == d * c ==> 2 * gap == d
  {
    MulAssoc3(2, gap, c);
    if gap < d { MulStrict(gap, d, c); }
    if 2 * gap <= d { MulMono(2 * gap, d, c); }
    MulCancel(2 * gap, d, c);
  }

  /** The magnitude of y is q * 2^e. */
  ghost predicate IsBinary(y: Number, q: nat, e: int)
  {
    forall k: nat :: k >= Places(y) ==>
      if e >= 0 then MagOf(y, k) == q * Pow(2, e) * Pow10(k) else MagOf(y, k) * Pow(2, -e) == q * Pow10(k)
  }

  /** A double as a number has the value of the double, whether it is an integer or not. */
  lemma AsNumberMeaning(s: int, d: Double)
    requires s == 1 || s == -1
    ensures Valid(AsNumber(s, d)) && Finite(AsNumber(s, d)) && AsNumber(s, d).s == s
    ensures IsBinary(AsNumber(s, d), d.q, d.e)
  {
    hide Pow, Exact, Mag, AsNumber;
    AsNumberValid(s, d);
    forall k: nat | k >= Places(AsNumber(s, d))
      ensures if d.e >= 0 then MagOf(AsNumber(s, d), k) == d.q * Pow(2, d.e) * Pow10(k)
              else MagOf(AsNumber(s, d), k) * Pow(2, -d.e) == d.q * Pow10(k)
    {
      AsNumberAt(s, d, k);
    }
  }

  lemma AsNumberAt(s: int, d: Double, k: nat)
    requires (s == 1 || s == -1) && k >= Places(AsNumber(s, d))
    ensures if d.e >= 0 then MagOf(AsNumber(s, d), k) == d.q * Pow(2, d.e) * Pow10(k)
            else MagOf(AsNumber(s, d), k) * Pow(2, -d.e) == d.q * Pow10(k)
  {
    hide Pow, Exact, Mag;
    AsNumberValid(s, d);
    var y := AsNumber(s, d);
    MagPositive(y, k);
    if d.q > 0 {
      if d.e >= 0 {
        MulStrict(0, d.q, Pow(2, d.e));
        ExactMeaning(s, d.q * Pow(2, d.e), 0);
        MagShift(y.c, y.e, 0, k);
      } else {
        var j := -d.e;
        MulStrict(0, d.q, Pow(5, j));
        ExactMeaning(s, d.q * Pow(5, j), j);
        hide AsNumber;
        TwosAndFives(j);
        Fractional(y, d.q, j, k);
      }
    }
  }

  lemma Fractional(y: Number, q: nat, j: nat, k: nat)
    requires k >= Places(y) && j >= Places(y) && MagOf(y, j) == q * Pow(5, j) && Pow(2, j) * Pow(5, j) == Pow10(j)
    ensures MagOf(y, k) * Pow(2, j) == q * Pow10(k)
  {
    hide Pow, Mag;
    var two := Pow(2, j);
    assert MagOf(y, j) * two == q * Pow10(j) by { MulAssoc3(q, Pow(5, j), two); Commute(Pow(5, j), two); }
    if k >= j {
      var p := Pow10(k - j);
      MagShift(y.c, y.e, j, k - j);
      PowAdd(10, j, k - j);
      assert (MagOf(y, j) * p) * two == (MagOf(y, j) * two) * p by { Exchange(MagOf(y, j), p, two); }
      MulAssoc3(q, Pow10(j), p);
    } else {
      var p := Pow10(j - k);
      MagShift(y.c, y.e, k, j - k);
      PowAdd(10, k, j - k);
      assert (MagOf(y, k) * p) * two == (MagOf(y, k) * two) * p by { Exchange(MagOf(y, k), p, two); }
      MulAssoc3(q, Pow10(k), p);
      MulCancel(MagOf(y, k) * two, q * Pow10(k), p);
    }
  }

  lemma Exchange(x: int, y: int, z: int)
    ensures (x * y) * z == (x * z) * y
  {
    MulAssoc3(x, y, z);
    MulAssoc3(x, z, y);
    Commute(y, z);
  }

  lemma NearestRounded(num: nat, den: nat)
    requires den > 0
    ensures IsRounded(ROUND_HALF_EVEN, num, den, Nearest(num, den))
  {
    RoundMeaning(ROUND_HALF_EVEN, 1, num, den);
  }

  // ----- thresholds

  /** Rounding to even gets past an even integer only from beyond the middle of the next unit. */
  lemma NearestAbove(num: nat, u: nat, n: nat)
    requires u > 0 && n % 2 == 0 && u * n <= num
    ensures Nearest(num, u) > n <==> 2 * (num - u * n) > u
  {
    hide Bump;
    DivLaw(num, u);
    EvenAbove(num / u, num % u, u, n);
    Commute(u, n);
  }

  lemma EvenAbove(q: nat, r: nat, u: nat, n: nat)
    requires r < u && n % 2 == 0 && n * u <= q * u + r
    ensures q + (if Bump(ROUND_HALF_EVEN, false, q, r, u) then 1 else 0) > n <==> 2 * (q * u + r - n * u) > u
  {
    if q < n { MulMono(q + 1, n, u); Distribute2(q, 1, u); }
    if q > n { MulMono(n + 1, q, u); Distribute2(n, 1, u); }
  }

  /** And to an even integer from the middle of the unit before it. */
  lemma NearestReaches(num: nat, u: nat, n: nat)
    requires u > 0 && n % 2 == 0 && n > 0 && u * (n - 1) <= num < u * n
    ensures Nearest(num, u) == n <==> 2 * (num - u * (n - 1)) >= u
  {
    hide Bump;
    DivLaw(num, u);
    Commute(u, n);
    Commute(u, n - 1);
    EvenReaches(num / u, num % u, u, n);
  }

  lemma EvenReaches(q: nat, r: nat, u: nat, n: nat)
    requires r < u && n % 2 == 0 && n > 0 && (n - 1) * u <= q * u + r < n * u
    ensures q + (if Bump(ROUND_HALF_EVEN, false, q, r, u) then 1 else 0) == n <==>
            2 * (q * u + r - (n - 1) * u) >= u
  {
    if q < n - 1 { MulMono(q + 1, n - 1, u); Distribute2(q, 1, u); }
    if q >= n { MulMono(n, q, u); }
  }

  /** The double is beyond 2^53 iff the decimal is beyond 2^53 + 1. */
  lemma AboveIff(num: nat, den: nat)
    requires den > 0
    ensures AboveInteger(ToDouble(num, den)) <==> num > den * (FULL + 1)
  {
    hide Pow, Up, Down, Nearest;
    var r := ToDouble(num, den);
    PowStep(2, 0);
    if num >= den * FULL {
      UpShape(num, den, 0);
      assert r.e != 0;
      var u := den * Pow(2, r.e);
      NearestBounds(num, u, HALF, FULL);
      PowStep(2, r.e - 1);
      if r.e == 1 {
        assert u == den * 2;
        NearestAbove(num, u, HALF);
      } else {
        PowStep(2, r.e - 2);
        var p := Pow(2, r.e - 2);
        assert Pow(2, r.e) == 4 * p;
        assert u >= den * 4 by { MulMono(4, 4 * p, den); }
        MulMono(HALF, r.q, 4 * p);
      }
    } else {
      DownShape(num, den, 0);
      if r.e == 0 {
        assert num * Pow(2, 0) == num;
        NearestBounds(num, den, 0, FULL);
      }
    }
  }

  lemma TopPowers()
    ensures var p := Pow(2, 970);
            p >= 1 && Pow(2, 971) == 2 * p && Pow(2, 972) == 4 * p && Pow(2, MAX_BITS) == 2 * (p * FULL)
  {
    hide Pow;
    PowStep(2, 970);
    PowStep(2, 971);
    PowAdd(2, 971, 53);
    FullPower();
    MulAssoc3(2, Pow(2, 970), FULL);
  }

  lemma FullPower()
    ensures Pow(2, 53) == FULL
  {
    assert Pow(2, 10) == 1024;
    PowAdd(2, 10, 10);
    PowAdd(2, 20, 20);
    PowAdd(2, 40, 10);
    PowAdd(2, 50, 3);
    assert Pow(2, 3) == 8;
  }

  /** The conversion overflows iff the decimal is 2^1024 - 2^970 or more. */
  lemma OverflowIff(num: nat, den: nat)
    requires den > 0
    ensures Overflows(ToDouble(num, den)) <==> num >= den * (Pow(2, MAX_BITS) - Pow(2, 970))
  {
    hide Pow, Up, Down, Nearest;
    var r, p := ToDouble(num, den), Pow(2, 970);
    TopPowers();
    var w := den * p;
    assert den * (Pow(2, MAX_BITS) - p) == w * (2 * FULL - 1) by { LimitAlgebra(den, p, FULL); }
    assert w >= den by { MulMono(1, p, den); }
    if num >= den * FULL {
      UpShape(num, den, 0);
      NearestBounds(num, den * Pow(2, r.e), HALF, FULL);
      OverflowUp(num, den, r.q, r.e, p, w);
    } else {
      DownShape(num, den, 0);
      PowStep(2, 0);
      NearestBounds(num * Pow(2, 0 - r.e), den, 0, FULL);
      if r.e == 0 {
        assert r.q * Pow(2, 0) == r.q;
        MulMono(1, p, FULL);
      }
    }
  }

  lemma LimitAlgebra(den: nat, p: nat, f: nat)
    ensures den * (2 * (p * f) - p) == den * p * (2 * f - 1)
  {
    MulAssoc3(den, p, 2 * f - 1);
    assert p * (2 * f - 1) == 2 * (p * f) - p by {
      MulAssoc3(p, 2, f);
      MulAssoc3(2, p, f);
      Distribute(2 * f - 1, 2 * f, 1, p);
    }
  }

  lemma OverflowUp(num: nat, den: nat, q: nat, k: nat, p: nat, w: nat)
    requires den > 0 && p == Pow(2, 970) && w == den * p && p >= 1 && w >= 1
    requires Pow(2, 971) == 2 * p && Pow(2, 972) == 4 * p && Pow(2, MAX_BITS) == 2 * (p * FULL)
    requires var u := den * Pow(2, k); u > 0 && u * HALF <= num < u * FULL && q == Nearest(num, u)
    requires HALF <= q <= FULL
    ensures q * Pow(2, k) >= Pow(2, MAX_BITS) <==> num >= w * (2 * FULL - 1)
  {
    hide Pow, Nearest;
    if k <= 970 {
      PowMono(2, k, 970);
      SmallUnit(num, den, q, Pow(2, k), p);
    } else if k == 971 {
      TopUnit(num, den, q, p);
    } else {
      PowMono(2, 972, k);
      LargeUnit(num, den, q, Pow(2, k), p);
    }
  }

  lemma SmallUnit(num: nat, den: nat, q: nat, x: nat, p: nat)
    requires den > 0 && 1 <= x <= p && num < den * x * FULL && q <= FULL
    ensures q * x < 2 * (p * FULL) && num < den * p * (2 * FULL - 1)
  {
    MulMono(x, p, den);
    MulMono(x, p, q);
    MulMono(q, FULL, p);
    MulStrict(0, den, p);
  }

  lemma TopUnit(num: nat, den: nat, q: nat, p: nat)
    requires den > 0 && p >= 1
    requires den * (2 * p) * HALF <= num < den * (2 * p) * FULL && den * (2 * p) > 0 && q == Nearest(num, den * (2 * p))
    requires HALF <= q <= FULL
    ensures q * (2 * p) >= 2 * (p * FULL) <==> num >= den * p * (2 * FULL - 1)
  {
    hide Nearest;
    var u, w := den * (2 * p), den * p;
    assert u == 2 * w by { MulAssoc3(den, 2, p); MulAssoc3(2, den, p); }
    MulCancel(FULL, q, 2 * p);
    assert FULL * (2 * p) == 2 * (p * FULL);
    if num >= u * (FULL - 1) {
      NearestReaches(num, u, FULL);
    } else {
      NearestBounds(num, u, HALF, FULL - 1);
    }
  }

  lemma LargeUnit(num: nat, den: nat, q: nat, x: nat, p: nat)
    requires den > 0 && 1 <= p && 4 * p <= x && den * x * HALF <= num && HALF <= q
    ensures q * x >= 2 * (p * FULL) && num >= den * p * (2 * FULL - 1)
  {
    MulMono(4 * p, x, den);
    assert den * (4 * p) == 4 * (den * p) by { MulAssoc3(den, 4, p); MulAssoc3(4, den, p); }
    MulMono(4 * p, x, q);
    MulMono(HALF, q, 4 * p);
    MulStrict(0, den, p);
  }

  // ----- integers of at most 53 bits are doubles

  lemma {:induction false} TwosAndFives(k: nat)
    ensures Pow(2, k) * Pow(5, k) == Pow10(k)
  {
    if k > 0 {
      TwosAndFives(k - 1);
      PowStep(2, k - 1); PowStep(5, k - 1); PowStep(10, k - 1);
      TensAlgebra(Pow(2, k - 1), Pow(5, k - 1));
    }
  }

  lemma TensAlgebra(x: int, y: int)
    ensures (2 * x) * (5 * y) == 10 * (x * y)
  {
  }

  lemma NearestWhole(n: nat)
    ensures Nearest(n, 1) == n
  {
    DivModUnique(n, 1, 0);
  }

  lemma IntegerIsDouble(s: int, n: nat)
    requires (s == 1 || s == -1) && n <= FULL
    ensures AsNumber(s, ToDouble(n, 1)) == Exact(s, n, 0)
  {
    hide Pow, Up, Down, Nearest, Exact;
    var r := ToDouble(n, 1);
    PowStep(2, 0);
    if n == FULL {
      TopInteger();
    } else {
      DownShape(n, 1, 0);
      var j := 0 - r.e;
      NearestWhole(n * Pow(2, j));
      assert r.q == n * Pow(2, j);
      if n == 0 {
        assert Exact(s, 0, 0) == Zero(s) by { ExactZero(s, 0); }
      } else {
        MulStrict(0, n, Pow(2, j));
        ExactScale(s, n, 0, j);
        TwosAndFives(j);
        MulAssoc3(n, Pow(2, j), Pow(5, j));
        PowStep(5, 0);
      }
    }
  }

  lemma TopInteger()
    ensures ToDouble(FULL, 1) == Double(HALF, 1) && Pow(2, 1) == 2
  {
    PowStep(2, 0);
    DivModUnique(HALF, 2, 0);
    assert Up(FULL, 1, 0) == Up(FULL, 2, 1) == Double(Nearest(FULL, 2), 1);
  }
}
