/**
 The decision of `rnd`, made on single digits, against the rounding of the exact
 value those digits were cut off from.
 */
module DigitRounding {
  import opened Digits
  import opened Numbers
  import opened Rounding
  import opened DigitLoops

  /**
   The two conditions of `rnd`: whether the digits `c`, cut off in front of digit
   `i`, go up. `sticky` says that something nonzero lies behind the last digit.
   A digit that is not there is the undefined of the source.
   */
  predicate GoesUp(mode: Mode, isNeg: bool, c: seq<int>, i: int, sticky: bool)
  {
    var there := 0 <= i < |c|;
    var more := sticky || i < 0 || i + 1 < |c|;
    if mode < ROUND_HALF_UP then
      (there || more) && (mode == ROUND_UP || (mode == ROUND_CEIL && !isNeg) || (mode == ROUND_FLOOR && isNeg))
    else
      there && (c[i] > 5 || (c[i] == 5 &&
        (mode == ROUND_HALF_UP || more || (mode == ROUND_HALF_EVEN && i > 0 && c[i - 1] % 2 == 1) ||
         (mode == ROUND_HALF_CEIL && !isNeg) || (mode == ROUND_HALF_FLOOR && isNeg))))
  }

  /**
   Digits `c` with exponent `e` cut off an exact magnitude of num/den units in
   the last of those digits. The operations keep numbers free of trailing zeros,
   and without that `rnd` would be wrong: it takes any digit that is there for
   something nonzero.
   */
  ghost predicate Cuts(c: seq<int>, sticky: bool, num: int, den: int)
  {
    && InBase(c, 10) && c != [] && (c[0] != 0 || c == [0])
    && den > 0 && Val(c, 10) * den <= num < (Val(c, 10) + 1) * den
    && (sticky <==> num != Val(c, 10) * den)
    && (sticky || c[|c| - 1] != 0)
  }

  /**
   What lies behind the first `n` digits: `w` parts of a unit of den * 10^(|c| - n),
   and it is zero only if nothing is there.
   */
  lemma Behind(c: seq<int>, sticky: bool, num: int, den: int, n: nat) returns (w: int)
    requires Cuts(c, sticky, num, den) && n <= |c|
    ensures num == Val(c[..n], 10) * (den * Pow10(|c| - n)) + w
    ensures 0 <= w < den * Pow10(|c| - n)
    ensures w == 0 <==> !sticky && n == |c|
  {
    hide Val, Pow;
    var k, p, t := Val(c[..n], 10), Pow10(|c| - n), Val(c[n..], 10);
    ValSplit(c, n, 10);
    ValBound(c[n..], 10);
    if n < |c| && !sticky { PopNonzero(c[n..]); }
    if n == |c| { ValEmpty(10); }
    w := num - k * (den * p);
    BehindAlgebra(k, p, t, den, num);
  }

  lemma BehindAlgebra(k: int, p: int, t: int, den: int, num: int)
    requires den > 0 && 0 <= t < p
    requires (k * p + t) * den <= num < (k * p + t + 1) * den
    ensures 0 <= t * den <= num - k * (den * p) < (t + 1) * den <= den * p
    ensures num == (k * p + t) * den <==> num - k * (den * p) == t * den
    ensures t > 0 ==> t * den > 0
  {
    assert (k * p + t) * den == k * (den * p) + t * den by {
      assert (k * p + t) * den == k * p * den + t * den;
      MulAssoc(k, p, den);
    }
    assert (k * p + t + 1) * den == (k * p + t) * den + den;
    MulMono(t + 1, p, den);
    MulMono(0, t, den);
    if t > 0 { MulMono(1, t, den); }
  }

  /** Dropping fewer digits than there are: the digit that decides, and what lies behind it. */
  lemma DropSome(c: seq<int>, sticky: bool, num: int, den: int, i: nat) returns (u: int, w: int)
    requires Cuts(c, sticky, num, den) && i < |c|
    ensures 0 <= w < u && den * Pow10(|c| - i) == 10 * u
    ensures num == Val(c[..i], 10) * (10 * u) + (c[i] * u + w)
    ensures w == 0 <==> !sticky && i + 1 == |c|
  {
    hide Val, Pow;
    w := Behind(c, sticky, num, den, i + 1);
    u := den * Pow10(|c| - i - 1);
    PowStep(10, |c| - i - 1);
    MulAssoc3(den, 10, Pow10(|c| - i - 1));
    PrefixStep(c, i);
    NextAlgebra(Val(c[..i], 10), c[i], u);
  }

  lemma NextAlgebra(k: int, d: int, u: int)
    ensures (k * 10 + d) * u == k * (10 * u) + d * u
  {
    assert k * 10 * u == k * (10 * u) by { MulAssoc3(k, 10, u); }
  }

  /** Dropping more digits than there are leaves less than a tenth of a unit. */
  lemma DropMore(c: seq<int>, sticky: bool, num: int, den: int, j: nat)
    requires Cuts(c, sticky, num, den) && j > |c|
    ensures 0 < num && 10 * num < den * Pow10(j)
  {
    hide Val, Pow;
    var v, p := Val(c, 10), Pow10(j - 1);
    PowStep(10, j - 1);
    MulAssoc3(den, 10, p);
    ValBound(c, 10);
    PowMono(10, |c|, j - 1);
    MulMono(v + 1, p, den);
    Commute(p, den);
    if !sticky { PopNonzero(c); MulMono(1, v, den); } else { MulMono(0, v, den); }
  }

  lemma LastParity(c: seq<int>)
    ensures Val(c, 10) % 2 == if c == [] then 0 else c[|c| - 1] % 2
  {
    hide Val;
    if c != [] {
      ValStep(c, 10);
      TenIsEven(Val(c[..|c| - 1], 10), c[|c| - 1]);
    } else {
      ValEmpty(10);
    }
  }

  lemma TenIsEven(q: int, d: int)
    ensures (q * 10 + d) % 2 == d % 2
  {
  }

  /** `rnd` decides on digits exactly what rounding the exact value asks for. */
  lemma DigitDecision(mode: Mode, isNeg: bool, c: seq<int>, i: int, sticky: bool, num: nat, den: nat)
    requires Cuts(c, sticky, num, den) && i < |c|
    ensures var up := if GoesUp(mode, isNeg, c, i, sticky) then 1 else 0;
            den * Pow10(|c| - i) > 0 &&
            RoundMag(mode, isNeg, num, den * Pow10(|c| - i)) == (if i > 0 then Val(c[..i], 10) else 0) + up
  {
    hide Val, Pow;
    if i < 0 {
      DropMore(c, sticky, num, den, |c| - i);
      DivModUnique(0, den * Pow10(|c| - i), num);
    } else {
      var u, w := DropSome(c, sticky, num, den, i);
      var k := Val(c[..i], 10);
      ValNat(c[..i]);
      if i == 0 { assert c[..0] == []; ValEmpty(10); }
      LastParity(c[..i]);
      BumpOfDigit(mode, isNeg, k, c[i], u, w);
      MulMono(c[i], 9, u);
      MulMono(0, c[i], u);
      DivModUnique(k, 10 * u, c[i] * u + w);
      NonzeroDigit(c, i, sticky);
    }
  }

  lemma NonzeroDigit(c: seq<int>, i: nat, sticky: bool)
    requires i < |c| && (sticky || c[|c| - 1] != 0)
    ensures sticky || i + 1 < |c| || c[i] != 0
  {
  }

  /** Comparing with half a unit of ten `u` is comparing the next digit with 5, up to what lies behind it. */
  lemma BumpOfDigit(mode: Mode, isNeg: bool, k: nat, d: int, u: int, w: int)
    requires 0 <= w < u && 0 <= d <= 9
    ensures d * u + w >= 0
    ensures d > 0 || w > 0 ==> d * u + w > 0
    ensures Bump(mode, isNeg, k, d * u + w, 10 * u) ==
            (if mode < ROUND_HALF_UP then
               (d > 0 || w > 0) &&
               (mode == ROUND_UP || (mode == ROUND_CEIL && !isNeg) || (mode == ROUND_FLOOR && isNeg))
             else
               d > 5 || (d == 5 && (w > 0 || mode == ROUND_HALF_UP || (mode == ROUND_HALF_EVEN && k % 2 == 1) ||
                 (mode == ROUND_HALF_CEIL && !isNeg) || (mode == ROUND_HALF_FLOOR && isNeg))))
  {
    if d > 5 { MulMono(6, d, u); } else if d < 5 { MulMono(d, 4, u); }
    if d > 0 { MulMono(1, d, u); }
  }

  // ----- what a rounded array stands for

  /** The exact magnitude num/den, in units of the last of `p` places, rounded to `dp` places. */
  function RoundedUnits(mode: Mode, isNeg: bool, p: int, dp: int, num: nat, den: nat): nat
    requires den > 0
  {
    ScaledFraction(p, dp, num, den);
    RoundMag(mode, isNeg, num * Pow10(Max(0, dp - p)), den * Pow10(Max(0, p - dp)))
  }

  lemma ScaledFraction(p: int, dp: int, num: nat, den: nat)
    requires den > 0
    ensures num * Pow10(Max(0, dp - p)) >= 0 && den * Pow10(Max(0, p - dp)) > 0
  {
    MulMono(0, num, Pow10(Max(0, dp - p)));
    MulMono(1, den, Pow10(Max(0, p - dp)));
  }

  /** What `rnd` may be called with: digits cut off from an exact magnitude, or zero. */
  ghost predicate RndInput(c: seq<int>, e: int, dp: int, sticky: bool, num: int, den: int)
  {
    || (c == [0] && e == 0 && dp >= 0 && !sticky && num == 0 && den == 1)
    || (Cuts(c, sticky, num, den) && (sticky ==> PlacesOf(c, e) > dp))
  }

  /** Digits to drop: the decision and the digits kept are the rounded magnitude. */
  lemma UnitsOfCut(mode: Mode, isNeg: bool, c: seq<int>, e: int, dp: int, sticky: bool, num: nat, den: nat)
    requires Cuts(c, sticky, num, den) && PlacesOf(c, e) > dp
    ensures var i := e + dp + 1;
            var up := if GoesUp(mode, isNeg, c, i, sticky) then 1 else 0;
            RoundedUnits(mode, isNeg, PlacesOf(c, e), dp, num, den) == (if i > 0 then Val(c[..i], 10) else 0) + up
  {
    hide Val, Pow, GoesUp, RoundMag, Cuts;
    DigitDecision(mode, isNeg, c, e + dp + 1, sticky, num, den);
    PowStep(10, 0);
    assert num * 1 == num;
  }

  /** No digits to drop: the magnitude is what it was. */
  lemma UnitsOfWhole(mode: Mode, isNeg: bool, c: seq<int>, e: int, dp: int, num: nat, den: nat)
    requires Cuts(c, false, num, den) && PlacesOf(c, e) <= dp
    ensures !GoesUp(mode, isNeg, c, e + dp + 1, false)
    ensures RoundedUnits(mode, isNeg, PlacesOf(c, e), dp, num, den) == Mag(c, e, dp)
  {
    hide Val, Pow;
    PowStep(10, 0);
    var v, p := Val(c, 10), Pow10(dp - PlacesOf(c, e));
    assert v * den * p == (v * p) * den by { MulAssoc(v, den, p); MulAssoc3(v, p, den); }
    ValNat(c);
    MulMono(0, v, p);
    DivModUnique(v * p, den, 0);
    assert den * 1 == den;
  }
}
