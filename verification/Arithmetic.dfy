/**
 What the operations of the engine are for: one function per operation, defined
 on values and not on digits, with the tables of special cases that the source
 gives in its comments. The lemmas say what these functions mean; the methods of
 `Engine` are proved to compute them.
 */
module Arithmetic {
  import opened Digits
  import opened Numbers
  import opened Rounding

  datatype Limit = AtMost(n: int) | Unlimited

  /** The settings shared by all operations: DECIMAL_PLACES, ROUNDING_MODE, MIN_EXP and MAX_EXP. */
  datatype Settings = Settings(dp: int, mode: Mode, lo: int, hi: Limit)

  predicate Over(e: int, hi: Limit)
  {
    hi.AtMost? && e > hi.n
  }

  /** Overflow to infinity, underflow to zero. */
  function Clamp(x: Number, g: Settings): Number
  {
    if !Nonzero(x) then x
    else if Over(x.e, g.hi) then Infinity(x.s)
    else if x.e < g.lo then Zero(x.s)
    else x
  }

  function Underflow(x: Number, lo: int): Number
  {
    if Nonzero(x) && x.e < lo then Zero(x.s) else x
  }

  function SignOf(x: Number, y: Number): int
  {
    if x.s == y.s then 1 else -1
  }

  // ----- addition and subtraction

  /** The exact sum of two nonzero finite numbers of one sign. */
  function SumSame(x: Number, y: Number): Number
    requires Valid(x) && Valid(y) && Finite(x) && Finite(y)
  {
    MagPositive(x, Scale(x, y));
    MagPositive(y, Scale(x, y));
    Exact(y.s, MagOf(x, Scale(x, y)) + MagOf(y, Scale(x, y)), Scale(x, y))
  }

  /** The exact difference of two nonzero finite numbers of one sign. */
  function DiffSame(x: Number, y: Number): Number
    requires Valid(x) && Valid(y) && Finite(x) && Finite(y)
  {
    var d := MagOf(x, Scale(x, y)) - MagOf(y, Scale(x, y));
    Exact(if d < 0 then -y.s else y.s, Abs(d), Scale(x, y))
  }

  function PlusSame(x: Number, y: Number): Number
    requires Valid(x) && Valid(y) && x.s == y.s != 0
  {
    if !Finite(x) || !Finite(y) then Infinity(x.s)
    else if IsZero(x) && IsZero(y) then Zero(x.s)
    else if IsZero(x) then y
    else if IsZero(y) then x
    else SumSame(x, y)
  }

  function MinusSame(x: Number, y: Number, lo: int): Number
    requires Valid(x) && Valid(y) && x.s == y.s != 0
  {
    if !Finite(x) then (if Finite(y) then x else NAN)
    else if !Finite(y) then Negate(y)
    else if IsZero(x) && IsZero(y) then Zero(1)
    else if IsZero(x) then Negate(y)
    else if IsZero(y) then x
    else Underflow(DiffSame(x, y), lo)
  }

  function Plus(x: Number, y: Number, lo: int): Number
    requires Valid(x) && Valid(y)
  {
    if IsNaN(x) || IsNaN(y) then NAN
    else if x.s == y.s then PlusSame(x, y)
    else MinusSame(x, Negate(y), lo)
  }

  function Minus(x: Number, y: Number, lo: int): Number
    requires Valid(x) && Valid(y)
  {
    if IsNaN(x) || IsNaN(y) then NAN
    else if x.s == y.s then MinusSame(x, y, lo)
    else PlusSame(x, Negate(y))
  }

  /**
   An addition whose sum has one digit more in front than both operands, and with
   it an exponent above the limit: the source then reads the length of null.
   */
  predicate PlusFails(x: Number, y: Number, hi: Limit)
    requires Valid(x) && Valid(y)
  {
    && Nonzero(x) && Nonzero(y) && x.s == y.s
    && SumSame(x, y).e > Max(x.e, y.e)
    && Over(SumSame(x, y).e, hi)
  }

  // ----- multiplication

  function Product(x: Number, y: Number): Number
    requires Valid(x) && Valid(y) && Finite(x) && Finite(y)
  {
    ProductNat(x, y);
    Exact(SignOf(x, y), Val(x.c, 10) * Val(y.c, 10), Places(x) + Places(y))
  }

  lemma ProductNat(x: Number, y: Number)
    requires Valid(x) && Valid(y) && Finite(x) && Finite(y)
    ensures Val(x.c, 10) >= 0 && Val(y.c, 10) >= 0 && Val(x.c, 10) * Val(y.c, 10) >= 0
  {
    ValBound(x.c, 10);
    ValBound(y.c, 10);
    MulMono(0, Val(x.c, 10), Val(y.c, 10));
  }

  function Times(x: Number, y: Number, g: Settings): Number
    requires Valid(x) && Valid(y)
  {
    if IsNaN(x) || IsNaN(y) then NAN
    else if !Finite(x) || !Finite(y) then
      (if IsZero(x) || IsZero(y) then NAN else Infinity(SignOf(x, y)))
    else if IsZero(x) || IsZero(y) then Zero(SignOf(x, y))
    else Clamp(Product(x, y), g)
  }

  // ----- division

  /** The fraction |x| / |y|, scaled by 10^dp. */
  function RatioNum(x: Number, y: Number, dp: int): int
  {
    Val(x.c, 10) * Pow10(Max(0, dp + Places(y) - Places(x)))
  }

  function RatioDen(x: Number, y: Number, dp: int): int
  {
    Val(y.c, 10) * Pow10(Max(0, Places(x) - Places(y) - dp))
  }

  lemma RatioPositive(x: Number, y: Number, dp: int)
    requires Valid(x) && Valid(y) && Nonzero(x) && Nonzero(y)
    ensures Val(x.c, 10) > 0 && Val(y.c, 10) > 0
    ensures RatioNum(x, y, dp) > 0 && RatioDen(x, y, dp) > 0
  {
    ValPositive(x.c);
    ValPositive(y.c);
    MulMono(1, Val(x.c, 10), Pow10(Max(0, dp + Places(y) - Places(x))));
    MulMono(1, Val(y.c, 10), Pow10(Max(0, Places(x) - Places(y) - dp)));
  }

  /** |x| / |y| rounded to `dp` decimal places, as a number of units of 10^-dp. */
  function QuotUnits(x: Number, y: Number, dp: int, mode: Mode): nat
    requires Valid(x) && Valid(y) && Nonzero(x) && Nonzero(y)
  {
    RatioPositive(x, y, dp);
    RoundMag(mode, SignOf(x, y) < 0, RatioNum(x, y, dp), RatioDen(x, y, dp))
  }

  function Quotient(x: Number, y: Number, dp: int, mode: Mode): Number
    requires Valid(x) && Valid(y) && Nonzero(x) && Nonzero(y)
  {
    Exact(SignOf(x, y), QuotUnits(x, y, dp, mode), dp)
  }

  function Div(x: Number, y: Number, g: Settings): Number
    requires Valid(x) && Valid(y)
  {
    if IsNaN(x) || IsNaN(y) then NAN
    else if (!Finite(x) && !Finite(y)) || (IsZero(x) && IsZero(y)) then NAN
    else if IsZero(x) || !Finite(y) then Zero(SignOf(x, y))
    else if IsZero(y) || !Finite(x) then Infinity(SignOf(x, y))
    else Clamp(Quotient(x, y, g.dp, g.mode), g)
  }

  // ----- rounding

  /** `x` rounded to `dp` decimal places. */
  function RoundTo(x: Number, dp: int, mode: Mode): Number
    requires Valid(x)
  {
    if !Finite(x) then x
    else
      ScaledMagNat(x, dp);
      Exact(x.s, RoundMag(mode, x.s < 0, ScaledMag(x, dp), Pow10(Max(0, Places(x) - dp))), dp)
  }

  function ScaledMag(x: Number, dp: int): int
  {
    Val(x.c, 10) * Pow10(Max(0, dp - Places(x)))
  }

  lemma ScaledMagNat(x: Number, dp: int)
    requires Valid(x)
    ensures ScaledMag(x, dp) >= 0
  {
    ValBound(x.c, 10);
    MulMono(0, Val(x.c, 10), Pow10(Max(0, dp - Places(x))));
  }

  // ----- comparison

  /** The order of two numbers that are not NaN: 1, 0 or -1. */
  function Cmp(x: Number, y: Number): int
    requires Valid(x) && Valid(y) && !IsNaN(x) && !IsNaN(y)
  {
    if !Finite(x) || !Finite(y) then
      (if x == y then 0
       else if Finite(x) then -y.s
       else x.s)
    else
      var d := At(x, Scale(x, y)) - At(y, Scale(x, y));
      if d > 0 then 1 else if d < 0 then -1 else 0
  }

  // ----- modulo and power

  function Mod(x: Number, y: Number, g: Settings): Number
    requires Valid(x) && Valid(y)
  {
    if IsNaN(x) || IsNaN(y) || IsZero(y) then NAN
    else if IsZero(x) || Cmp(y.(s := 1), x.(s := 1)) == 1 then x
    else
      var q := Div(x, y, g.(dp := 0, mode := ROUND_DOWN));
      DivValid(x, y, g.(dp := 0, mode := ROUND_DOWN));
      TimesValid(q, y, g);
      Minus(x, Times(q, y, g), g.lo)
  }

  function SignPower(s: int, n: nat): int
  {
    if n % 2 == 0 then 1 else s
  }

  /** The exact power, before the range of exponents is looked at. */
  function PowerOf(x: Number, n: nat): Number
    requires Valid(x)
  {
    if n == 0 then ONE
    else if IsNaN(x) then NAN
    else if !Finite(x) then Infinity(SignPower(x.s, n))
    else if IsZero(x) then Zero(SignPower(x.s, n))
    else
      ValPositive(x.c);
      Exact(SignPower(x.s, n), Pow(Val(x.c, 10), n), Places(x) * n)
  }

  function Power(x: Number, e: int, g: Settings): Number
    requires Valid(x)
  {
    if e == 0 then ONE
    else
      var p := Clamp(PowerOf(x, Abs(e)), g);
      PowerValid(x, Abs(e));
      if e < 0 then Div(ONE, p, g) else p
  }

  // ----- results are valid

  lemma TimesValid(x: Number, y: Number, g: Settings)
    requires Valid(x) && Valid(y)
    ensures Valid(Times(x, y, g))
  {
    hide Val, Pow, Exact;
    if Nonzero(x) && Nonzero(y) {
      ProductNat(x, y);
      ValPositive(x.c);
      ValPositive(y.c);
      MulMono(1, Val(x.c, 10), Val(y.c, 10));
      ExactMeaning(SignOf(x, y), Val(x.c, 10) * Val(y.c, 10), Places(x) + Places(y));
    }
  }

  lemma DivValid(x: Number, y: Number, g: Settings)
    requires Valid(x) && Valid(y)
    ensures Valid(Div(x, y, g))
  {
    hide Val, Pow, QuotUnits;
    if Nonzero(x) && Nonzero(y) && QuotUnits(x, y, g.dp, g.mode) != 0 {
      ExactMeaning(SignOf(x, y), QuotUnits(x, y, g.dp, g.mode), g.dp);
    }
  }

  lemma PowerValid(x: Number, n: nat)
    requires Valid(x)
    ensures Valid(PowerOf(x, n))
  {
    hide Val, Exact;
    if n > 0 && Nonzero(x) {
      ValPositive(x.c);
      ExactMeaning(SignPower(x.s, n), Pow(Val(x.c, 10), n), Places(x) * n);
    }
  }
}
