/**
 What the reader makes of a number: plain, big or an error by the exact value of
 the literal, and if it is plain, the double that IEEE 754 rounds that value to.
 */
module JsonNumbers {
  import opened Wrappers
  import opened Digits
  import opened Numbers
  import opened Arithmetic
  import opened Laws
  import opened Numerals
  import opened NumberText
  import opened NumberLayout
  import opened Doubles
  import opened JsonCodec

  /** How many decimal places the exponent leaves of those written. */
  function PlacesIn(l: Literal): int
  {
    |l.fp| - ExponentOf(l)
  }

  /** The magnitude of a literal, exactly, as a fraction. */
  function Numerator(l: Literal): int
  {
    Val(l.ip + l.fp, 10) * Pow10(Max(0, 0 - PlacesIn(l)))
  }

  function Denominator(l: Literal): nat
  {
    Pow10(Max(0, PlacesIn(l)))
  }

  /** This fraction is the one that is converted to a double, perhaps in other terms. */
  lemma SameFraction(l: Literal) returns (c: nat)
    requires WellFormed(l)
    ensures var x := Unrounded(l);
            var k := Max(0, Places(x));
            && Valid(x) && Finite(x) && x.s == (if l.neg then -1 else 1) && MagOf(x, k) >= 0
            && c > 0 && Numerator(l) == MagOf(x, k) * c && Denominator(l) == Pow10(k) * c
  {
    hide Pow, Val, Exact, Mag, ExponentOf;
    UnroundedValid(l);
    DigitsNat(l);
    var x, j, v := Unrounded(l), PlacesIn(l), Val(l.ip + l.fp, 10);
    var k := Max(0, Places(x));
    MagPositive(x, k);
    PowStep(10, 0);
    if v == 0 {
      assert Places(x) == 0;
      c := Denominator(l);
    } else {
      ExactMeaning(x.s, v, j);
      hide Unrounded;
      if j >= 0 {
        c := Pow10(j - k);
        MagShift(x.c, x.e, k, j - k);
        PowAdd(10, k, j - k);
        Unit(v);
      } else {
        c := 1;
        MagShift(x.c, x.e, j, 0 - j);
      }
    }
  }

  lemma Cancelled(n: nat, d: nat, c: nat, b: nat)
    requires c > 0
    ensures n * c > d * c * b <==> n > d * b
    ensures n * c >= d * c * b <==> n >= d * b
  {
    assert d * c * b == d * b * c by { Exchange(d, c, b); }
    MulCancel(d * b, n, c);
    MulCancel(n, d * b, c);
    if n > d * b { MulStrict(d * b, n, c); } else { MulMono(n, d * b, c); }
  }

  /** The double y, of this sign, is what IEEE 754 rounds num / den to. */
  ghost predicate IsDoubleOf(y: Number, s: int, num: nat, den: nat)
  {
    && Valid(y) && Finite(y) && y.s == s
    && exists q: nat, e: int :: RoundsTo(num, den, q, e) && IsBinary(y, q, e)
  }

  /**
   A literal that is a number is an error iff it is 2^1024 - 2^970 or more, a big
   number iff it is below and beyond 2^53 + 1, and otherwise the double nearest to
   its exact value, ties to even.
   */
  lemma NumberMeaning(l: Literal, g: Settings)
    requires IsNumeral(l)
    ensures var num, den := Numerator(l), Denominator(l);
            && num >= 0 && den > 0
            && (NumberOf(l, g) == None <==> num >= den * (Pow(2, MAX_BITS) - Pow(2, 970)))
            && (NumberOf(l, g) != None ==>
                 if num > den * (FULL + 1) then NumberOf(l, g) == Some(Big(ReadLiteral(l, g)))
                 else NumberOf(l, g).value.Plain? &&
                      IsDoubleOf(NumberOf(l, g).value.x, if l.neg then -1 else 1, num, den))
  {
    hide Pow, Val, Exact, Mag, ExponentOf, ToDouble, AboveInteger, Overflows, AsNumber, Unrounded, ReadLiteral,
      IsBinary, RoundsTo, IsNumeral, Numerator, Denominator;
    assert WellFormed(l) by { Formed(l); }
    var c := SameFraction(l);
    var x := Unrounded(l);
    var k := Max(0, Places(x));
    var num, den, r := MagOf(x, k), Pow10(k), Nearby(x);
    MulMono(0, num, c);
    MulStrict(0, den, c);
    AboveIff(num, den);
    OverflowIff(num, den);
    TopPowers();
    Cancelled(num, den, c, FULL + 1);
    Cancelled(num, den, c, Pow(2, MAX_BITS) - Pow(2, 970));
    DoubleMeaning(num, den);
    RoundsScaled(num, den, r.q, r.e, c);
    AsNumberMeaning(x.s, r);
  }

  lemma Formed(l: Literal)
    requires IsNumeral(l)
    ensures WellFormed(l)
  {
  }

  /** The integers of the host are written out, without a point and without an exponent. */
  lemma HostWhole(x: Number, st: Style)
    requires IsInteger(x)
    ensures var t, neg := HostText(x, st), x.s < 0 && !IsZero(x);
            && t != [] && (t[0] == MINUS <==> neg) && SMALL_E !in t
            && PlainLayout(if neg then t[1..] else t, false)
  {
    hide TextOf, PlainLayout, ExponentialLayout, Mag;
    SmallExponent(x);
    TextLayout(x, -7, 21);
  }

  /** Big numbers are written as `toString` writes them under the settings of the library. */
  lemma BigWritten(x: Number, gap: Text, st: Style)
    requires Valid(x) && Finite(x)
    ensures var t, neg := Print(Big(x), gap, st), x.s < 0 && !IsZero(x);
            && t != [] && (t[0] == MINUS <==> neg)
            && (SMALL_E in t <==> x.e <= st.expNeg || x.e >= st.expPos)
            && var u := if neg then t[1..] else t;
               if SMALL_E in t then ExponentialLayout(u, x.e, IsZero(x)) else PlainLayout(u, Places(x) > 0)
  {
    hide TextOf, PlainLayout, ExponentialLayout;
    TextLayout(x, st.expNeg, st.expPos);
  }

  lemma SmallExponent(x: Number)
    requires IsInteger(x)
    ensures 0 <= x.e < 21
  {
    hide Val, Pow, Mag;
    if !IsZero(x) {
      NumberBound(x, 0);
      if x.e >= 16 {
        PowMono(10, 16, x.e);
        Sixteen();
      }
    }
  }

  lemma Sixteen()
    ensures Pow10(16) > FULL
  {
    PowAdd(10, 8, 8);
    assert Pow(10, 8) == 100_000_000;
  }
}
