/**
 What the texts that `toString` writes look like: when it turns to exponential
 notation, where the point and the zeros are, and that no zero is superfluous.
 */
module NumberLayout {
  import opened Digits
  import opened Numbers
  import opened Numerals
  import opened NumberText

  /**
   Digits, with a point between two of them if `point`. No zero in front but a
   single one before the point, none at the end behind a point.
   */
  ghost predicate PlainLayout(u: Text, point: bool)
  {
    && u != [] && (u[0] == ZERO ==> |u| == 1 || u[1] == DOT)
    && if point then exists k :: 0 < k < |u| - 1 && PointAt(u, k) && u[|u| - 1] != ZERO
       else forall i :: 0 <= i < |u| ==> IsDigit(u[i])
  }

  ghost predicate PointAt(u: Text, k: int)
  {
    0 <= k < |u| && u[k] == DOT && forall i :: 0 <= i < |u| && i != k ==> IsDigit(u[i])
  }

  /**
   One digit, which is no zero unless the number is, then perhaps a point and more
   digits without a zero at the end; an `e`, always a sign, and the exponent without
   a zero in front.
   */
  ghost predicate ExponentialLayout(u: Text, e: int, zero: bool)
  {
    exists k :: ExponentAt(u, k, e) && FrontOf(u, k, zero)
  }

  ghost predicate ExponentAt(u: Text, k: int, e: int)
  {
    && 0 < k && k + 2 < |u| && u[k] == SMALL_E && u[k + 1] == (if e < 0 then MINUS else PLUS)
    && (forall i :: k + 2 <= i < |u| ==> IsDigit(u[i]))
    && (u[k + 2] == ZERO ==> |u| == k + 3)
    && Val(DigitsIn(u[k + 2..]), 10) == Abs(e)
  }

  ghost predicate FrontOf(u: Text, k: int, zero: bool)
    requires 0 < k < |u|
  {
    && IsDigit(u[0]) && (u[0] == ZERO <==> zero)
    && (k == 1 || (k > 2 && u[1] == DOT && (forall i :: 2 <= i < k ==> IsDigit(u[i])) && u[k - 1] != ZERO))
  }

  /**
   The text of every finite number: a minus sign iff it is below zero, exponential
   notation iff its exponent is at one of the limits or beyond, and otherwise a point
   iff it has decimal places.
   */
  lemma TextLayout(x: Number, expNeg: int, expPos: int)
    requires Valid(x) && Finite(x)
    ensures var t, neg := TextOf(x, expNeg, expPos), x.s < 0 && !IsZero(x);
            && t != [] && (t[0] == MINUS <==> neg)
            && (SMALL_E in t <==> x.e <= expNeg || x.e >= expPos)
            && var u := if neg then t[1..] else t;
               if SMALL_E in t then ExponentialLayout(u, x.e, IsZero(x)) else PlainLayout(u, Places(x) > 0)
  {
    hide LiteralOf, Spelled, SpellFraction, SpellExponent, Spell, ExponentialLayout, PlainLayout;
    var l := LiteralOf(x, expNeg, expPos);
    var u := Spelled(l.ip) + (SpellFraction(l) + SpellExponent(l));
    BodyLayout(x, expNeg, expPos, u);
    Signed(l, u);
  }

  lemma Signed(l: Literal, u: Text)
    requires u == Spelled(l.ip) + (SpellFraction(l) + SpellExponent(l))
    ensures var t := Spell(l);
            && (if l.neg then t != [] && t[0] == MINUS && t[1..] == u else t == u)
            && (SMALL_E in t <==> SMALL_E in u)
  {
    assert l.neg ==> ([MINUS] + u)[1..] == u;
  }

  /** The text without its sign. */
  lemma BodyLayout(x: Number, expNeg: int, expPos: int, u: Text)
    requires Valid(x) && Finite(x)
    requires var l := LiteralOf(x, expNeg, expPos); u == Spelled(l.ip) + (SpellFraction(l) + SpellExponent(l))
    ensures LiteralOf(x, expNeg, expPos).neg <==> x.s < 0 && !IsZero(x)
    ensures u != [] && u[0] != MINUS && (SMALL_E in u <==> x.e <= expNeg || x.e >= expPos)
    ensures if SMALL_E in u then ExponentialLayout(u, x.e, IsZero(x)) else PlainLayout(u, Places(x) > 0)
  {
    hide Val, Spelled, IntegerDigits, ExponentialLayout, PlainLayout;
    var l := LiteralOf(x, expNeg, expPos);
    var f, e := SpellFraction(l), SpellExponent(l);
    hide LiteralOf, SpellFraction, SpellExponent;
    LiteralParts(x, expNeg, expPos);
    if x.e <= expNeg || x.e >= expPos {
      Scientific(x.c, x.e, u);
    } else {
      assert f + [] == f;
      if x.e < 0 {
        SmallNumber(x.c, -x.e - 1, u);
      } else if x.e + 1 >= |x.c| {
        WholeNumber(x.c, x.e + 1 - |x.c|, u);
      } else {
        MixedNumber(x.c, x.e + 1, u);
      }
      PlainUnits(u, Places(x) > 0);
    }
  }

  lemma LiteralParts(x: Number, expNeg: int, expPos: int)
    requires Valid(x) && Finite(x)
    ensures var l, n := LiteralOf(x, expNeg, expPos), |x.c|;
            var i, f, e := Spelled(l.ip), SpellFraction(l), SpellExponent(l);
            && (l.neg <==> x.s < 0 && !IsZero(x))
            && if x.e <= expNeg || x.e >= expPos then
                 && i == Spelled([x.c[0]]) && f == (if n > 1 then [DOT] + Spelled(x.c[1..]) else [])
                 && e == [SMALL_E] + [if x.e < 0 then MINUS else PLUS] + Spelled(IntegerDigits(Abs(x.e)))
               else
                 && e == []
                 && if x.e < 0 then i == Spelled([0]) && f == [DOT] + Spelled(Zeros(-x.e - 1) + x.c)
                    else if x.e + 1 >= n then i == Spelled(x.c + Zeros(x.e + 1 - n)) && f == []
                    else i == Spelled(x.c[..x.e + 1]) && f == [DOT] + Spelled(x.c[x.e + 1..])
  {
    hide Spelled, IntegerDigits;
  }

  lemma PlainUnits(u: Text, point: bool)
    requires PlainLayout(u, point)
    ensures SMALL_E !in u && u != [] && u[0] != MINUS
  {
  }

  lemma Scientific(c: seq<int>, e: int, u: Text)
    requires NormalDigits(c)
    requires var tail := [SMALL_E] + [if e < 0 then MINUS else PLUS] + Spelled(IntegerDigits(Abs(e)));
             u == Spelled([c[0]]) + ((if |c| > 1 then [DOT] + Spelled(c[1..]) else []) + tail)
    ensures ExponentialLayout(u, e, c == [0]) && SMALL_E in u && u != [] && u[0] != MINUS
  {
    hide Val, IntegerDigits, ExponentAt, FrontOf, Spelled;
    var front := Spelled([c[0]]) + if |c| > 1 then [DOT] + Spelled(c[1..]) else [];
    var d, sign := IntegerDigits(Abs(e)), if e < 0 then MINUS else PLUS;
    assert u == front + ([SMALL_E] + [sign] + Spelled(d));
    NoLeadingZero(Abs(e));
    TailLayout(front, sign, d, e, u);
    FrontLayout(c, front, u);
    assert u[|front|] == SMALL_E;
  }

  lemma TailLayout(front: Text, sign: int, d: seq<int>, e: int, u: Text)
    requires front != [] && u == front + ([SMALL_E] + [sign] + Spelled(d))
    requires sign == (if e < 0 then MINUS else PLUS)
    requires InBase(d, 10) && d != [] && (d[0] == 0 ==> |d| == 1) && Val(d, 10) == Abs(e)
    ensures ExponentAt(u, |front|, e)
  {
    hide *;
    TailUnits(front, sign, d, u);
    TailDigits(front, sign, d, u);
    ExponentIs(u, |front|, sign, d, e);
  }

  lemma TailUnits(front: Text, sign: int, d: seq<int>, u: Text)
    requires InBase(d, 10) && u == front + ([SMALL_E] + [sign] + Spelled(d))
    ensures var k := |front|;
            && |u| == k + 2 + |d| && u[k] == SMALL_E && u[k + 1] == sign
            && (forall i :: k + 2 <= i < |u| ==> IsDigit(u[i]))
            && (d != [] ==> u[k + 2] == ZERO + d[0])
  {
    hide Spelled;
  }

  lemma TailDigits(front: Text, sign: int, d: seq<int>, u: Text)
    requires u == front + ([SMALL_E] + [sign] + Spelled(d))
    ensures |u| == |front| + 2 + |d| && DigitsIn(u[|front| + 2..]) == d
  {
    hide DigitsIn;
    SpelledBack(d);
    assert u[|front| + 2..] == Spelled(d);
  }

  lemma ExponentIs(u: Text, k: int, sign: int, d: seq<int>, e: int)
    requires 0 < k && d != [] && |u| == k + 2 + |d| && u[k] == SMALL_E && u[k + 1] == sign && u[k + 2] == ZERO + d[0]
    requires (forall i :: k + 2 <= i < |u| ==> IsDigit(u[i])) && DigitsIn(u[k + 2..]) == d
    requires sign == (if e < 0 then MINUS else PLUS) && (d[0] == 0 ==> |d| == 1) && Val(d, 10) == Abs(e)
    ensures ExponentAt(u, k, e)
  {
    hide Val, DigitsIn;
  }

  lemma FrontLayout(c: seq<int>, front: Text, u: Text)
    requires NormalDigits(c) && front <= u && |front| < |u|
    requires front == Spelled([c[0]]) + if |c| > 1 then [DOT] + Spelled(c[1..]) else []
    ensures FrontOf(u, |front|, c == [0]) && u[0] != MINUS
  {
    forall i | 0 <= i < |front| ensures u[i] == front[i] {}
    assert |c| == 1 ==> c == [c[0]];
  }

  lemma NoLeadingZero(n: nat)
    ensures var d := IntegerDigits(n); InBase(d, 10) && d != [] && (d[0] == 0 ==> |d| == 1)
  {
  }

  /** Below one: a zero, the point, `n` more zeros and the digits. */
  lemma SmallNumber(c: seq<int>, n: nat, u: Text)
    requires NormalDigits(c) && c != [0] && u == Spelled([0]) + ([DOT] + Spelled(Zeros(n) + c))
    ensures PlainLayout(u, true)
  {
    assert u[|u| - 1] == ZERO + c[|c| - 1];
    assert PointAt(u, 1);
  }

  lemma WholeNumber(c: seq<int>, n: nat, u: Text)
    requires NormalDigits(c) && (c == [0] ==> n == 0) && u == Spelled(c + Zeros(n)) + []
    ensures PlainLayout(u, false)
  {
  }

  lemma MixedNumber(c: seq<int>, n: nat, u: Text)
    requires NormalDigits(c) && 0 < n < |c| && u == Spelled(c[..n]) + ([DOT] + Spelled(c[n..]))
    ensures PlainLayout(u, true)
  {
    assert u[|u| - 1] == ZERO + c[|c| - 1];
    assert PointAt(u, n);
  }
}
