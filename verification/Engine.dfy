/**
 The big-number engine itself: BigNumber objects, the settings all of them
 share, and the operations, with the loops and the updates of the source.
 */
module Engine {
  import opened Digits
  import opened Numbers
  import opened Rounding
  import opened Arithmetic
  import opened DigitLoops
  import opened DigitRounding
  import opened LongDivision
  import opened Alignment
  import opened Powers

  class BigNumber {
    var s: int
    var e: int
    var c: seq<int>

    function Value(): Number
      reads this
    {
      Number(s, e, c)
    }

    constructor (v: Number)
      ensures Value() == v
    {
      s, e, c := v.s, v.e, v.c;
    }

    /** The duplicate that every operation makes of its argument before working on it. */
    constructor Copy(n: BigNumber)
      ensures Value() == n.Value()
    {
      s, e, c := n.s, n.e, n.c;
    }
  }

  /**
   The private variables of the library, DECIMAL_PLACES, ROUNDING_MODE, MIN_EXP,
   MAX_EXP, TO_EXP_NEG and TO_EXP_POS, and the operations that read and change them.
   */
  class Library {
    var decimalPlaces: int
    var roundingMode: Mode
    var minExp: int
    var maxExp: Limit
    var toExpNeg: int
    var toExpPos: int

    ghost function Config(): Settings
      reads this
    {
      Settings(decimalPlaces, roundingMode, minExp, maxExp)
    }

    /** What `config` lets a program set: at most -1 below, at least 1 above. */
    ghost predicate Ready()
      reads this
    {
      minExp < 0 && (maxExp.AtMost? ==> maxExp.n > 0)
    }

    constructor ()
      ensures Ready() && Config() == Settings(20, ROUND_HALF_UP, -1000000000, AtMost(1000000000))
    {
      decimalPlaces, roundingMode := 20, ROUND_HALF_UP;
      minExp, maxExp := -1000000000, AtMost(1000000000);
      toExpNeg, toExpPos := -7, 21;
    }

    // ----- times

    method Times(x: BigNumber, y0: BigNumber) returns (y: BigNumber)
      requires Valid(x.Value()) && Valid(y0.Value())
      ensures fresh(y) && y.Value() == Arithmetic.Times(x.Value(), y0.Value(), Config())
    {
      TimesSpecial(x.Value(), y0.Value(), Config());
      hide Arithmetic.Times, Val, Pow, Product, InBase, NormalDigits, Clamp;
      var xc, i := x.c, x.e;
      y := new BigNumber.Copy(y0);
      var yc, j, a, b := y.c, y.e, x.s, y.s;
      y.s := if a == b then 1 else -1;

      if (i == 0 && (xc == [] || xc[0] == 0)) || (j == 0 && (yc == [] || yc[0] == 0)) {
        if a == 0 || b == 0 || (xc != [] && xc[0] == 0 && yc == []) || (yc != [] && yc[0] == 0 && xc == []) {
          y := new BigNumber(NAN);
        } else if xc == [] || yc == [] {
          y := new BigNumber(Infinity(y.s));
        } else {
          y := new BigNumber(Zero(y.s));
        }
        return;
      }
      y.e := i + j;

      var c, carry := DigitProduct(xc, yc);
      if carry {
        y.e := y.e + 1;
      }
      TimesRegular(x.Value(), y0.Value(), c, y.e, Config());

      if Over(y.e, maxExp) {
        y.e, y.c := 0, [];
      } else if y.e < minExp {
        y.e, y.c := 0, [0];
      } else {
        y.c := c;
      }
    }

    // ----- plus and minus

    /** The sum; null stands for the TypeError that an overflowing sum runs into. */
    method Plus(x: BigNumber, y0: BigNumber) returns (y: BigNumber?)
      requires Valid(x.Value()) && Valid(y0.Value())
      ensures y == null <==> PlusFails(x.Value(), y0.Value(), maxExp)
      ensures y != null ==> fresh(y) && y.Value() == Arithmetic.Plus(x.Value(), y0.Value(), minExp)
      decreases if x.s == y0.s then 0 else 1
    {
      hide Val, Pow, InBase, SumSame, DiffSame, Common;
      var a := x.s;
      y := new BigNumber.Copy(y0);
      var b := y.s;
      if a == 0 || b == 0 {
        y := new BigNumber(NAN);
        return;
      }
      if a != b {
        y.s := -b;
        y := Minus(x, y);
        return;
      }
      var xe, xc, ye, yc := x.e, x.c, y.e, y.c;
      if xe == 0 || ye == 0 {
        if xc == [] || yc == [] {
          y := new BigNumber(Infinity(a));
          return;
        }
        if xc[0] == 0 || yc[0] == 0 {
          if yc[0] != 0 {
            return;
          } else if xc[0] != 0 {
            y := new BigNumber.Copy(x);
          } else {
            y := new BigNumber(Zero(a));
          }
          return;
        }
      }
      var carry;
      xc, ye, carry := SumDigits(xc, xe, yc, ye);
      SumResult(x.Value(), y0.Value(), xc, ye);
      if carry && Over(ye, maxExp) {
        return null;
      }
      y.c, y.e := xc, ye;
    }

    method Minus(x: BigNumber, y0: BigNumber) returns (y: BigNumber?)
      requires Valid(x.Value()) && Valid(y0.Value())
      ensures y == null <==> PlusFails(x.Value(), Negate(y0.Value()), maxExp)
      ensures y != null ==> fresh(y) && y.Value() == Arithmetic.Minus(x.Value(), y0.Value(), minExp)
      decreases if x.s != y0.s then 1 else 0
    {
      hide Val, Pow, InBase, SumSame, DiffSame, Common, PlusFails;
      NoFailure(x.Value(), y0.Value(), maxExp);
      var a := x.s;
      y := new BigNumber.Copy(y0);
      var b := y.s;
      if a == 0 || b == 0 {
        y := new BigNumber(NAN);
        return;
      }
      if a != b {
        y.s := -b;
        y := Plus(x, y);
        return;
      }
      var xc, xe, yc, ye := x.c, x.e, y.c, y.e;
      if xe == 0 || ye == 0 {
        if xc == [] || yc == [] {
          if xc != [] {
            y.s := -b;
          } else if yc != [] {
            y := new BigNumber.Copy(x);
          } else {
            y := new BigNumber(NAN);
          }
          return;
        }
        if xc[0] == 0 || yc[0] == 0 {
          if yc[0] != 0 {
            y.s := -b;
          } else if xc[0] != 0 {
            y := new BigNumber.Copy(x);
          } else {
            y := new BigNumber(Zero(1));
          }
          return;
        }
      }
      var xLTy;
      xc, ye, xLTy := DiffDigits(xc, xe, yc, ye);
      DiffResult(x.Value(), y0.Value(), xc, ye);
      if xLTy {
        y.s := -y.s;
      }
      if ye < minExp || xc == [] {
        xc, ye := [0], 0;
      }
      y.c, y.e := xc, ye;
    }

    // ----- rounding

    /**
     Rounds `x` to `dp` decimal places. `num` and `den` are the exact magnitude the
     digits of `x` stand for, in units of their last place; `sticky` tells whether
     it is more than the digits say.
     */
    method Rnd(x: BigNumber, dp: int, sticky: bool, ghost num: nat, ghost den: nat)
      requires x.s == 1 || x.s == -1
      requires RndInput(x.c, x.e, dp, sticky, num, den) && den > 0
      modifies x
      ensures x.Value() ==
        Exact(old(x.s), RoundedUnits(roundingMode, old(x.s) < 0, old(PlacesOf(x.c, x.e)), dp, num, den), dp)
    {
      hide Val, Pow, Strip, GoesUp, RoundedUnits, Cuts, Exact;
      var xc, i := x.c, x.e + dp + 1;
      var up := GoesUp(roundingMode, x.s < 0, xc, i, sticky);
      RndCases(roundingMode, x.s, xc, x.e, dp, sticky, num, den);
      if i < 1 || xc[0] == 0 {
        if up {
          x.c, x.e := [1], -dp;
        } else {
          x.c, x.e := [0], 0;
        }
        return;
      }
      // a longer array gets holes, which are taken off again with the trailing zeros
      xc := if i <= |xc| then xc[..i] else xc + Zeros(i - |xc|);
      if up {
        var grew;
        xc, grew := Increment(xc);
        if grew {
          x.e := x.e + 1;
        }
      }
      RndResult(x.s, xc, x.e, dp);
      x.c := PopZeros(xc);
    }

    /** Rounds a copy of `x0` under rounding mode `rm`, leaving the mode as it was. */
    method SetMode(x0: BigNumber, dp: nat, rm: Mode) returns (x: BigNumber)
      requires Valid(x0.Value())
      modifies this`roundingMode
      ensures fresh(x) && roundingMode == old(roundingMode)
      ensures x.Value() == RoundTo(x0.Value(), dp, rm)
    {
      var r := roundingMode;
      roundingMode := rm;
      x := new BigNumber.Copy(x0);
      if x.c != [] {
        WholeInput(x.Value(), dp);
        Rnd(x, dp, false, Val(x.c, 10), 1);
        WholeUnits(x0.Value(), dp, rm);
      }
      roundingMode := r;
    }

    // ----- division

    /** The private `divide`, in base 10: the digits of x over the digits of y. */
    method Divide(dvd: seq<int>, dvs: seq<int>, exp: int, s: int, ghost x: Number, ghost y: Number)
      returns (quo: BigNumber)
      requires Ready()
      requires Valid(x) && Valid(y) && Nonzero(x) && Nonzero(y)
      requires dvd == x.c && dvs == y.c && exp == x.e - y.e && s == SignOf(x, y)
      ensures fresh(quo) && quo.Value() == Clamp(Quotient(x, y, decimalPlaces, roundingMode), Config())
    {
      hide Val, Pow, IsCutOff, QuotNum, QuotDen, Exact, RoundedUnits, QuotUnits, RndInput;
      quo := new BigNumber(ONE);
      var dig := decimalPlaces + exp + 1;
      quo.s, quo.e := s, exp;
      var qc, more := LongDivide(dvd, dvs, if dig < 0 then 0 else dig);
      var qi := |qc|;
      ghost var n := |dvs| + qi - 1;
      QuotientInput(x, y, qc, more, decimalPlaces);
      if qc[0] == 0 && qi != 1 {
        quo.e, qc := quo.e - 1, qc[1..];
      }
      quo.c := qc;
      QuotientUnits(x, y, qi, decimalPlaces, roundingMode);
      if qi > dig {
        Rnd(quo, decimalPlaces, more, QuotNum(dvd, n), QuotDen(dvd, dvs, n));
      } else {
        ExactQuotient(x, y, qc, quo.e, n, decimalPlaces, roundingMode);
      }
      QuotientFinite(x, y, decimalPlaces, roundingMode);
      if Over(quo.e, maxExp) {
        quo.c, quo.e := [], 0;
      } else if quo.e < minExp {
        quo.c, quo.e := [0], 0;
      }
    }

    method Div(x: BigNumber, y0: BigNumber) returns (r: BigNumber)
      requires Ready()
      requires Valid(x.Value()) && Valid(y0.Value())
      ensures fresh(r) && r.Value() == Arithmetic.Div(x.Value(), y0.Value(), Config())
    {
      hide Val, Pow, InBase, Quotient;
      var xc, xe, xs := x.c, x.e, x.s;
      var y := new BigNumber.Copy(y0);
      var yc, ye, ys := y.c, y.e, y.s;
      var s := if xs == ys then 1 else -1;
      if (xe == 0 && (xc == [] || xc[0] == 0)) || (ye == 0 && (yc == [] || yc[0] == 0)) {
        if xs == 0 || ys == 0 || (if xc != [] then yc != [] && xc[0] == yc[0] == 0 else yc == []) {
          r := new BigNumber(NAN);
        } else if (xc != [] && xc[0] == 0) || yc == [] {
          r := new BigNumber(Zero(s));
        } else {
          r := new BigNumber(Infinity(s));
        }
        return;
      }
      r := Divide(xc, yc, xe - ye, s, x.Value(), y0.Value());
    }

    // ----- comparison

    /** 1, 0 or -1, or nothing when either number is NaN. */
    method Cmp(x: BigNumber, y0: BigNumber) returns (r: int, isNull: bool)
      requires Valid(x.Value()) && Valid(y0.Value())
      ensures isNull <==> IsNaN(x.Value()) || IsNaN(y0.Value())
      ensures !isNull ==> r == Arithmetic.Cmp(x.Value(), y0.Value())
    {
      hide Val, Pow, InBase, At;
      var xc := x.c;
      var y := new BigNumber.Copy(y0);
      var yc, i, j, k, l := y.c, x.s, y.s, x.e, y.e;
      r, isNull := 0, i == 0 || j == 0;
      if isNull {
        return;
      }
      if xc != [] && yc != [] {
        CmpCases(x.Value(), y0.Value());
      }
      var a, b := xc != [] && xc[0] == 0, yc != [] && yc[0] == 0;
      if a || b {
        r := if a then (if b then 0 else -j) else i;
        return;
      }
      if i != j {
        r := i;
        return;
      }
      a, b := i < 0, k == l;
      if xc == [] || yc == [] {
        r := if xc == [] && yc == [] then 0 else if (xc == []) != a then 1 else -1;
        return;
      }
      if !b {
        r := if (k > l) != a then 1 else -1;
        return;
      }
      var at := 0;
      while at < |xc| && at < |yc|
        invariant 0 <= at <= |xc| && at <= |yc| && xc[..at] == yc[..at]
      {
        if xc[at] != yc[at] {
          CmpDigits(x.Value(), y0.Value(), at);
          r := if (xc[at] > yc[at]) != a then 1 else -1;
          return;
        }
        at := at + 1;
      }
      CmpDigits(x.Value(), y0.Value(), at);
      r := if |xc| == |yc| then 0 else if (|xc| > |yc|) != a then 1 else -1;
    }

    // ----- modulo and power

    /**
     The remainder of the truncating division. The operands' signs and two of the
     settings are changed on the way and put back.
     */
    method Mod(x: BigNumber, y0: BigNumber) returns (r: BigNumber)
      requires Ready()
      requires Valid(x.Value()) && Valid(y0.Value())
      modifies x`s, this`decimalPlaces, this`roundingMode
      ensures fresh(r) && r.Value() == Arithmetic.Mod(old(x.Value()), old(y0.Value()), old(Config()))
      ensures x.Value() == old(x.Value()) && y0.Value() == old(y0.Value()) && Config() == old(Config())
    {
      hide Val, Pow, InBase, NormalDigits, Arithmetic.Cmp, Arithmetic.Div, Arithmetic.Times, Arithmetic.Minus;
      ghost var g, vx, vy := Config(), x.Value(), y0.Value();
      var y := new BigNumber.Copy(y0);
      var i, j := x.s, y.s;
      Shapes(vx);
      Shapes(vy);
      if i == 0 || j == 0 || (y.c != [] && y.c[0] == 0) {
        r := new BigNumber(NAN);
        return;
      }
      if x.c != [] && x.c[0] == 0 {
        r := new BigNumber.Copy(x);
        return;
      }
      x.s, y.s := 1, 1;
      var c, isNull := Cmp(y, x);
      x.s, y.s := i, j;
      if c == 1 {
        r := new BigNumber.Copy(x);
        return;
      }
      ModSteps(vx, vy, g);
      var dp, rm := decimalPlaces, roundingMode;
      decimalPlaces, roundingMode := 0, ROUND_DOWN;
      var q := Div(x, y);
      decimalPlaces, roundingMode := dp, rm;
      q := Times(q, y);
      var d := Minus(x, q);
      r := d;
    }

    /** `x` to the power of the integer `e`, by squaring and multiplying. */
    method Power(x0: BigNumber, e: int) returns (y: BigNumber)
      requires Ready()
      requires Valid(x0.Value()) && -1000000 <= e <= 1000000
      ensures fresh(y) && y.Value() == Arithmetic.Power(x0.Value(), e, Config())
    {
      hide Val, Pow, InBase, NormalDigits, PowerOf, Arithmetic.Div, Arithmetic.Times, Clamp;
      ghost var g, v := Config(), x0.Value();
      if e == 0 {
        y := new BigNumber(ONE);
        return;
      }
      var x := new BigNumber.Copy(x0);
      y := new BigNumber(ONE);
      var i := if e < 0 then -e else e;
      ghost var done, weight := 0, 1;
      NoPower(v, g);
      while true
        invariant i >= 1 && weight >= 1 && done >= 0 && done + weight * i == Abs(e)
        invariant fresh(x) && fresh(y) && x != y
        invariant IsPower(y.Value(), v, done, g) && y.Value() == Clamp(PowerOf(v, done), g)
        invariant IsPower(x.Value(), v, weight, g)
        decreases i
      {
        if i % 2 == 1 {
          TimesPowers(v, done, weight, y.Value(), x.Value(), g);
          y := Times(y, x);
          done := done + weight;
        }
        Halving(weight, i);
        i := i / 2;
        if i == 0 {
          break;
        }
        TimesPowers(v, weight, weight, x.Value(), x.Value(), g);
        x := Times(x, x);
        weight := 2 * weight;
      }
      if e < 0 {
        var one := new BigNumber(ONE);
        NoPower(v, g);
        ClampValid(v, 0, g);
        ClampValid(v, done, g);
        y := Div(one, y);
      }
    }
  }

  /** The first test of `times` finds the special cases, and what they come to. */
  lemma TimesSpecial(x: Number, y: Number, g: Settings)
    requires Valid(x) && Valid(y)
    ensures (x.e == 0 && (x.c == [] || x.c[0] == 0)) || (y.e == 0 && (y.c == [] || y.c[0] == 0)) <==>
            !(Nonzero(x) && Nonzero(y))
    ensures !(Nonzero(x) && Nonzero(y)) ==>
              Arithmetic.Times(x, y, g) ==
                if x.s == 0 || y.s == 0 then NAN
                else if x.c == [] && y.c != [] && y.c[0] == 0 then NAN
                else if y.c == [] && x.c != [] && x.c[0] == 0 then NAN
                else if x.c == [] || y.c == [] then Infinity(SignOf(x, y))
                else Zero(SignOf(x, y))
    ensures Nonzero(x) && Nonzero(y) ==> Operand(x.c) && Operand(y.c)
  {
    hide Product, InBase;
  }

  /** And the digits of a product, brought into range. */
  lemma TimesRegular(x: Number, y: Number, c: seq<int>, e: int, g: Settings)
    requires Valid(x) && Valid(y) && Nonzero(x) && Nonzero(y)
    requires NormalDigits(c) && c != [0]
    requires var k := |x.c| + |y.c| - 2;
             k >= PlacesOf(c, e - x.e - y.e) && Mag(c, e - x.e - y.e, k) == Val(x.c, 10) * Val(y.c, 10)
    ensures Arithmetic.Times(x, y, g) ==
              if Over(e, g.hi) then Infinity(SignOf(x, y))
              else if e < g.lo then Zero(SignOf(x, y)) else Number(SignOf(x, y), e, c)
  {
    hide Val, Pow, Product, Mag;
    ProductResult(x, y, c, e);
  }

  /** No difference of numbers of one sign runs into the overflow of `plus`. */
  lemma NoFailure(x: Number, y: Number, hi: Limit)
    requires Valid(x) && Valid(y)
    ensures Valid(Negate(y)) && ((x.s == y.s || IsNaN(x) || IsNaN(y)) ==> !PlusFails(x, Negate(y), hi))
  {
    hide SumSame, InBase;
  }

  lemma Halving(w: int, i: int)
    ensures w * i == 2 * w * (i / 2) + w * (i % 2)
  {
    assert i == 2 * (i / 2) + i % 2;
    assert w * i == w * (2 * (i / 2)) + w * (i % 2);
    MulAssoc3(2, w, i / 2);
    MulAssoc3(w, 2, i / 2);
  }

  lemma Shapes(x: Number)
    requires Valid(x)
    ensures x.c != [] ==> (IsZero(x) <==> x.c[0] == 0)
    ensures Valid(x.(s := 1)) || x.s == 0
  {
  }

  // ----- the steps of the division, on values

  lemma QuotientInput(x: Number, y: Number, qc: seq<int>, more: bool, dp: int)
    requires Valid(x) && Valid(y) && Nonzero(x) && Nonzero(y)
    requires var dig := dp + x.e - y.e + 1;
             && InBase(qc, 10) && 1 <= |qc| <= (if dig < 0 then 0 else dig) + 1
             && (more ==> |qc| == (if dig < 0 then 0 else dig) + 1)
    requires |qc| >= 2 ==> qc[0] != 0 || qc[1] != 0
    requires !more ==> qc[|qc| - 1] != 0
    requires IsCutOff(x.c, y.c, |y.c| + |qc| - 1, Val(qc, 10), more)
    ensures var n := |y.c| + |qc| - 1;
            var c, e := if qc[0] == 0 && |qc| != 1 then qc[1..] else qc,
                        if qc[0] == 0 && |qc| != 1 then x.e - y.e - 1 else x.e - y.e;
            && PlacesOf(c, e) == PlacesOf(qc, x.e - y.e)
            && QuotNum(x.c, n) >= 0 && QuotDen(x.c, y.c, n) > 0
            && RndInput(c, e, dp, more, QuotNum(x.c, n), QuotDen(x.c, y.c, n))
            && (more ==> |qc| > dp + x.e - y.e + 1)
            && (!more ==> c != [0] && QuotNum(x.c, n) == Val(c, 10) * QuotDen(x.c, y.c, n))
  {
    hide Val, Pow, QuotNum, QuotDen;
    var n := |y.c| + |qc| - 1;
    var c := if qc[0] == 0 && |qc| != 1 then qc[1..] else qc;
    assert Val(c, 10) == Val(qc, 10) by {
      if c != qc {
        assert qc == Zeros(1) + qc[1..];
        LeadingZeros(1, qc[1..], 10);
      }
    }
    assert c[|c| - 1] == qc[|qc| - 1];
    ValNat(c);
    MulMono(0, Val(c, 10), QuotDen(x.c, y.c, n));
  }

  /** The units the digits were cut off from are the quotient at any number of places. */
  lemma QuotientUnits(x: Number, y: Number, qi: nat, dp: int, mode: Mode)
    requires Valid(x) && Valid(y) && Nonzero(x) && Nonzero(y) && qi >= 1
    ensures var n := |y.c| + qi - 1;
            && QuotNum(x.c, n) >= 0 && QuotDen(x.c, y.c, n) > 0
            && RoundedUnits(mode, SignOf(x, y) < 0, qi - 1 - (x.e - y.e), dp, QuotNum(x.c, n), QuotDen(x.c, y.c, n))
               == QuotUnits(x, y, dp, mode)
  {
    hide Val, Pow, RoundMag;
    var n, p, t := |y.c| + qi - 1, qi - 1 - (x.e - y.e), dp + Places(y) - Places(x);
    RatioPositive(x, y, dp);
    var vx, vy := Val(x.c, 10), Val(y.c, 10);
    var a1, a2 := Max(0, n - |x.c|), Max(0, dp - p);
    var b1, b2 := Max(0, |x.c| - n), Max(0, p - dp);
    var m := a1 + a2 - Max(0, t);
    PowFour(vx, a1, a2, Max(0, t), m);
    PowFour(vy, b1, b2, Max(0, -t), m);
    RoundScale(mode, SignOf(x, y) < 0, RatioNum(x, y, dp), RatioDen(x, y, dp), Pow10(m));
  }

  lemma PowFour(v: int, a1: nat, a2: nat, t: nat, m: nat)
    requires v > 0 && a1 + a2 == t + m
    ensures v * Pow10(a1) > 0 && v * Pow10(a1) * Pow10(a2) == v * Pow10(t) * Pow10(m)
  {
    hide Pow;
    PowAdd(10, a1, a2);
    PowAdd(10, t, m);
    MulAssoc3(v, Pow10(a1), Pow10(a2));
    MulAssoc3(v, Pow10(t), Pow10(m));
    MulMono(1, v, Pow10(a1));
  }

  /** A division that came out even before the last place asked for. */
  lemma ExactQuotient(x: Number, y: Number, c: seq<int>, e: int, n: nat, dp: int, mode: Mode)
    requires Valid(x) && Valid(y) && Nonzero(x) && Nonzero(y)
    requires NormalDigits(c) && c != [0] && PlacesOf(c, e) <= dp
    requires var num, den := QuotNum(x.c, n), QuotDen(x.c, y.c, n);
             && num >= 0 && den > 0 && num == Val(c, 10) * den
             && RoundedUnits(mode, SignOf(x, y) < 0, PlacesOf(c, e), dp, num, den) == QuotUnits(x, y, dp, mode)
    ensures Quotient(x, y, dp, mode) == Number(SignOf(x, y), e, c)
  {
    hide Val, Pow, QuotNum, QuotDen, QuotUnits, Exact;
    var num, den := QuotNum(x.c, n), QuotDen(x.c, y.c, n);
    Distribute(Val(c, 10), Val(c, 10) + 1, 1, den);
    ValNat(c);
    MulMono(0, Val(c, 10), den);
    assert Cuts(c, false, num, den);
    UnitsOfWhole(mode, SignOf(x, y) < 0, c, e, dp, num, den);
    ExactUnique(SignOf(x, y), c, e, Mag(c, e, dp), dp);
  }

  lemma QuotientFinite(x: Number, y: Number, dp: int, mode: Mode)
    requires Valid(x) && Valid(y) && Nonzero(x) && Nonzero(y)
    ensures var q := Quotient(x, y, dp, mode); Finite(q) && (IsZero(q) ==> q.e == 0) && q.s == SignOf(x, y)
  {
    hide Val, Pow, QuotUnits;
    if QuotUnits(x, y, dp, mode) != 0 {
      ExactMeaning(SignOf(x, y), QuotUnits(x, y, dp, mode), dp);
    }
  }

  // ----- the order of two numbers

  /** Everything that decides a comparison before the digits do. */
  lemma CmpCases(x: Number, y: Number)
    requires Valid(x) && Valid(y) && !IsNaN(x) && !IsNaN(y)
    requires Finite(x) && Finite(y)
    ensures IsZero(x) && IsZero(y) ==> Cmp(x, y) == 0
    ensures IsZero(x) && !IsZero(y) ==> Cmp(x, y) == -y.s
    ensures !IsZero(x) && (IsZero(y) || x.s != y.s) ==> Cmp(x, y) == x.s
    ensures Nonzero(x) && Nonzero(y) && x.s == y.s && x.e > y.e ==> Cmp(x, y) == x.s
    ensures Nonzero(x) && Nonzero(y) && x.s == y.s && x.e < y.e ==> Cmp(x, y) == -x.s
  {
    hide Val, Pow, InBase;
    var k := Scale(x, y);
    MagPositive(x, k);
    MagPositive(y, k);
    if Nonzero(x) && Nonzero(y) {
      MagBound(x.c, x.e, k);
      MagBound(y.c, y.e, k);
      if x.e > y.e {
        PowMono(10, y.e + k + 1, x.e + k);
      } else if x.e < y.e {
        PowMono(10, x.e + k + 1, y.e + k);
      }
    }
  }

  /** At equal exponents the first difference decides, and after it the length. */
  lemma MagOrder(c: seq<int>, d: seq<int>, e: int, at: nat, k: int)
    requires EndsNonzero(c) && EndsNonzero(d)
    requires at <= |c| && at <= |d| && c[..at] == d[..at]
    requires at == |d| || (at < |c| && c[at] > d[at])
    requires k >= PlacesOf(c, e) && k >= PlacesOf(d, e)
    ensures c != d ==> Mag(c, e, k) > Mag(d, e, k)
  {
    hide Val, Pow;
    if c != d {
      var m := Max(0, |d| - |c|);
      var x, k0 := c + Zeros(m), Max(PlacesOf(c, e), PlacesOf(d, e));
      PadCompare(c, d, at, m);
      MagTrailing(c, e, m, k0);
      Unscaled(x);
      MagShift(c, e, k0, k - k0);
      MagShift(d, e, k0, k - k0);
      assert Mag(d, e, k0) == Val(d, 10) * Pow10(|x| - |d|);
      MulStrict(Mag(d, e, k0), Mag(c, e, k0), Pow10(k - k0));
    }
  }

  lemma PadCompare(c: seq<int>, d: seq<int>, at: nat, m: nat)
    requires EndsNonzero(c) && EndsNonzero(d) && c != d
    requires at <= |c| && at <= |d| && c[..at] == d[..at]
    requires at == |d| || (at < |c| && c[at] > d[at])
    requires m == Max(0, |d| - |c|)
    ensures Val(c + Zeros(m), 10) > Val(d, 10) * Pow10(|c| + m - |d|)
  {
    hide Val, Pow;
    var x := c + Zeros(m);
    if at < |d| {
      HeadGreater(x, d, at);
    } else {
      assert x == c && c[..|d|] == d;
      TailGreater(c, d);
    }
  }

  lemma HeadGreater(x: seq<int>, d: seq<int>, at: nat)
    requires InBase(x, 10) && InBase(d, 10) && at < |d| <= |x|
    requires x[..at] == d[..at] && x[at] > d[at]
    ensures Val(x, 10) > Val(d, 10) * Pow10(|x| - |d|)
  {
    hide Val, Pow;
    var h, t := x[..|d|], x[|d|..];
    ValSplit(x, |d|, 10);
    ValNat(t);
    assert h[..at] == d[..at];
    ValOrder(d, h, at, 10);
    Gap(Val(h, 10), Val(d, 10), Pow10(|x| - |d|), Val(t, 10));
  }

  lemma TailGreater(c: seq<int>, d: seq<int>)
    requires EndsNonzero(c) && |d| < |c| && c[..|d|] == d
    ensures Val(c, 10) > Val(d, 10) * Pow10(|c| - |d|)
  {
    hide Val, Pow;
    ValSplit(c, |d|, 10);
    PopNonzero(c[|d|..]);
  }

  lemma CmpDigits(x: Number, y: Number, at: nat)
    requires Valid(x) && Valid(y) && Nonzero(x) && Nonzero(y) && x.s == y.s && x.e == y.e
    requires at <= |x.c| && at <= |y.c| && x.c[..at] == y.c[..at]
    requires at == |x.c| || at == |y.c| || x.c[at] != y.c[at]
    ensures at < |x.c| && at < |y.c| ==> Cmp(x, y) == if x.c[at] > y.c[at] then x.s else -x.s
    ensures at == |x.c| || at == |y.c| ==>
              Cmp(x, y) == if |x.c| > |y.c| then x.s else if |x.c| < |y.c| then -x.s else 0
  {
    hide Val, Pow, Mag;
    var k := Scale(x, y);
    if at == |y.c| || (at < |x.c| && x.c[at] > y.c[at]) {
      MagOrder(x.c, y.c, x.e, at, k);
      if at == |x.c| { assert x.c == y.c; }
    } else {
      MagOrder(y.c, x.c, x.e, at, k);
    }
  }

  /** The two ways out of `rnd`: a single digit or none, and digits to keep. */
  ghost predicate RndMeans(s: int, c: seq<int>, i: int, dp: int, up: bool, units: nat)
  {
    if i < 1 || c == [] || c[0] == 0 then
      Exact(s, units, dp) == if up then Number(s, -dp, [1]) else Zero(s)
    else
      && (i > |c| ==> !up)
      && units == Val(if i <= |c| then c[..i] else c + Zeros(i - |c|), 10) + if up then 1 else 0
  }

  lemma RndCases(mode: Mode, s: int, c: seq<int>, e: int, dp: int, sticky: bool, num: nat, den: nat)
    requires RndInput(c, e, dp, sticky, num, den) && den > 0
    requires s == 1 || s == -1
    ensures c != [] && InBase(c, 10)
    ensures RndMeans(s, c, e + dp + 1, dp, GoesUp(mode, s < 0, c, e + dp + 1, sticky),
                     RoundedUnits(mode, s < 0, PlacesOf(c, e), dp, num, den))
  {
    hide Val, Pow, GoesUp, RoundedUnits, RndMeans;
    if !Cuts(c, sticky, num, den) {
      RndOfZero(mode, s, c, e, dp);
    } else if PlacesOf(c, e) > dp {
      RndOfCut(mode, s, c, e, dp, sticky, num, den);
    } else {
      RndOfWhole(mode, s, c, e, dp, num, den);
    }
  }

  lemma RndOfZero(mode: Mode, s: int, c: seq<int>, e: int, dp: int)
    requires c == [0] && e == 0 && dp >= 0
    ensures RndMeans(s, c, e + dp + 1, dp, GoesUp(mode, s < 0, c, e + dp + 1, false),
                     RoundedUnits(mode, s < 0, PlacesOf(c, e), dp, 0, 1))
  {
    hide Pow, RoundedUnits;
    ZeroRounds(mode, s < 0, c, e, dp);
    ZeroStays(mode, s < 0, dp);
  }

  lemma RndOfCut(mode: Mode, s: int, c: seq<int>, e: int, dp: int, sticky: bool, num: nat, den: nat)
    requires Cuts(c, sticky, num, den) && PlacesOf(c, e) > dp
    ensures RndMeans(s, c, e + dp + 1, dp, GoesUp(mode, s < 0, c, e + dp + 1, sticky),
                     RoundedUnits(mode, s < 0, PlacesOf(c, e), dp, num, den))
  {
    hide Val, Pow, GoesUp, RoundedUnits;
    UnitsOfCut(mode, s < 0, c, e, dp, sticky, num, den);
    ExactOne(s, dp);
  }

  lemma RndOfWhole(mode: Mode, s: int, c: seq<int>, e: int, dp: int, num: nat, den: nat)
    requires Cuts(c, false, num, den) && PlacesOf(c, e) <= dp
    ensures RndMeans(s, c, e + dp + 1, dp, GoesUp(mode, s < 0, c, e + dp + 1, false),
                     RoundedUnits(mode, s < 0, PlacesOf(c, e), dp, num, den))
  {
    hide Val, Pow, GoesUp, RoundedUnits;
    UnitsOfWhole(mode, s < 0, c, e, dp, num, den);
    var i := e + dp + 1;
    if i == |c| {
      assert c[..i] == c;
      Unscaled(c);
    } else {
      TrailingZeros(c, i - |c|, 10);
    }
  }

  lemma ZeroStays(mode: Mode, isNeg: bool, dp: nat)
    ensures !GoesUp(mode, isNeg, [0], dp + 1, false)
  {
  }

  lemma ZeroRounds(mode: Mode, isNeg: bool, c: seq<int>, e: int, dp: int)
    requires c == [0] && e == 0 && dp >= 0
    ensures RoundedUnits(mode, isNeg, PlacesOf(c, e), dp, 0, 1) == 0
  {
    hide Pow;
    DivModUnique(0, Pow10(Max(0, PlacesOf(c, e) - dp)), 0);
  }

  lemma RndResult(s: int, c: seq<int>, e: int, dp: int)
    requires InBase(c, 10) && c != [] && c[0] != 0 && PlacesOf(c, e) == dp
    ensures Val(c, 10) >= 0 && Exact(s, Val(c, 10), dp) == Number(s, e, Strip(c))
  {
    hide Val, Pow;
    ValNat(c);
    Unscaled(c);
    StrippedResult(s, c, e, dp);
  }

  lemma WholeUnits(x: Number, dp: nat, mode: Mode)
    requires Valid(x) && Finite(x)
    ensures Val(x.c, 10) >= 0
    ensures RoundTo(x, dp, mode) == Exact(x.s, RoundedUnits(mode, x.s < 0, Places(x), dp, Val(x.c, 10), 1), dp)
  {
    hide Val, Pow;
    ValNat(x.c);
    ScaledMagNat(x, dp);
  }

  /** An exact number is an input of `rnd`. */
  lemma WholeInput(x: Number, dp: nat)
    requires Valid(x) && Finite(x)
    ensures Val(x.c, 10) >= 0 && RndInput(x.c, x.e, dp, false, Val(x.c, 10), 1)
  {
    hide Val;
    ValNat(x.c);
    if IsZero(x) { ValOne(0, 10); }
  }

  lemma SumResult(x: Number, y: Number, c: seq<int>, e: int)
    requires Valid(x) && Valid(y) && Nonzero(x) && Nonzero(y)
    requires var k := Common(x.c, x.e, y.c, y.e);
             Operand(c) && k >= PlacesOf(c, e) && Mag(c, e, k) == Mag(x.c, x.e, k) + Mag(y.c, y.e, k)
    ensures SumSame(x, y) == Number(y.s, e, c)
  {
    hide Val, Pow, Mag, InBase;
    var k := Common(x.c, x.e, y.c, y.e);
    var j := Scale(x, y) - k;
    MagPositive(x, Scale(x, y));
    MagPositive(y, Scale(x, y));
    MagShift(c, e, k, j);
    MagShift(x.c, x.e, k, j);
    MagShift(y.c, y.e, k, j);
    Distribute2(Mag(x.c, x.e, k), Mag(y.c, y.e, k), Pow10(j));
    ExactUnique(y.s, c, e, MagOf(x, Scale(x, y)) + MagOf(y, Scale(x, y)), Scale(x, y));
  }

  lemma DiffResult(x: Number, y: Number, c: seq<int>, e: int)
    requires Valid(x) && Valid(y) && Nonzero(x) && Nonzero(y)
    requires var k := Common(x.c, x.e, y.c, y.e);
             && (c == [] <==> Mag(x.c, x.e, k) == Mag(y.c, y.e, k))
             && (c != [] ==> Operand(c) && k >= PlacesOf(c, e) &&
                             Mag(c, e, k) == Abs(Mag(x.c, x.e, k) - Mag(y.c, y.e, k)))
    ensures var k := Common(x.c, x.e, y.c, y.e);
            var s := if Mag(x.c, x.e, k) < Mag(y.c, y.e, k) then -y.s else y.s;
            DiffSame(x, y) == if c == [] then Zero(s) else Number(s, e, c)
  {
    hide Val, Pow, Mag, InBase;
    var k := Common(x.c, x.e, y.c, y.e);
    var j := Scale(x, y) - k;
    MagShift(x.c, x.e, k, j);
    MagShift(y.c, y.e, k, j);
    var mx, my := Mag(x.c, x.e, k), Mag(y.c, y.e, k);
    MulCancel(mx, my, Pow10(j));
    MulCancel(my, mx, Pow10(j));
    var d := MagOf(x, Scale(x, y)) - MagOf(y, Scale(x, y));
    Distribute(mx - my, mx, my, Pow10(j));
    if c != [] {
      MagShift(c, e, k, j);
      AbsTimes(mx - my, Pow10(j));
      ExactUnique(if d < 0 then -y.s else y.s, c, e, Abs(d), Scale(x, y));
    }
  }

  lemma AbsTimes(x: int, k: nat)
    ensures Abs(x * k) == Abs(x) * k
  {
    if x < 0 { MulMono(x, 0, k); assert (0 - x) * k == 0 - x * k; } else { MulMono(0, x, k); }
  }

  /** The product of two digit arrays, without leading and trailing zeros; `carry` says the top row carried. */
  method DigitProduct(x: seq<int>, y: seq<int>) returns (c: seq<int>, carry: bool)
    requires NormalDigits(x) && x != [0] && NormalDigits(y) && y != [0]
    ensures NormalDigits(c) && c != [0]
    ensures var e := if carry then 1 else 0;
            |x| + |y| - 2 >= PlacesOf(c, e) && Mag(c, e, |x| + |y| - 2) == Val(x, 10) * Val(y, 10)
  {
    hide Val, Pow, Mag, Strip;
    var xc, yc := x, y;
    if |xc| < |yc| {
      xc, yc := yc, xc;
    }
    Commute(Val(x, 10), Val(y, 10));
    var b;
    c, b := Multiply(xc, yc);
    carry := b != 0;
    ProductDigits(xc, yc, c);
    if c[0] == 0 {
      c := c[1..];
    }
    StrippedResult(1, c, if carry then 1 else 0, |x| + |y| - 2);
    StripValue(c, if carry then 1 else 0, |x| + |y| - 2);
    MagHere(c, if carry then 1 else 0);
    c := PopZeros(c);
  }

  /** The product of n-digit and m-digit numbers has n + m digits or one fewer. */
  lemma ProductDigits(x: seq<int>, y: seq<int>, c: seq<int>)
    requires NormalDigits(x) && x != [0] && NormalDigits(y) && y != [0]
    requires |c| == |x| + |y| && InBase(c, 10) && Val(c, 10) == Val(x, 10) * Val(y, 10)
    ensures c[0] == 0 ==> c[1] != 0
    ensures c[0] == 0 ==> Val(c[1..], 10) == Val(c, 10)
  {
    hide Val, Pow;
    ProductAtLeast(x, y);
    if c[0] == 0 {
      assert c == Zeros(1) + c[1..];
      LeadingZeros(1, c[1..], 10);
      if c[1] == 0 {
        assert c[1..] == Zeros(1) + c[2..];
        LeadingZeros(1, c[2..], 10);
        ValBound(c[2..], 10);
      }
    }
  }

  lemma ProductAtLeast(x: seq<int>, y: seq<int>)
    requires NormalDigits(x) && x != [0] && NormalDigits(y) && y != [0]
    ensures Val(x, 10) * Val(y, 10) >= Pow10(|x| + |y| - 2)
  {
    hide Val, Pow;
    ValLead(x, 10);
    ValLead(y, 10);
    MulBoth(Pow10(|x| - 1), Val(x, 10), Pow10(|y| - 1), Val(y, 10));
    PowAdd(10, |x| - 1, |y| - 1);
  }

  lemma MulBoth(a: nat, x: int, b: nat, y: int)
    requires a <= x && b <= y
    ensures a * b <= x * y
  {
    MulMono(a, x, b);
    MulMono(b, y, x);
    Commute(b, x);
    Commute(y, x);
  }

  lemma ProductResult(x: Number, y: Number, c: seq<int>, e: int)
    requires Valid(x) && Valid(y) && Nonzero(x) && Nonzero(y)
    requires NormalDigits(c) && c != [0]
    requires var k := |x.c| + |y.c| - 2;
             k >= PlacesOf(c, e - x.e - y.e) && Mag(c, e - x.e - y.e, k) == Val(x.c, 10) * Val(y.c, 10)
    ensures Product(x, y) == Number(SignOf(x, y), e, c)
  {
    hide Val, Pow;
    ProductNat(x, y);
    ExactUnique(SignOf(x, y), c, e, Val(x.c, 10) * Val(y.c, 10), Places(x) + Places(y));
  }

  /** Digits without a leading zero, stripped of trailing zeros, are the normal form of what they denote. */
  lemma StrippedResult(s: int, c: seq<int>, e: int, k: int)
    requires InBase(c, 10) && c != [] && c[0] != 0 && k >= PlacesOf(c, e)
    ensures Mag(c, e, k) > 0
    ensures Exact(s, Mag(c, e, k), k) == Number(s, e, Strip(c))
    ensures NormalDigits(Strip(c)) && Strip(c) != [0]
  {
    hide Val, Pow;
    MagBound(c, e, k);
    StripValue(c, e, k);
    ValLead(c, 10);
    StripNonempty(c);
    assert Strip(c)[0] == c[0];
    ExactUnique(s, Strip(c), e, Mag(c, e, k), k);
  }
}
