/**
 Adding and subtracting digit arrays with exponents: the body of `plus` and of
 `minus` once signs and special cases are out of the way.
 */
module Alignment {
  import opened Digits
  import opened Numbers
  import opened DigitLoops

  /** Zeros are put in front by turning the array round, pushing them, and turning it back. */
  method Prepend(c0: seq<int>, n: nat) returns (c: seq<int>)
    ensures c == Zeros(n) + c0
  {
    c := c0;
    var b := n;
    while b > 0
      invariant 0 <= b <= n && c == Zeros(n - b) + c0
    {
      c := [0] + c;
      b := b - 1;
      assert Zeros(n - b) == [0] + Zeros(n - b - 1);
    }
    assert Zeros(0) + c0 == c0;
  }

  /** Where the last digit of the sum or difference of two numbers stands. */
  function Common(xc: seq<int>, xe: int, yc: seq<int>, ye: int): int
  {
    Max(PlacesOf(xc, xe), PlacesOf(yc, ye))
  }

  lemma MagHere(c: seq<int>, e: int)
    ensures Mag(c, e, PlacesOf(c, e)) == Val(c, 10)
  {
  }

  lemma PrependMag(c: seq<int>, e: int, n: nat, k: int)
    requires InBase(c, 10) && k >= PlacesOf(c, e)
    ensures InBase(Zeros(n) + c, 10)
    ensures PlacesOf(Zeros(n) + c, e + n) == PlacesOf(c, e)
    ensures Mag(Zeros(n) + c, e + n, k) == Mag(c, e, k)
  {
    MagLeading(c, e, n, k);
  }

  /** The sum of two digit arrays; `carry` says it has a digit more in front than the greater operand. */
  method SumDigits(xc0: seq<int>, xe: int, yc0: seq<int>, ye0: int) returns (c: seq<int>, e: int, carry: bool)
    requires Operand(xc0) && Operand(yc0)
    ensures Operand(c) && e == Max(xe, ye0) + if carry then 1 else 0
    ensures var k := Common(xc0, xe, yc0, ye0);
            k >= PlacesOf(c, e) && Mag(c, e, k) == Mag(xc0, xe, k) + Mag(yc0, ye0, k)
  {
    hide Val, Pow, Mag, Strip;
    var xc, yc, ye := xc0, yc0, ye0;
    ghost var k := Common(xc0, xe, yc0, ye0);
    var a := xe - ye;
    PrependMag(yc0, ye0, Max(0, a), k);
    PrependMag(xc0, xe, Max(0, -a), k);
    if a > 0 {
      ye := xe;
      yc := Prepend(yc, a);
    } else if a < 0 {
      xc := Prepend(xc, -a);
    } else {
      assert Zeros(0) + xc0 == xc0 && Zeros(0) + yc0 == yc0;
    }
    MagBound(xc0, xe, k);
    MagBound(yc0, ye0, k);
    if |xc| < |yc| {
      xc, yc := yc, xc;
    }
    e := ye;
    ghost var total := Mag(xc, e, k) + Mag(yc, e, k);
    var b;
    ghost var longer := xc;
    xc, b := Add(xc, yc);
    AddedMag(longer, yc, e, k, xc, b);
    if b == 0 {
      LeadOfSum(xc, e);
    } else {
      ShiftIn(xc, e, k);
      xc, e := [b] + xc, e + 1;
    }
    carry := b != 0;
    StripValue(xc, e, k);
    StripOperand(xc);
    c := PopZeros(xc);
  }

  lemma AddedMag(x: seq<int>, y: seq<int>, e: int, k: int, sum: seq<int>, b: int)
    requires |y| <= |x| == |sum| && k == PlacesOf(x, e)
    requires Val(sum, 10) + b * Pow10(|x|) == Val(x, 10) + Val(y, 10) * Pow10(|x| - |y|)
    ensures Mag(sum, e, k) + b * Pow10(|x|) == Mag(x, e, k) + Mag(y, e, k)
  {
    hide Val, Pow;
    Unscaled(x);
    Unscaled(sum);
    assert k - PlacesOf(y, e) == |x| - |y|;
  }

  /** A value of at least 10^(n - 1) has no zero in front of its n digits. */
  lemma LeadOfSum(c: seq<int>, e: int)
    requires c != [] && InBase(c, 10)
    requires Mag(c, e, PlacesOf(c, e)) >= Pow10(|c| - 1)
    ensures c[0] != 0
  {
    hide Val, Pow;
    Unscaled(c);
    if c[0] == 0 {
      assert c == Zeros(1) + c[1..];
      LeadingZeros(1, c[1..], 10);
      ValBound(c[1..], 10);
    }
  }

  lemma ShiftIn(x: seq<int>, e: int, k: int)
    requires k == PlacesOf(x, e) && InBase(x, 10)
    ensures InBase([1] + x, 10) && k == PlacesOf([1] + x, e + 1)
    ensures Mag([1] + x, e + 1, k) == Mag(x, e, k) + Pow10(|x|)
  {
    ValConcat([1], x, 10);
    ValOne(1, 10);
  }

  lemma StripOperand(c: seq<int>)
    requires InBase(c, 10) && c != [] && c[0] != 0
    ensures Operand(Strip(c))
  {
    ValLead(c, 10);
    StripNonempty(c);
    assert Strip(c)[0] == c[0];
  }

  // ----- subtraction

  /**
   Whether the digits of x are less than those of y at equal exponents: the first
   difference decides, then the length.
   */
  method LessDigits(xc: seq<int>, yc: seq<int>) returns (less: bool, ghost at: nat)
    ensures at <= |xc| && at <= |yc| && xc[..at] == yc[..at]
    ensures at == |xc| || at == |yc| || xc[at] != yc[at]
    ensures less <==> at < |yc| && (at < |xc| ==> xc[at] < yc[at])
  {
    less := |xc| < |yc|;
    var j := if less then |xc| else |yc|;
    var b := 0;
    while b < j
      invariant 0 <= b <= j && xc[..b] == yc[..b]
    {
      if xc[b] != yc[b] {
        return xc[b] < yc[b], b;
      }
      b := b + 1;
    }
    at := b;
  }

  /** The digits of the greater number, and where the two arrays first differ. */
  ghost predicate Bigger(x: seq<int>, y: seq<int>, at: nat)
  {
    && at <= |x| && at <= |y| && x[..at] == y[..at]
    && (at < |y| ==> at < |x| && x[at] > y[at])
  }

  /** Enough digits of the greater number are no less than all digits of the smaller one. */
  lemma PrefixAtLeast(x: seq<int>, y: seq<int>, at: nat)
    requires InBase(x, 10) && InBase(y, 10) && |x| >= |y| && Bigger(x, y, at)
    ensures Val(x[..|y|], 10) >= Val(y, 10)
    ensures at < |y| ==> Val(x[..|y|], 10) > Val(y, 10)
  {
    hide Val, Pow;
    if at < |y| {
      assert x[..|y|][..at] == x[..at];
      ValOrder(y, x[..|y|], at, 10);
    } else {
      assert x[..at] == y;
    }
  }

  lemma Gap(x: int, y: int, p: int, t: int)
    requires x >= y && p > 0 && t >= 0
    ensures x * p + t - y * p >= 0
    ensures x > y || t > 0 ==> x * p + t - y * p > 0
  {
    if x > y { MulStrict(y, x, p); } else { MulMono(y, x, p); }
  }

  /** What is left after the subtraction is zero only if the arrays are the same. */
  lemma Difference(x: seq<int>, y: seq<int>, at: nat, d: seq<int>)
    requires InBase(x, 10) && InBase(y, 10) && |x| >= |y| && Bigger(x, y, at)
    requires Val(d, 10) == Val(x, 10) - Val(y, 10) * Pow10(|x| - |y|)
    ensures Val(d, 10) >= 0
    ensures at < |y| ==> Val(d, 10) > 0
    ensures at == |y| && x != y && x[|x| - 1] != 0 ==> Val(d, 10) > 0
  {
    hide Val, Pow, Bigger, InBase;
    var n, m := |y|, |x| - |y|;
    PrefixAtLeast(x, y, at);
    ValSplit(x, n, 10);
    TailInBase(x, n);
    ValNat(x[n..]);
    Gap(Val(x[..n], 10), Val(y, 10), Pow10(m), Val(x[n..], 10));
    if at == n && x != y && x[|x| - 1] != 0 {
      LongerThan(x, y);
      PopNonzero(x[n..]);
    }
  }

  lemma TailInBase(x: seq<int>, n: nat)
    requires InBase(x, 10) && n <= |x|
    ensures InBase(x[n..], 10)
  {
  }

  lemma LongerThan(x: seq<int>, y: seq<int>)
    requires Bigger(x, y, |y|) && |x| >= |y| && x != y
    ensures |x| > |y| && x[|y|..][|x| - |y| - 1] == x[|x| - 1]
  {
    assert y[..|y|] == y && x[..|x|] == x;
  }

  /**
   The difference of two digit arrays: nothing if they denote the same number,
   and otherwise the normal form of the distance; `less` says that x is the
   smaller one.
   */
  method DiffDigits(xc0: seq<int>, xe: int, yc0: seq<int>, ye0: int) returns (c: seq<int>, e: int, less: bool)
    requires Operand(xc0) && Operand(yc0)
    ensures var k := Common(xc0, xe, yc0, ye0);
            && less == (Mag(xc0, xe, k) < Mag(yc0, ye0, k))
            && (c == [] <==> Mag(xc0, xe, k) == Mag(yc0, ye0, k))
            && (c != [] ==> Operand(c) && k >= PlacesOf(c, e) &&
                            Mag(c, e, k) == Abs(Mag(xc0, xe, k) - Mag(yc0, ye0, k)))
  {
    hide Val, Pow, Mag, Strip;
    var xc, yc, a;
    ghost var at;
    xc, yc, e, a, less, at := AlignBigger(xc0, xe, yc0, ye0);
    c, e := SubtractAligned(xc, yc, e, a, Common(xc0, xe, yc0, ye0), at);
  }

  /**
   The two numbers at one exponent, the greater one first: zeros in front of the
   one with the lower exponent, and for equal exponents a look at the digits.
   */
  method AlignBigger(xc0: seq<int>, xe: int, yc0: seq<int>, ye0: int)
    returns (xc: seq<int>, yc: seq<int>, ye: int, a: int, less: bool, ghost at: nat)
    requires Operand(xc0) && Operand(yc0)
    ensures EndsNonzero(xc) && EndsNonzero(yc)
    ensures 0 <= a <= |yc| && (forall i :: 0 <= i < a ==> yc[i] == 0)
    ensures Bigger(xc, yc, at)
    ensures Common(xc0, xe, yc0, ye0) == Max(PlacesOf(xc, ye), PlacesOf(yc, ye))
    ensures var k := Common(xc0, xe, yc0, ye0);
            && Mag(xc, ye, k) == (if less then Mag(yc0, ye0, k) else Mag(xc0, xe, k))
            && Mag(yc, ye, k) == (if less then Mag(xc0, xe, k) else Mag(yc0, ye0, k))
    ensures less ==> xc != yc
  {
    hide Val, Pow, Mag, Strip;
    xc, yc, ye := xc0, yc0, ye0;
    ghost var k := Common(xc0, xe, yc0, ye0);
    a, at := xe - ye, 0;
    if a != 0 {
      less := a < 0;
      if less {
        a := -a;
        PrependMag(xc0, xe, a, k);
        xc := Prepend(xc, a);
        assert xc[|xc| - 1] == xc0[|xc0| - 1];
      } else {
        ye := xe;
        PrependMag(yc0, ye0, a, k);
        yc := Prepend(yc, a);
        assert yc[|yc| - 1] == yc0[|yc0| - 1];
      }
    } else {
      less, at := LessDigits(xc, yc);
    }
    if less {
      xc, yc := yc, xc;
    }
  }

  predicate EndsNonzero(c: seq<int>)
  {
    InBase(c, 10) && c != [] && c[|c| - 1] != 0
  }

  /** From lining up the ends of two arrays of one exponent to the result without outer zeros. */
  method SubtractAligned(xc0: seq<int>, yc: seq<int>, e0: int, a: nat, ghost k: int, ghost at: nat)
    returns (c: seq<int>, e: int)
    requires EndsNonzero(xc0) && EndsNonzero(yc)
    requires a <= |yc| && forall i :: 0 <= i < a ==> yc[i] == 0
    requires Bigger(xc0, yc, at)
    requires k == Max(PlacesOf(xc0, e0), PlacesOf(yc, e0))
    ensures c == [] <==> Mag(xc0, e0, k) == Mag(yc, e0, k)
    ensures c == [] <==> xc0 == yc
    ensures Mag(xc0, e0, k) >= Mag(yc, e0, k)
    ensures c != [] ==> Operand(c) && k >= PlacesOf(c, e) && Mag(c, e, k) == Mag(xc0, e0, k) - Mag(yc, e0, k)
  {
    hide Val, Pow, Mag, Strip;
    var xc := xc0 + Zeros(Max(0, |yc| - |xc0|));
    MagTrailing(xc0, e0, Max(0, |yc| - |xc0|), k);
    assert Bigger(xc, yc, at);
    PrefixAtLeast(xc, yc, at);
    var d := Subtract(xc, yc, a);
    Difference(xc, yc, at, d);
    SubtractedMag(xc, yc, e0, k, d);
    StripValue(d, e0, k);
    c := PopZeros(d);
    var s := c;
    c, e := ShiftZeros(c, e0);
    Shifted(s, e0, c, e, k);
  }

  lemma SubtractedMag(x: seq<int>, y: seq<int>, e: int, k: int, d: seq<int>)
    requires |y| <= |x| == |d| && k == PlacesOf(x, e)
    requires Val(d, 10) == Val(x, 10) - Val(y, 10) * Pow10(|x| - |y|)
    ensures Mag(d, e, k) == Mag(x, e, k) - Mag(y, e, k)
    ensures Mag(d, e, k) == Val(d, 10)
  {
    hide Val, Pow;
    Unscaled(x);
    Unscaled(d);
    assert k - PlacesOf(y, e) == |x| - |y|;
  }

  /** Dropping zeros in front of stripped digits leaves a normal form, or nothing at all. */
  lemma Shifted(s: seq<int>, e0: int, c: seq<int>, e: int, k: int)
    requires InBase(s, 10) && (s != [] ==> s[|s| - 1] != 0)
    requires |c| <= |s| && c == s[|s| - |c|..] && e == e0 - (|s| - |c|)
    requires (c != [] ==> c[0] != 0) && Val(c, 10) == Val(s, 10) && k >= PlacesOf(s, e0)
    ensures c != [] ==> Operand(c)
    ensures k >= PlacesOf(c, e) && Mag(c, e, k) == Mag(s, e0, k) >= 0
    ensures c == [] <==> Mag(s, e0, k) == 0
  {
    hide Val, Pow;
    ValEmpty(10);
    if c != [] {
      assert c[|c| - 1] == s[|s| - 1];
      MagBound(c, e, k);
    }
  }
}
