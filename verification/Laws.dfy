/**
 What the operations mean, for all operands: sums, differences and products are
 exact as long as they do not leave the range of exponents, quotients are
 correctly rounded, and comparison is the order of the numbers denoted.
 */
module Laws {
  import opened Digits
  import opened Numbers
  import opened Rounding
  import opened Arithmetic

  /** The number n * 10^-k is not zero, and nearer to zero than 10^e. */
  ghost predicate Below(n: int, e: int, k: int)
  {
    n != 0 && e + k >= 0 && Abs(n) < Pow10(e + k)
  }

  /** The number n * 10^-k is 10^(hi + 1) or more in magnitude. */
  ghost predicate Beyond(n: int, hi: Limit, k: int)
  {
    hi.AtMost? && (hi.n + 1 + k < 0 ==> n != 0) && (hi.n + 1 + k >= 0 ==> Abs(n) >= Pow10(hi.n + 1 + k))
  }

  predicate InRange(x: Number, g: Settings)
  {
    Nonzero(x) ==> g.lo <= x.e && !Over(x.e, g.hi)
  }

  /** The value of a result, counted in units of 10^-k. */
  ghost predicate Is(r: Number, n: int, k: int)
  {
    Valid(r) && Finite(r) && k >= Places(r) && At(r, k) == n
  }

  /** The exponent of a number says between which powers of ten it lies. */
  lemma ExponentMeaning(s: int, n: nat, k: int)
    requires (s == 1 || s == -1) && n > 0
    ensures var x := Exact(s, n, k);
            x.e + k >= 0 && Pow10(x.e + k) <= n < Pow10(x.e + k + 1)
  {
    hide Val, Pow;
    ExactMeaning(s, n, k);
    var x := Exact(s, n, k);
    MagBound(x.c, x.e, k);
  }

  lemma ExponentBelow(s: int, n: nat, k: int, lo: int)
    requires (s == 1 || s == -1) && n > 0
    ensures Exact(s, n, k).e < lo <==> Below(n, lo, k)
  {
    hide Pow, Exact;
    ExponentMeaning(s, n, k);
    var e := Exact(s, n, k).e;
    if e < lo { PowMono(10, e + k + 1, lo + k); }
    else if lo + k >= 0 { PowMono(10, lo + k, e + k); }
  }

  lemma ExponentBeyond(s: int, n: nat, k: int, hi: Limit)
    requires (s == 1 || s == -1) && n > 0
    ensures Over(Exact(s, n, k).e, hi) <==> Beyond(n, hi, k)
  {
    hide Pow, Exact;
    ExponentMeaning(s, n, k);
    var e := Exact(s, n, k).e;
    if hi.AtMost? {
      if e > hi.n {
        if hi.n + 1 + k >= 0 { PowMono(10, hi.n + 1 + k, e + k); }
      } else {
        PowMono(10, e + k + 1, hi.n + 1 + k);
      }
    }
  }

  // ----- addition and subtraction

  lemma ScaleUp(x: Number, y: Number, k: nat)
    requires Valid(x) && Valid(y) && Finite(x) && Finite(y)
    requires k >= Places(x) && k >= Places(y)
    ensures k >= Scale(x, y)
    ensures var p := Pow10(k - Scale(x, y));
            p > 0 && MagOf(x, k) == MagOf(x, Scale(x, y)) * p && MagOf(y, k) == MagOf(y, Scale(x, y)) * p
  {
    MagShift(x.c, x.e, Scale(x, y), k - Scale(x, y));
    MagShift(y.c, y.e, Scale(x, y), k - Scale(x, y));
  }

  lemma SumSameAt(x: Number, y: Number, k: nat)
    requires Valid(x) && Valid(y) && Finite(x) && Finite(y) && (y.s == 1 || y.s == -1)
    requires k >= Places(x) && k >= Places(y)
    ensures MagOf(x, k) + MagOf(y, k) >= 0
    ensures SumSame(x, y) == Exact(y.s, MagOf(x, k) + MagOf(y, k), k)
  {
    hide Val, Pow, Mag, InBase, Exact, NormalDigits;
    ScaleUp(x, y, k);
    var a, b, p := MagOf(x, Scale(x, y)), MagOf(y, Scale(x, y)), Pow10(k - Scale(x, y));
    MagPositive(x, Scale(x, y));
    MagPositive(y, Scale(x, y));
    ExactScale(y.s, a + b, Scale(x, y), k - Scale(x, y));
    Distribute2(a, b, p);
  }

  lemma DiffSameAt(x: Number, y: Number, k: nat)
    requires Valid(x) && Valid(y) && Finite(x) && Finite(y) && (y.s == 1 || y.s == -1)
    requires k >= Places(x) && k >= Places(y)
    ensures var d := MagOf(x, k) - MagOf(y, k);
            DiffSame(x, y) == Exact(if d < 0 then -y.s else y.s, Abs(d), k)
  {
    hide Val, Pow, Mag, InBase, Exact, NormalDigits;
    ScaleUp(x, y, k);
    var a, b, p := MagOf(x, Scale(x, y)), MagOf(y, Scale(x, y)), Pow10(k - Scale(x, y));
    MulCancel(a, b, p);
    MulCancel(b, a, p);
    Distribute(a - b, a, b, p);
    assert Abs(a * p - b * p) == Abs(a - b) * p by {
      if a < b { Distribute(b - a, b, a, p); }
    }
    ExactScale(if a - b < 0 then -y.s else y.s, Abs(a - b), Scale(x, y), k - Scale(x, y));
  }

  lemma Signed(x: Number, k: int)
    requires Valid(x) && Finite(x) && k >= Places(x)
    ensures x.s == 1 ==> At(x, k) == MagOf(x, k)
    ensures x.s == -1 ==> At(x, k) == -MagOf(x, k)
    ensures MagOf(x, k) >= 0 && (MagOf(x, k) == 0 <==> IsZero(x))
  {
    hide Val, Pow, Mag, InBase;
    MagPositive(x, k);
  }

  lemma ExactSigned(s: int, n: nat, k: int)
    requires s == 1 || s == -1
    requires n > 0 || k >= 0
    ensures Is(Exact(s, n, k), if s == 1 then n else 0 - n, k)
    ensures IsZero(Exact(s, n, k)) <==> n == 0
    ensures Exact(s, n, k).s == s
  {
    hide Val, Pow, Exact;
    ExactMeaning(s, n, k);
  }

  lemma PlusSameMeaning(x: Number, y: Number, k: nat)
    requires Valid(x) && Valid(y) && Finite(x) && Finite(y) && x.s == y.s
    requires k >= Places(x) && k >= Places(y)
    ensures Is(PlusSame(x, y), At(x, k) + At(y, k), k)
  {
    hide Val, Pow, Mag, Exact, SumSame;
    Signed(x, k);
    Signed(y, k);
    if IsZero(x) && IsZero(y) {
      Signed(Zero(x.s), k);
    } else if Nonzero(x) && Nonzero(y) {
      SumSameAt(x, y, k);
      ExactSigned(y.s, MagOf(x, k) + MagOf(y, k), k);
    }
  }

  /** A difference is exact, or it is too small to be anything but zero. */
  ghost predicate ExactOrUnderflow(r: Number, n: int, lo: int, k: int)
  {
    if Below(n, lo, k) then Is(r, 0, k) else Is(r, n, k)
  }

  lemma MinusSameMeaning(x: Number, y: Number, lo: int, k: nat)
    requires Valid(x) && Valid(y) && Finite(x) && Finite(y) && x.s == y.s
    requires k >= Places(x) && k >= Places(y)
    requires Nonzero(x) && Nonzero(y)
    ensures ExactOrUnderflow(MinusSame(x, y, lo), At(x, k) - At(y, k), lo, k)
  {
    hide Val, Pow, Mag, Exact, DiffSame;
    Signed(x, k);
    Signed(y, k);
    DiffSameAt(x, y, k);
    var d := MagOf(x, k) - MagOf(y, k);
    var s := if d < 0 then -y.s else y.s;
    ExactSigned(s, Abs(d), k);
    if d != 0 {
      ExponentBelow(s, Abs(d), k, lo);
    }
    Signed(Zero(s), k);
  }

  lemma NegateMeaning(x: Number, k: int)
    requires Valid(x) && Finite(x) && k >= Places(x)
    ensures Valid(Negate(x)) && Places(Negate(x)) == Places(x) && At(Negate(x), k) == -At(x, k)
  {
    hide Val, Pow;
    Signed(x, k);
    Signed(Negate(x), k);
  }

  /**
   `minus` is exact for all finite operands, whatever their signs and exponents,
   unless both are nonzero and the difference lies below 10^MIN_EXP.
   */
  lemma MinusMeaning(x: Number, y: Number, lo: int, k: nat)
    requires Valid(x) && Valid(y) && Finite(x) && Finite(y)
    requires k >= Places(x) && k >= Places(y)
    ensures if Nonzero(x) && Nonzero(y) && x.s == y.s
            then ExactOrUnderflow(Minus(x, y, lo), At(x, k) - At(y, k), lo, k)
            else Is(Minus(x, y, lo), At(x, k) - At(y, k), k)
  {
    hide Val, Pow, Mag, Exact, DiffSame, SumSame, ExactOrUnderflow;
    Signed(x, k);
    Signed(y, k);
    NegateMeaning(y, k);
    if x.s != y.s {
      PlusSameMeaning(x, Negate(y), k);
    } else if Nonzero(x) && Nonzero(y) {
      MinusSameMeaning(x, y, lo, k);
    } else {
      Signed(Zero(1), k);
    }
  }

  /** `plus` is exact for all finite operands, with the same exception for operands of opposite signs. */
  lemma PlusMeaning(x: Number, y: Number, lo: int, k: nat)
    requires Valid(x) && Valid(y) && Finite(x) && Finite(y)
    requires k >= Places(x) && k >= Places(y)
    ensures if Nonzero(x) && Nonzero(y) && x.s != y.s
            then ExactOrUnderflow(Plus(x, y, lo), At(x, k) + At(y, k), lo, k)
            else Is(Plus(x, y, lo), At(x, k) + At(y, k), k)
  {
    hide Val, Pow, Mag, Exact, DiffSame, SumSame, ExactOrUnderflow, Is, At, PlusSame;
    NegateMeaning(y, k);
    if x.s == y.s {
      PlusSameMeaning(x, y, k);
    } else {
      MinusMeaning(x, Negate(y), lo, k);
      assert Negate(Negate(y)) == y;
    }
  }

  /** The one sum the source cannot deliver: both operands below 10^(top + 1), the sum not, and that above MAX_EXP. */
  lemma PlusFailsMeaning(x: Number, y: Number, hi: Limit, k: nat)
    requires Valid(x) && Valid(y) && Nonzero(x) && Nonzero(y) && x.s == y.s
    requires k >= Places(x) && k >= Places(y)
    ensures Max(x.e, y.e) + 1 + k >= 0
    ensures PlusFails(x, y, hi) <==>
            Abs(At(x, k) + At(y, k)) >= Pow10(Max(x.e, y.e) + 1 + k) && Over(Max(x.e, y.e) + 1, hi)
  {
    hide Val, Pow, Exact, SumSame, Mag, InBase, NormalDigits;
    Signed(x, k);
    Signed(y, k);
    SumSameAt(x, y, k);
    ExponentMeaning(y.s, MagOf(x, k) + MagOf(y, k), k);
    NumberBound(x, k);
    NumberBound(y, k);
    SumExponent(MagOf(x, k), x.e + k, MagOf(y, k), y.e + k, SumSame(x, y).e + k);
  }

  /** Such a sum: 90 + 90, where `config` has set the largest exponent to 1. */
  lemma PlusFailsExample()
    ensures var x := Number(1, 1, [9]);
            Valid(x) && InRange(x, Settings(20, 4, -1, AtMost(1))) && PlusFails(x, x, AtMost(1))
  {
    var x := Number(1, 1, [9]);
    ValOne(9, 10);
    PowStep(10, 0);
    PowStep(10, 1);
    assert At(x, 0) == 90 && Pow10(2) == 100;
    hide *;
    PlusFailsMeaning(x, x, AtMost(1), 0);
  }

  lemma NumberBound(x: Number, k: int)
    requires Valid(x) && Nonzero(x) && k >= Places(x)
    ensures x.e + k >= 0 && Pow10(x.e + k) <= MagOf(x, k) < Pow10(x.e + k + 1)
  {
    hide Val, Pow;
    MagBound(x.c, x.e, k);
  }

  /** The sum of two numbers has the greater of their exponents, or one more if it reaches the next power of ten. */
  lemma SumExponent(m: int, i: nat, n: int, j: nat, e: int)
    requires Pow10(i) <= m < Pow10(i + 1) && Pow10(j) <= n < Pow10(j + 1)
    requires e >= 0 && Pow10(e) <= m + n < Pow10(e + 1)
    ensures var top := Max(i, j);
            e == if m + n >= Pow10(top + 1) then top + 1 else top
  {
    var top := Max(i, j);
    PowStep(10, top + 1);
    hide Pow;
    PowMono(10, i + 1, top + 1);
    PowMono(10, j + 1, top + 1);
    if e > top + 1 { PowMono(10, top + 2, e); }
    if e <= top { PowMono(10, e + 1, top + 1); }
    if e < top { PowMono(10, e + 1, top); }
    if e > top { PowMono(10, top + 1, e); }
  }

  // ----- multiplication

  lemma ProductAt(x: Number, y: Number, k: int, l: int)
    requires Valid(x) && Valid(y) && Finite(x) && Finite(y)
    requires k >= Places(x) && l >= Places(y)
    ensures MagOf(x, k) * MagOf(y, l) >= 0
    ensures Nonzero(x) && Nonzero(y) ==> MagOf(x, k) * MagOf(y, l) > 0
    ensures Nonzero(x) && Nonzero(y) ==> Product(x, y) == Exact(SignOf(x, y), MagOf(x, k) * MagOf(y, l), k + l)
  {
    hide Val, Pow, InBase, Exact, NormalDigits;
    MagPositive(x, k);
    MagPositive(y, l);
    MulMono(0, MagOf(x, k), MagOf(y, l));
    if Nonzero(x) && Nonzero(y) {
      MulMono(1, MagOf(x, k), MagOf(y, l));
      RatioPositive(x, y, 0);
      ProductNat(x, y);
      MulMono(1, Val(x.c, 10), Val(y.c, 10));
      var i, j := k - Places(x), l - Places(y);
      ExactScale(SignOf(x, y), Val(x.c, 10) * Val(y.c, 10), Places(x) + Places(y), i + j);
      PowAdd(10, i, j);
      Shuffle(Val(x.c, 10), Pow10(i), Val(y.c, 10), Pow10(j));
    }
  }

  lemma Shuffle(a: int, p: int, b: int, q: int)
    ensures (a * p) * (b * q) == (a * b) * (p * q)
  {
    MulAssoc3(a, p, b * q);
    MulAssoc3(a, b, p * q);
    MulAssoc3(p, b, q);
    MulAssoc3(b, p, q);
  }

  lemma SignRule(s: int, t: int, m: int, n: int)
    requires (s == 1 || s == -1) && (t == 1 || t == -1)
    ensures (s * m) * (t * n) == if s == t then m * n else 0 - m * n
  {
    assert (s * m) * (t * n) == s * t * (m * n) by {
      Shuffle(s, m, t, n);
    }
  }

  /** `times` is exact, or out of the range of exponents: above it infinite, below it zero. */
  lemma TimesMeaning(x: Number, y: Number, g: Settings, k: nat, l: nat)
    requires Valid(x) && Valid(y) && Finite(x) && Finite(y)
    requires k >= Places(x) && l >= Places(y)
    ensures var n, r := At(x, k) * At(y, l), Times(x, y, g);
            && r.s == SignOf(x, y)
            && if n == 0 then Is(r, 0, k + l)
               else if Beyond(n, g.hi, k + l) then r == Infinity(r.s)
               else if Below(n, g.lo, k + l) then Is(r, 0, k + l)
               else Is(r, n, k + l)
  {
    hide Val, Pow, InBase, Exact, Mag, NormalDigits, Product;
    Signed(x, k);
    Signed(y, l);
    SignRule(x.s, y.s, MagOf(x, k), MagOf(y, l));
    ProductAt(x, y, k, l);
    var s, n := SignOf(x, y), MagOf(x, k) * MagOf(y, l);
    ExactSigned(s, 0, k + l);
    assert Exact(s, 0, k + l) == Zero(s) by { ExactZero(s, k + l); }
    if Nonzero(x) && Nonzero(y) {
      ExactSigned(s, n, k + l);
      ExponentBelow(s, n, k + l, g.lo);
      ExponentBeyond(s, n, k + l, g.hi);
    }
  }

  // ----- division and rounding

  /** The fraction that `div` rounds is |x| / |y| * 10^dp, at whatever scale the operands are written. */
  lemma RatioAt(x: Number, y: Number, dp: int, mode: Mode, k: int)
    requires Valid(x) && Valid(y) && Nonzero(x) && Nonzero(y)
    requires k >= Places(x) && k >= Places(y)
    ensures MagOf(x, k) * Pow10(Max(0, dp)) > 0 && MagOf(y, k) * Pow10(Max(0, -dp)) > 0
    ensures QuotUnits(x, y, dp, mode) ==
            RoundMag(mode, SignOf(x, y) < 0, MagOf(x, k) * Pow10(Max(0, dp)), MagOf(y, k) * Pow10(Max(0, -dp)))
  {
    hide Val, Pow, InBase, NormalDigits, RoundMag;
    MagPositive(x, k);
    MagPositive(y, k);
    MulMono(1, MagOf(x, k), Pow10(Max(0, dp)));
    MulMono(1, MagOf(y, k), Pow10(Max(0, -dp)));
    RatioPositive(x, y, dp);
    var t := dp + Places(y) - Places(x);
    var i, j := k - Places(x), k - Places(y);
    var m := i + Max(0, dp) - Max(0, t);
    Fold(Val(x.c, 10), i, Max(0, dp), Max(0, t), m);
    Fold(Val(y.c, 10), j, Max(0, -dp), Max(0, -t), m);
    RoundScale(mode, SignOf(x, y) < 0, RatioNum(x, y, dp), RatioDen(x, y, dp), Pow10(m));
  }

  lemma Unit(n: int)
    ensures n * Pow10(0) == n
  {
  }

  lemma Fold(v: int, i: nat, d: nat, t: nat, m: nat)
    requires i + d == t + m
    ensures v * Pow10(i) * Pow10(d) == v * Pow10(t) * Pow10(m)
  {
    hide Pow;
    PowAdd(10, i, d);
    PowAdd(10, t, m);
    MulAssoc3(v, Pow10(i), Pow10(d));
    MulAssoc3(v, Pow10(t), Pow10(m));
  }

  /** The quotient before its exponent is looked at: so many units of 10^-dp, as the mode picks them for x / y. */
  lemma QuotientMeaning(x: Number, y: Number, dp: nat, mode: Mode, k: int)
    requires Valid(x) && Valid(y) && Nonzero(x) && Nonzero(y)
    requires k >= Places(x) && k >= Places(y)
    ensures MagOf(y, k) > 0
    ensures var s, m := SignOf(x, y), QuotUnits(x, y, dp, mode);
            && Quotient(x, y, dp, mode) == Exact(s, m, dp)
            && IsRounded(mode, y.s * At(x, k) * Pow10(dp), MagOf(y, k), s * m)
  {
    hide Val, Pow, InBase, NormalDigits, RoundMag, Mag, QuotUnits, Exact, IsRounded;
    RatioAt(x, y, dp, mode, k);
    Unit(MagOf(y, k));
    var s, n := SignOf(x, y), MagOf(x, k) * Pow10(dp);
    RoundMeaning(mode, s, n, MagOf(y, k));
    assert y.s * At(x, k) * Pow10(dp) == s * n by {
      MulAssoc3(y.s, x.s, MagOf(x, k));
      MulAssoc3(s, MagOf(x, k), Pow10(dp));
      assert y.s * x.s == s;
    }
  }

  /**
   Division is correctly rounded: for all nonzero operands, every number of
   decimal places and each of the nine modes, `div` returns the multiple m * 10^-dp
   that the mode's documentation picks for x / y, unless that is out of the range of
   exponents: above it the result is infinite, below it zero.
   */
  lemma DivMeaning(x: Number, y: Number, g: Settings, k: int)
    requires Valid(x) && Valid(y) && Nonzero(x) && Nonzero(y) && g.dp >= 0
    requires k >= Places(x) && k >= Places(y)
    ensures MagOf(y, k) > 0
    ensures var s, r := SignOf(x, y), Div(x, y, g);
            var m := s * QuotUnits(x, y, g.dp, g.mode);
            && IsRounded(g.mode, y.s * At(x, k) * Pow10(g.dp), MagOf(y, k), m)
            && r.s == s
            && if m == 0 then Is(r, 0, g.dp)
               else if Beyond(m, g.hi, g.dp) then r == Infinity(s)
               else if Below(m, g.lo, g.dp) then Is(r, 0, g.dp)
               else Is(r, m, g.dp)
  {
    hide Val, Pow, InBase, NormalDigits, Mag, QuotUnits, Exact, IsRounded, At, Below, Beyond, Is;
    QuotientMeaning(x, y, g.dp, g.mode, k);
    var s, u := SignOf(x, y), QuotUnits(x, y, g.dp, g.mode);
    RangeMeaning(s, u, g.dp, g);
  }

  /** A number brought into range. */
  lemma RangeMeaning(s: int, n: nat, k: nat, g: Settings)
    requires s == 1 || s == -1
    ensures var m, r := s * n, Clamp(Exact(s, n, k), g);
            && r.s == s
            && if m == 0 then Is(r, 0, k)
               else if Beyond(m, g.hi, k) then r == Infinity(s)
               else if Below(m, g.lo, k) then Is(r, 0, k)
               else Is(r, m, k)
  {
    hide Val, Pow, Exact, At;
    ExactSigned(s, n, k);
    ExactSigned(s, 0, k);
    ExactZero(s, k);
    if n > 0 {
      ExponentBeyond(s, n, k, g.hi);
      ExponentBelow(s, n, k, g.lo);
    }
  }

  /** Rounding to decimal places, likewise. */
  lemma RoundToMeaning(x: Number, dp: nat, mode: Mode, k: int)
    requires Valid(x) && Finite(x) && k >= Places(x) && k >= dp
    ensures var r := RoundTo(x, dp, mode);
            && Valid(r) && Finite(r) && dp >= Places(r) && r.s == x.s
            && IsRounded(mode, At(x, k), Pow10(k - dp), At(r, dp))
  {
    hide Val, Pow, InBase, NormalDigits, RoundMag, Exact;
    var p := Places(x);
    ScaledMagNat(x, dp);
    var m := RoundMag(mode, x.s < 0, ScaledMag(x, dp), Pow10(Max(0, p - dp)));
    ExactMeaning(x.s, m, dp);
    var i, j := k - p, k - dp;
    var t := i - Max(0, dp - p);
    Fold(Val(x.c, 10), Max(0, dp - p), t, i, 0);
    PowAdd(10, Max(0, p - dp), t);
    PowStep(10, 0);
    MagPositive(x, k);
    RoundScale(mode, x.s < 0, ScaledMag(x, dp), Pow10(Max(0, p - dp)), Pow10(t));
    RoundMeaning(mode, x.s, MagOf(x, k), Pow10(j));
  }

  // ----- comparison

  /** `cmp` is the order of the numbers denoted. */
  lemma CmpMeaning(x: Number, y: Number, k: int)
    requires Valid(x) && Valid(y) && Finite(x) && Finite(y)
    requires k >= Places(x) && k >= Places(y)
    ensures Cmp(x, y) == 1 <==> At(x, k) > At(y, k)
    ensures Cmp(x, y) == -1 <==> At(x, k) < At(y, k)
    ensures Cmp(x, y) == 0 <==> At(x, k) == At(y, k)
  {
    hide Val, Pow, Mag;
    var k0 := Max(Places(x), Places(y));
    var a, b := At(x, k0), At(y, k0);
    AtShift(x, k0, k - k0);
    AtShift(y, k0, k - k0);
    MulCancel(a, b, Pow10(k - k0));
    MulCancel(b, a, Pow10(k - k0));
    var j := Scale(x, y) - k0;
    AtShift(x, k0, j);
    AtShift(y, k0, j);
    MulCancel(a, b, Pow10(j));
    MulCancel(b, a, Pow10(j));
  }

  /** So it is a total order, and numbers it cannot tell apart are the same object but for the sign of zero. */
  lemma CmpTotalOrder(x: Number, y: Number, z: Number)
    requires Valid(x) && Valid(y) && Valid(z) && Finite(x) && Finite(y) && Finite(z)
    ensures Cmp(x, y) == -Cmp(y, x)
    ensures Cmp(x, y) == 0 <==> x == y || (IsZero(x) && IsZero(y))
    ensures Cmp(x, y) <= 0 && Cmp(y, z) <= 0 ==> Cmp(x, z) <= 0
  {
    hide Val, Pow, Mag, Cmp, At;
    var k := Max(Scale(x, y), Places(z));
    CmpMeaning(x, y, k);
    CmpMeaning(y, x, k);
    CmpMeaning(y, z, k);
    CmpMeaning(x, z, k);
    SameValue(x, y, k);
    CmpRange(x, y);
    CmpRange(y, x);
    CmpRange(y, z);
    CmpRange(x, z);
  }

  lemma CmpRange(x: Number, y: Number)
    requires Valid(x) && Valid(y) && !IsNaN(x) && !IsNaN(y)
    ensures -1 <= Cmp(x, y) <= 1
  {
  }
}
