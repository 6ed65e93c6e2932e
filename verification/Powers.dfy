/**
 Powers and remainders: what repeated multiplication under a range of exponents
 comes to, and what `mod` leaves.
 */
module Powers {
  import opened Digits
  import opened Numbers
  import opened Rounding
  import opened Arithmetic
  import opened Laws

  /** A range of exponents around that of 1. */
  predicate Sane(g: Settings)
  {
    g.lo < 0 && (g.hi.AtMost? ==> g.hi.n > 0)
  }

  /** `u` is x^n as the engine has it: brought into range, except for x itself. */
  ghost predicate IsPower(u: Number, x: Number, n: nat, g: Settings)
    requires Valid(x)
  {
    u == Clamp(PowerOf(x, n), g) || (n == 1 && u == x)
  }

  lemma NoPower(x: Number, g: Settings)
    requires Valid(x) && Sane(g)
    ensures Clamp(PowerOf(x, 0), g) == ONE && IsPower(x, x, 1, g)
  {
  }

  lemma ClampValid(x: Number, n: nat, g: Settings)
    requires Valid(x)
    ensures Valid(Clamp(PowerOf(x, n), g))
  {
    hide PowerOf;
    PowerValid(x, n);
  }

  /** The digits of a power, at the places that the digits of its base multiply to. */
  lemma PowerShape(x: Number, n: nat)
    requires Valid(x) && Nonzero(x)
    ensures var p, v := PowerOf(x, n), Val(x.c, 10);
            && v > 0 && Nonzero(p) && Valid(p) && p.s == SignPower(x.s, n)
            && Places(x) * n >= Places(p) && MagOf(p, Places(x) * n) == Pow(v, n)
    ensures n == 1 ==> PowerOf(x, n) == x
  {
    PowerDef(x, n);
    hide Val, Exact, Pow, PowerOf, NormalDigits, MagOf, Places;
    var v, k := Val(x.c, 10), Places(x) * n;
    ExactMeaning(SignPower(x.s, n), Pow(v, n), k);
    if n == 1 {
      FirstPower(x);
    }
  }

  lemma FirstPower(x: Number)
    requires Valid(x) && Nonzero(x)
    ensures PowerOf(x, 1) == x
  {
    PowerDef(x, 1);
    hide Val, Exact, PowerOf;
    ExactOf(x, Places(x));
    MagUnfold(x, Places(x));
    hide MagOf, Places;
    PowStep(Val(x.c, 10), 0);
    PowStep(10, 0);
  }

  lemma PowerProduct(x: Number, a: nat, b: nat)
    requires Valid(x) && Nonzero(x)
    ensures var u, v := PowerOf(x, a), PowerOf(x, b);
            Valid(u) && Valid(v) && Nonzero(u) && Nonzero(v) && Product(u, v) == PowerOf(x, a + b)
  {
    hide Val, Pow, Exact, MagOf, PowerOf, Product, SignPower, Places, NormalDigits;
    PowerShape(x, a);
    PowerShape(x, b);
    var u, v, d := PowerOf(x, a), PowerOf(x, b), Val(x.c, 10);
    ProductAt(u, v, Places(x) * a, Places(x) * b);
    PowAdd(d, a, b);
    Factor(Places(x), a, b);
    PowerDef(x, a + b);
    SignsOfPowers(x.s, a, b);
  }

  lemma Factor(k: int, a: nat, b: nat)
    ensures k * a + k * b == k * (a + b)
  {
  }

  lemma SignsOfPowers(s: int, a: nat, b: nat)
    requires s == 1 || s == -1
    ensures (if SignPower(s, a) == SignPower(s, b) then 1 else -1) == SignPower(s, a + b)
  {
  }

  lemma PowerDef(x: Number, n: nat)
    requires Valid(x) && Nonzero(x)
    ensures Val(x.c, 10) > 0 && PowerOf(x, n) == Exact(SignPower(x.s, n), Pow(Val(x.c, 10), n), Places(x) * n)
  {
    ValPositive(x.c);
    if n == 0 { ExactOne(1, 0); }
  }

  /** The exponent of a product is the sum of the exponents, or one more. */
  lemma ProductExponent(x: Number, y: Number)
    requires Valid(x) && Valid(y) && Nonzero(x) && Nonzero(y)
    ensures x.e + y.e <= Product(x, y).e <= x.e + y.e + 1
    ensures Nonzero(Product(x, y)) && Product(x, y).s == SignOf(x, y)
  {
    hide Val, Pow, Exact, Mag, InBase, NormalDigits;
    var k, l := Places(x), Places(y);
    ProductAt(x, y, k, l);
    ProductValid(x, y);
    NumberBound(x, k);
    NumberBound(y, l);
    var m, n := MagOf(x, k), MagOf(y, l);
    ExponentMeaning(SignOf(x, y), m * n, k + l);
    var i, j, e := x.e + k, y.e + l, Product(x, y).e + k + l;
    PowAdd(10, i, j);
    PowAdd(10, i + 1, j + 1);
    MulLess(Pow10(i), m, Pow10(i + 1), Pow10(j), n, Pow10(j + 1));
    if e < i + j { PowMono(10, e + 1, i + j); }
    if e > i + j + 1 { PowMono(10, i + j + 2, e); }
  }

  lemma MulLess(a: nat, m: int, a': int, b: nat, n: int, b': int)
    requires a <= m < a' && b <= n < b'
    ensures a * b <= m * n < a' * b'
  {
    MulMono(a, m, b);
    assert m * b <= m * n;
    MulMono(n, b', m);
    assert m * n <= m * b';
    MulStrict(m, a', b');
  }

  lemma ProductValid(x: Number, y: Number)
    requires Valid(x) && Valid(y) && Nonzero(x) && Nonzero(y)
    ensures Valid(Product(x, y)) && Nonzero(Product(x, y)) && Product(x, y).s == SignOf(x, y)
  {
    hide Val, Pow, Exact;
    ProductNat(x, y);
    ValPositive(x.c);
    ValPositive(y.c);
    MulMono(1, Val(x.c, 10), Val(y.c, 10));
    ExactMeaning(SignOf(x, y), Val(x.c, 10) * Val(y.c, 10), Places(x) + Places(y));
  }

  /** Powers of numbers from 1 up stay there, powers of smaller ones stay below 1. */
  lemma {:induction false} PowerExponent(x: Number, n: nat)
    requires Valid(x) && Nonzero(x)
    ensures x.e >= 0 ==> PowerOf(x, n).e >= 0
    ensures x.e < 0 && n > 0 ==> PowerOf(x, n).e < 0
  {
    hide Val, Pow, Exact, Product;
    PowerShape(x, n);
    if n > 1 {
      PowerExponent(x, n - 1);
      PowerShape(x, 1);
      PowerProduct(x, n - 1, 1);
      hide PowerOf;
      ProductExponent(PowerOf(x, n - 1), x);
    }
  }

  /** Clamping the factors first does no harm when both are at least 1 or both are below. */
  lemma ClampFirst(x: Number, y: Number, u: Number, v: Number, g: Settings)
    requires Sane(g) && Valid(x) && Valid(y) && Nonzero(x) && Nonzero(y) && Valid(u) && Valid(v)
    requires u == x || u == Clamp(x, g)
    requires v == y || v == Clamp(y, g)
    requires (x.e >= 0 && y.e >= 0) || (x.e < 0 && y.e < 0)
    ensures Times(u, v, g) == Clamp(Product(x, y), g)
  {
    hide Val, Pow, Exact, Product, InBase, NormalDigits;
    ProductExponent(x, y);
  }

  lemma ClampOne(y: Number, v: Number, g: Settings)
    requires Sane(g) && Valid(y) && Nonzero(y) && Valid(v) && (v == y || v == Clamp(y, g)) && Product(ONE, y) == y
    ensures Times(ONE, v, g) == Clamp(y, g)
  {
    hide Val, Pow, Exact, Product, InBase, NormalDigits;
  }

  /** Multiplying powers that have been brought into range gives the next power, brought into range. */
  lemma TimesPowers(x: Number, a: nat, b: nat, u: Number, v: Number, g: Settings)
    requires Valid(x) && Sane(g) && b > 0
    requires IsPower(u, x, a, g) && IsPower(v, x, b, g)
    ensures Valid(u) && Valid(v) && Times(u, v, g) == Clamp(PowerOf(x, a + b), g)
  {
    hide Val, Pow, Exact, Product, InBase, NormalDigits;
    IsPowerValid(u, x, a, g);
    IsPowerValid(v, x, b, g);
    if Nonzero(x) {
      PowerZero(x);
      hide PowerOf, Clamp, Times;
      PowerShape(x, a);
      PowerShape(x, b);
      PowerProduct(x, a, b);
      if a == 0 {
        NoPower(x, g);
        ClampOne(PowerOf(x, b), v, g);
      } else {
        PowerExponent(x, a);
        PowerExponent(x, b);
        ClampFirst(PowerOf(x, a), PowerOf(x, b), u, v, g);
      }
    }
  }

  lemma IsPowerValid(u: Number, x: Number, n: nat, g: Settings)
    requires Valid(x) && IsPower(u, x, n, g)
    ensures Valid(u)
  {
    hide PowerOf;
    PowerValid(x, n);
  }

  lemma PowerZero(x: Number)
    requires Valid(x)
    ensures PowerOf(x, 0) == ONE
  {
  }

  function IntPower(b: int, n: nat): int
  {
    if n == 0 then 1 else b * IntPower(b, n - 1)
  }

  lemma {:induction false} SignedPower(s: int, m: nat, n: nat)
    requires s == 1 || s == -1
    ensures IntPower(s * m, n) == SignPower(s, n) * Pow(m, n)
  {
    if n > 0 {
      SignedPower(s, m, n - 1);
      PowStep(m, n - 1);
      hide Pow;
      Shuffle(s, m, SignPower(s, n - 1), Pow(m, n - 1));
      assert s * SignPower(s, n - 1) == SignPower(s, n);
    }
  }

  lemma {:induction false} PowOfProduct(a: nat, b: nat, n: nat)
    ensures a * b >= 0 && Pow(a * b, n) == Pow(a, n) * Pow(b, n)
  {
    MulMono(0, a, b);
    if n > 0 {
      PowOfProduct(a, b, n - 1);
      PowStep(a * b, n - 1);
      PowStep(a, n - 1);
      PowStep(b, n - 1);
      hide Pow;
      Shuffle(a, b, Pow(a, n - 1), Pow(b, n - 1));
    }
  }

  lemma {:induction false} PowOfPow(b: nat, m: nat, n: nat)
    ensures m * n >= 0 && Pow(Pow(b, m), n) == Pow(b, m * n)
  {
    MulMono(0, m, n);
    if n > 0 {
      PowOfPow(b, m, n - 1);
      assert m * n == m + m * (n - 1);
      PowAdd(b, m, m * (n - 1));
      PowStep(Pow(b, m), n - 1);
    }
  }

  /**
   `pow` for exponents from 1 up: x^n exactly, or infinity or zero when x^n itself
   is out of range, whatever happened to the squares on the way.
   */
  lemma PowerMeaning(x: Number, n: nat, g: Settings, k: nat)
    requires Valid(x) && Nonzero(x) && n > 0 && k >= Places(x)
    ensures var r, v := Power(x, n, g), IntPower(At(x, k), n);
            && k * n >= 0 && v != 0
            && if Beyond(v, g.hi, k * n) then r == Infinity(SignPower(x.s, n))
               else if Below(v, g.lo, k * n) then r == Zero(SignPower(x.s, n))
               else Is(r, v, k * n)
  {
    hide Val, Pow, Exact, Mag, InBase, NormalDigits;
    MulMono(0, k, n);
    PowerShape(x, n);
    PowerDef(x, n);
    var j, d, s := k - Places(x), Val(x.c, 10), SignPower(x.s, n);
    hide PowerOf;
    MagPositive(x, k);
    SignedPower(x.s, MagOf(x, k), n);
    MagUnfold(x, k);
    PowOfProduct(d, Pow10(j), n);
    PowOfPow(10, j, n);
    assert j * n == k * n - Places(x) * n;
    ExactScale(s, Pow(d, n), Places(x) * n, j * n);
    var m := Pow(MagOf(x, k), n);
    assert PowerOf(x, n) == Exact(s, m, k * n);
    ExactSigned(s, m, k * n);
    ExponentBelow(s, m, k * n, g.lo);
    ExponentBeyond(s, m, k * n, g.hi);
  }

  /**
   `pow` for exponents below zero: 1 / x^n correctly rounded, as long as x^n itself is
   in range; where x^n is infinite the result is zero, and where x^n is zero infinite.
   */
  lemma PowerInverse(x: Number, n: nat, g: Settings, k: nat) returns (m: int)
    requires Valid(x) && Nonzero(x) && n > 0 && k >= Places(x) && g.dp >= 0
    ensures var r, v, s := Power(x, 0 - n, g), IntPower(At(x, k), n), SignPower(x.s, n);
            && k * n >= 0 && v != 0
            && if Beyond(v, g.hi, k * n) then r == Zero(s)
               else if Below(v, g.lo, k * n) then r == Infinity(s)
               else
                 && IsRounded(g.mode, s * Pow10(k * n) * Pow10(g.dp), Abs(v), m)
                 && r.s == s
                 && if m == 0 then Is(r, 0, g.dp)
                    else if Beyond(m, g.hi, g.dp) then r == Infinity(s)
                    else if Below(m, g.lo, g.dp) then Is(r, 0, g.dp)
                    else Is(r, m, g.dp)
  {
    hide Val, Pow, Mag, InBase, NormalDigits, PowerOf, IntPower, Beyond, Below, QuotUnits, IsRounded, Clamp;
    PowerMeaning(x, n, g, k);
    var p, v, s := Power(x, n, g), IntPower(At(x, k), n), SignPower(x.s, n);
    PowerSign(x, n, g);
    OneAt(k * n);
    assert Power(x, 0 - n, g) == Div(ONE, p, g);
    m := 0;
    if !Beyond(v, g.hi, k * n) && !Below(v, g.lo, k * n) {
      MagPositive(p, k * n);
      DivMeaning(ONE, p, g, k * n);
      m := s * QuotUnits(ONE, p, g.dp, g.mode);
    }
  }

  lemma PowerSign(x: Number, n: nat, g: Settings)
    requires Valid(x) && Nonzero(x) && n > 0
    ensures Valid(Power(x, n, g)) && Power(x, n, g).s == SignPower(x.s, n)
  {
    hide Val, Pow, Exact;
    PowerShape(x, n);
    hide PowerOf;
  }

  lemma OneAt(k: nat)
    ensures Valid(ONE) && Places(ONE) == 0 && At(ONE, k) == Pow10(k)
  {
    hide Pow;
    ValOne(1, 10);
  }

  lemma MagUnfold(x: Number, k: int)
    requires k >= Places(x)
    ensures MagOf(x, k) == Val(x.c, 10) * Pow10(k - Places(x))
  {
  }

  // ----- modulo

  /** The product that `mod` subtracts has the sign of x, so the subtraction never turns into an addition. */
  lemma ModSteps(x: Number, y: Number, g: Settings)
    requires Valid(x) && Valid(y) && !IsNaN(x) && !IsNaN(y)
    ensures var q := Div(x, y, g.(dp := 0, mode := ROUND_DOWN));
            Valid(q) && Valid(Times(q, y, g)) && (Nonzero(Times(q, y, g)) ==> Times(q, y, g).s == x.s)
  {
    hide Val, Pow, Exact, QuotUnits, InBase, NormalDigits, Product;
    var g0 := g.(dp := 0, mode := ROUND_DOWN);
    DivValid(x, y, g0);
    var q := Div(x, y, g0);
    TimesValid(q, y, g);
    if Nonzero(q) && Nonzero(y) {
      ProductValid(q, y);
    }
    if Nonzero(x) && Nonzero(y) {
      QuotientSign(x, y);
    }
  }

  lemma QuotientSign(x: Number, y: Number)
    requires Valid(x) && Valid(y) && Nonzero(x) && Nonzero(y)
    ensures Quotient(x, y, 0, ROUND_DOWN).s == SignOf(x, y)
  {
  }

  /** Truncating division of magnitudes: the integer part of |x| / |y|. */
  function WholeQuotient(x: Number, y: Number, k: int): nat
    requires Valid(x) && Valid(y) && Nonzero(x) && Nonzero(y)
    requires k >= Places(x) && k >= Places(y)
  {
    MagPositive(x, k);
    MagPositive(y, k);
    DivNat(MagOf(x, k), MagOf(y, k));
    MagOf(x, k) / MagOf(y, k)
  }

  lemma DivNat(a: int, b: int)
    requires a >= 0 && b > 0
    ensures a / b >= 0
  {
  }

  lemma WholeQuotientIs(x: Number, y: Number, k: int)
    requires Valid(x) && Valid(y) && Nonzero(x) && Nonzero(y)
    requires k >= Places(x) && k >= Places(y)
    ensures QuotUnits(x, y, 0, ROUND_DOWN) == WholeQuotient(x, y, k)
    ensures var t, a, b := WholeQuotient(x, y, k), MagOf(x, k), MagOf(y, k);
            0 < b && 0 <= t * b <= a < t * b + b && (a >= b <==> t >= 1)
  {
    hide Val, Pow, Mag, InBase, NormalDigits, QuotUnits;
    RatioAt(x, y, 0, ROUND_DOWN, k);
    Unit(MagOf(x, k));
    Unit(MagOf(y, k));
    MagPositive(x, k);
    MagPositive(y, k);
    DivLaw(MagOf(x, k), MagOf(y, k));
    PowStep(10, 0);
    var t, b := WholeQuotient(x, y, k), MagOf(y, k);
    MulMono(0, t, b);
    if t >= 1 { MulMono(1, t, b); }
  }

  /**
   `mod`: with T the truncated quotient, x = T*y + r, where r is nearer to zero
   than y and zero or of the sign of x. Two things can go wrong, and only these:
   T itself overflows, and then the result is infinite; the remainder lies below
   10^MIN_EXP, and then the result is zero.
   */
  lemma ModMeaning(x: Number, y: Number, g: Settings, k: nat)
    requires Valid(x) && Valid(y) && Nonzero(x) && Nonzero(y) && Sane(g)
    requires InRange(x, g) && InRange(y, g)
    requires k >= Places(x) && k >= Places(y)
    ensures var t := SignOf(x, y) * WholeQuotient(x, y, k);
            var rest := At(x, k) - t * At(y, k);
            && Abs(rest) < Abs(At(y, k)) && (rest == 0 || Sign(rest) == x.s)
            && var r := Mod(x, y, g);
               if t != 0 && Beyond(t, g.hi, 0) then r == Infinity(-x.s)
               else if t != 0 && Below(rest, g.lo, k) then Is(r, 0, k)
               else Is(r, rest, k)
  {
    hide Val, Pow, Mag, InBase, NormalDigits, Exact, QuotUnits, At, Beyond, Below, Is;
    WholeQuotientIs(x, y, k);
    ModRest(x, y, k);
    ModGuard(x, y, k);
    NumberShape(x, k);
    var t := WholeQuotient(x, y, k);
    if t > 0 {
      ModQuotient(x, y, g, k);
      if !Beyond(SignOf(x, y) * t, g.hi, 0) {
        ModSubtract(x, y, g, k);
      }
    }
  }

  /** A quotient that overflows: 90 mod 0.1, where `config` has set the largest exponent to 1. */
  lemma ModOverflowExample()
    ensures var x, y, g := Number(1, 1, [9]), Number(1, -1, [1]), Settings(20, 4, -5, AtMost(1));
            Valid(x) && Valid(y) && InRange(x, g) && InRange(y, g) && Mod(x, y, g) == Infinity(-1)
  {
    var x, y, g := Number(1, 1, [9]), Number(1, -1, [1]), Settings(20, 4, -5, AtMost(1));
    ValOne(9, 10);
    ValOne(1, 10);
    SmallTens();
    assert MagOf(x, 1) == 900 && MagOf(y, 1) == 1;
    hide Mod, Mag, Pow;
    ModMeaning(x, y, g, 1);
  }

  /** A remainder that underflows: 1.05 mod 1, where `config` has set the smallest exponent to -1. */
  lemma ModUnderflowExample()
    ensures var x, y, g := Number(1, 0, [1, 0, 5]), Number(1, 0, [1]), Settings(20, 4, -1, AtMost(1));
            Valid(x) && Valid(y) && InRange(x, g) && InRange(y, g) && IsZero(Mod(x, y, g))
  {
    var x, y, g := Number(1, 0, [1, 0, 5]), Number(1, 0, [1]), Settings(20, 4, -1, AtMost(1));
    ValOne(1, 10);
    OneHundredFive();
    SmallTens();
    assert MagOf(x, 2) == 105 && At(x, 2) == 105 && MagOf(y, 2) == 100 && At(y, 2) == 100;
    assert Below(5, -1, 2) && !Beyond(1, AtMost(1), 0);
    hide Mod, Mag, Val, Pow, Exact, At, Below, Beyond;
    WholeQuotientIs(x, y, 2);
    assert WholeQuotient(x, y, 2) == 1;
    hide WholeQuotient, MagOf;
    ModMeaning(x, y, g, 2);
    assert Is(Mod(x, y, g), 0, 2);
    IsZeroAt(Mod(x, y, g), 2);
  }

  lemma IsZeroAt(r: Number, k: int)
    requires Is(r, 0, k) && r.s != 0
    ensures IsZero(r)
  {
    hide Mag;
    MagPositive(r, k);
  }

  lemma OneHundredFive()
    ensures Val([1, 0, 5], 10) == 105
  {
    assert [1, 0, 5][..2] == [1, 0] && [1, 0][..1] == [1];
    ValStep([1, 0, 5], 10);
    ValStep([1, 0], 10);
    ValOne(1, 10);
  }

  lemma SmallTens()
    ensures Pow10(0) == 1 && Pow10(1) == 10 && Pow10(2) == 100
  {
    PowStep(10, 0);
    PowStep(10, 1);
  }

  lemma NumberShape(x: Number, k: int)
    requires Valid(x) && Finite(x) && k >= Places(x)
    ensures Is(x, At(x, k), k)
  {
  }

  /** What is left, in terms of magnitudes. */
  lemma ModRest(x: Number, y: Number, k: int)
    requires Valid(x) && Valid(y) && Nonzero(x) && Nonzero(y)
    requires k >= Places(x) && k >= Places(y)
    ensures var t, a, b := WholeQuotient(x, y, k), MagOf(x, k), MagOf(y, k);
            && SignOf(x, y) * t * At(y, k) == (if x.s == 1 then t * b else 0 - t * b)
            && At(x, k) == (if x.s == 1 then a else 0 - a)
            && Abs(At(y, k)) == b > 0 && Abs(SignOf(x, y) * t) == t
  {
    hide Val, Pow, Mag, InBase, NormalDigits, WholeQuotient;
    Signed(x, k);
    Signed(y, k);
    SignRule(SignOf(x, y), y.s, WholeQuotient(x, y, k), MagOf(y, k));
  }

  /** The guard of `mod`: the whole quotient is zero. */
  lemma ModGuard(x: Number, y: Number, k: int)
    requires Valid(x) && Valid(y) && Nonzero(x) && Nonzero(y)
    requires k >= Places(x) && k >= Places(y)
    ensures Cmp(y.(s := 1), x.(s := 1)) == 1 <==> WholeQuotient(x, y, k) == 0
  {
    hide Val, Pow, Mag, InBase;
    WholeQuotientIs(x, y, k);
    var x1, y1 := x.(s := 1), y.(s := 1);
    CmpMeaning(y1, x1, k);
    Signed(x1, k);
    Signed(y1, k);
  }

  /** The quotient that `mod` works with. */
  lemma ModQuotient(x: Number, y: Number, g: Settings, k: int)
    requires Valid(x) && Valid(y) && Nonzero(x) && Nonzero(y) && Sane(g)
    requires k >= Places(x) && k >= Places(y) && WholeQuotient(x, y, k) > 0
    ensures var t, q := WholeQuotient(x, y, k), Div(x, y, g.(dp := 0, mode := ROUND_DOWN));
            && q.s == SignOf(x, y) && Valid(q)
            && if Beyond(SignOf(x, y) * t, g.hi, 0) then !Finite(q)
               else Nonzero(q) && Is(q, SignOf(x, y) * t, 0)
  {
    hide Val, Pow, Mag, InBase, NormalDigits, Exact, QuotUnits, WholeQuotient;
    WholeQuotientIs(x, y, k);
    var s, t := SignOf(x, y), WholeQuotient(x, y, k);
    DivValid(x, y, g.(dp := 0, mode := ROUND_DOWN));
    ExactSigned(s, t, 0);
    ExponentBeyond(s, t, 0, g.hi);
    ExponentMeaning(s, t, 0);
    assert Abs(s * t) == t;
  }

  /** The product of quotient and divisor lies between y and x, hence in range. */
  lemma ModProduct(x: Number, y: Number, q: Number, t: int, g: Settings, k: nat)
    requires Valid(x) && Valid(y) && Nonzero(x) && Nonzero(y)
    requires InRange(x, g) && InRange(y, g)
    requires k >= Places(x) && k >= Places(y)
    requires Is(q, t, 0) && q.s == SignOf(x, y)
    requires MagOf(y, k) <= Abs(t * At(y, k)) <= MagOf(x, k)
    ensures var p := Times(q, y, g);
            Is(p, t * At(y, k), k) && Nonzero(p) && p.s == x.s
  {
    hide Val, Pow, Mag, InBase, NormalDigits, Exact, Times, At, Beyond, Below;
    TimesMeaning(q, y, g, 0, k);
    BetweenInRange(x, y, g, k, t * At(y, k));
    ZeroAt(Times(q, y, g), k);
  }

  lemma ProductBetween(x: Number, y: Number, k: int)
    requires Valid(x) && Valid(y) && Nonzero(x) && Nonzero(y)
    requires k >= Places(x) && k >= Places(y) && WholeQuotient(x, y, k) > 0
    ensures MagOf(y, k) <= Abs(SignOf(x, y) * WholeQuotient(x, y, k) * At(y, k)) <= MagOf(x, k)
  {
    hide Val, Pow, Mag, InBase, NormalDigits, Exact, WholeQuotient, At;
    ModRest(x, y, k);
    WholeQuotientIs(x, y, k);
    MulMono(1, WholeQuotient(x, y, k), MagOf(y, k));
  }

  lemma ZeroAt(x: Number, k: int)
    requires Valid(x)
    ensures IsZero(x) && k >= 0 ==> At(x, k) == 0
  {
    ValOne(0, 10);
  }

  lemma ModSubtract(x: Number, y: Number, g: Settings, k: nat)
    requires Valid(x) && Valid(y) && Nonzero(x) && Nonzero(y) && Sane(g)
    requires InRange(x, g) && InRange(y, g)
    requires k >= Places(x) && k >= Places(y) && WholeQuotient(x, y, k) > 0
    requires !Beyond(SignOf(x, y) * WholeQuotient(x, y, k), g.hi, 0)
    ensures var t, q := SignOf(x, y) * WholeQuotient(x, y, k), Div(x, y, g.(dp := 0, mode := ROUND_DOWN));
            && Valid(q) && Valid(Times(q, y, g))
            && ExactOrUnderflow(Arithmetic.Minus(x, Times(q, y, g), g.lo), At(x, k) - t * At(y, k), g.lo, k)
  {
    hide Val, Pow, Mag, InBase, NormalDigits, Exact, WholeQuotient, Div, Times, Arithmetic.Minus, ExactOrUnderflow, At;
    ModQuotient(x, y, g, k);
    var q := Div(x, y, g.(dp := 0, mode := ROUND_DOWN));
    ProductBetween(x, y, k);
    ModProduct(x, y, q, SignOf(x, y) * WholeQuotient(x, y, k), g, k);
    MinusMeaning(x, Times(q, y, g), g.lo, k);
  }

  lemma BetweenInRange(x: Number, y: Number, g: Settings, k: nat, n: int)
    requires Valid(x) && Valid(y) && Nonzero(x) && Nonzero(y) && InRange(x, g) && InRange(y, g)
    requires k >= Places(x) && k >= Places(y)
    requires MagOf(y, k) <= Abs(n) <= MagOf(x, k)
    ensures !Beyond(n, g.hi, k) && !Below(n, g.lo, k) && n != 0
  {
    hide Val, Pow, Mag, InBase, NormalDigits;
    NumberBound(x, k);
    NumberBound(y, k);
    if g.hi.AtMost? {
      PowMono(10, x.e + k + 1, g.hi.n + 1 + k);
    }
    if g.lo + k >= 0 {
      PowMono(10, g.lo + k, y.e + k);
    }
  }
}
