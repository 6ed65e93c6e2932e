/**
 `toFraction`: the continued fraction of a number, carried out in the engine's
 own arithmetic.
 */
module Fractions {
  import opened Wrappers
  import opened Digits
  import opened Numbers
  import opened Rounding
  import opened Arithmetic
  import opened Laws
  import opened Powers
  import opened Naturals
  import opened Approximations
  import opened Numerals
  import opened Engine
  import opened NumberText

  // ----- choosing the exact fraction

  /** A quotient of integers that is the number x comes out as x, if x has no more than `dp` places. */
  lemma ExactRatio(x: Number, n: Number, d: Number, p: int, q: int, dp: nat, g: Settings)
    requires Valid(x) && Finite(x) && Places(x) >= 0 && dp >= Places(x)
    requires x.e >= g.lo && g.hi == Unlimited && g.dp == dp
    requires n.s == x.s && IsNat(n.(s := 1), p, 0) && IsNat(d, q, 0) && q > 0
    requires p * Pow10(Places(x)) == Val(x.c, 10) * q
    ensures Div(n, d, g) == x
  {
    hide Val, Pow, Mag, InBase, NormalDigits, RoundMag, Exact;
    var v, w := Val(x.c, 10), Pow10(Places(x));
    NatMag(n.(s := 1), p, 0);
    NatMag(d, q, 0);
    MagPositive(x, Places(x));
    Unit(v);
    assert MagOf(x, Places(x)) == v by { MagHereAt(x); }
    if p == 0 {
      MulCancel(v, 0, q);
    } else {
      MulMono(1, p, w);
      RatioAt(n, d, dp, g.mode, 0);
      Unit(q);
      var t := v * Pow10(dp - Places(x));
      PowAdd(10, Places(x), dp - Places(x));
      assert p * Pow10(dp) == t * q by {
        MulAssoc3(p, w, Pow10(dp - Places(x)));
        MulAssoc3(v, q, Pow10(dp - Places(x)));
        MulAssoc3(v, Pow10(dp - Places(x)), q);
        assert q * Pow10(dp - Places(x)) == Pow10(dp - Places(x)) * q;
      }
      MulMono(0, v, Pow10(dp - Places(x)));
      WholeRound(g.mode, SignOf(n, d) < 0, t, q);
      ExactOf(x, dp);
      MagUnfold(x, dp);
    }
  }

  lemma MagHereAt(x: Number)
    ensures MagOf(x, Places(x)) == Val(x.c, 10)
  {
  }

  lemma WholeRound(mode: Mode, neg: bool, t: int, q: int)
    requires t >= 0 && q > 0
    ensures t * q >= 0 && RoundMag(mode, neg, t * q, q) == t
  {
    MulMono(0, t, q);
    DivModUnique(t, q, 0);
  }

  /**
   Rounding x and its neighbour to a unit of w * w, for a multiple of w that is no
   multiple of w * w: x fares no worse.
   */
  lemma NeighbourNoBetter(mode: Mode, neg: bool, v: nat, w: nat)
    requires w >= 10 && w % 2 == 0 && v % w == 0 && w * w > 0 && v % (w * w) != 0
    ensures var u := w * w;
            Abs(RoundMag(mode, neg, v, u) * u - v) <= Abs(RoundMag(mode, neg, v + 1, u) * u - v)
  {
    var u := w * w;
    var q, r := v / u, v % u;
    DivLaw(v, u);
    RestMultiple(v, w, q, r);
    Multiples(w, w / 2, v / w - q * w, r, u);
    DivModUnique(q, u, r + 1);
    assert (q + 1) * u == q * u + u;
    OneUnit(mode, neg, q, r, u);
  }

  /** What is left of a multiple of w behind multiples of w * w is a multiple of w. */
  lemma RestMultiple(v: nat, w: nat, q: nat, r: nat)
    requires w > 0 && v % w == 0 && v == q * (w * w) + r
    ensures r == w * (v / w - q * w)
  {
    var t := v / w;
    assert v == w * t;
    assert w * (t - q * w) == w * t - w * (q * w);
    Swap(w, q, w);
  }

  lemma OneUnit(mode: Mode, neg: bool, q: nat, r: nat, u: nat)
    requires 0 < r && r + 1 < u && (2 * r < u ==> 2 * (r + 1) < u)
    ensures var a, b := Bump(mode, neg, q, r, u), Bump(mode, neg, q, r + 1, u);
            a == b || (2 * r == u && !a && b)
  {
  }

  /** A multiple of w below u = w * w is not next to u, nor next to its half. */
  lemma Multiples(w: nat, h: nat, j: int, r: nat, u: nat)
    requires w == 2 * h && h >= 5 && r == w * j && u == w * w && r < u
    ensures r + 1 < u
    ensures 2 * r < u ==> 2 * (r + 1) < u
  {
    assert u == 2 * (w * h) by { Swap(w, 2, h); }
    Spaced(w, j, w);
    Spaced(w, j, h);
  }

  /** Two different multiples of w are w apart. */
  lemma Spaced(w: nat, j: int, i: int)
    requires w > 0
    ensures w * j < w * i ==> w * j + w <= w * i
  {
    if j < i {
      MulMono(j + 1, i, w);
      assert (j + 1) * w == j * w + w;
    } else {
      MulMono(i, j, w);
    }
  }

  /** An integer rounded to `-dp` zeros by way of a division by one. */
  lemma RoundedInteger(n: Number, s: int, v: int, dp: int, g: Settings)
    requires s == 1 || s == -1
    requires n.s == s && IsNat(n.(s := 1), v, 0) && v > 0 && dp < 0
    requires g.dp == dp && g.hi == Unlimited && g.lo < 0
    ensures var m, u := RoundMag(g.mode, s < 0, v, Pow10(-dp)), Pow10(-dp);
            m * u >= 0 && Is(Div(n, ONE, g), s * (m * u), 0) && Div(n, ONE, g).s == s
  {
    hide Val, Pow, Mag, InBase, NormalDigits, RoundMag, Exact;
    NatMag(n.(s := 1), v, 0);
    NatOne();
    NatMag(ONE, 1, 0);
    RatioAt(n, ONE, dp, g.mode, 0);
    Unit(v);
    var m, u := RoundMag(g.mode, s < 0, v, Pow10(-dp)), Pow10(-dp);
    MulMono(0, m, u);
    if m > 0 {
      MulMono(1, m, u);
      ExactScale(s, m, dp, -dp);
      ExactSigned(s, m * u, 0);
      ExponentMeaning(s, m * u, 0);
    } else {
      ExactSigned(s, 0, 0);
      ExactZero(s, 0);
      ExactZero(s, dp);
    }
    Signs(s, m * u);
  }

  lemma Signs(s: int, v: int)
    requires s == 1 || s == -1
    ensures s * v == if s == 1 then v else 0 - v
  {
  }

  /** The distance the source measures, between a quotient `a` and x. */
  function Distance(a: Number, x: Number, lo: int): Number
    requires Valid(a) && Valid(x)
  {
    Minus(a, x, lo).(s := if Minus(a, x, lo).s < 0 then 1 else Minus(a, x, lo).s)
  }

  /** A distance that underflows is zero. */
  ghost function Felt(d: nat, lo: int, k: int): nat
  {
    if Below(d, lo, k) then 0 else d
  }

  lemma AbsBelow(n: int, lo: int, k: int)
    ensures Below(Abs(n), lo, k) <==> Below(n, lo, k)
  {
    hide Pow;
  }

  lemma DistanceMeaning(a: Number, x: Number, lo: int, k: nat)
    requires Valid(a) && Valid(x) && Finite(a) && Finite(x)
    requires k >= Places(a) && k >= Places(x)
    requires (Nonzero(a) && Nonzero(x) && a.s == x.s) || !Below(At(a, k) - At(x, k), lo, k)
    ensures Is(Distance(a, x, lo), Felt(Abs(At(a, k) - At(x, k)), lo, k), k) && Distance(a, x, lo).s == 1
  {
    hide Val, Pow, Mag, InBase, NormalDigits, Minus;
    MinusMeaning(a, x, lo, k);
    AbsBelow(At(a, k) - At(x, k), lo, k);
    hide Below;
    Signed(Minus(a, x, lo), k);
    Signed(Distance(a, x, lo), k);
  }

  lemma DistanceFinite(a: Number, x: Number, lo: int)
    requires Valid(a) && Valid(x) && Finite(a) && Finite(x)
    ensures Valid(Distance(a, x, lo)) && Finite(Distance(a, x, lo)) && Distance(a, x, lo).s == 1
  {
    hide Val, Pow, Mag, InBase, NormalDigits, Minus;
    var k := Scale(a, x);
    MinusMeaning(a, x, lo, k);
  }

  /** The first of two quotients is taken: the second is not nearer to x. */
  ghost predicate Chosen(a: Number, b: Number, x: Number, lo: int)
  {
    && Valid(a) && Valid(b) && Valid(x) && Finite(a) && Finite(b) && Finite(x)
    && var d, e := Distance(a, x, lo), Distance(b, x, lo);
       Valid(d) && Valid(e) && d.s == 1 && e.s == 1 && Cmp(d, e) < 1
  }

  /** Whatever is compared with it, an exact fraction is chosen. */
  lemma ExactChosen(x: Number, b: Number, lo: int)
    requires Valid(x) && Valid(b) && Finite(x) && Finite(b)
    ensures Chosen(x, b, x, lo)
  {
    hide Val, Pow, Mag, InBase, NormalDigits, Distance, Cmp, At, Is, Scale;
    DistanceFinite(b, x, lo);
    DistanceFinite(x, x, lo);
    NoDistance(x, lo);
    ZeroFirst(Distance(x, x, lo), Distance(b, x, lo), Scale(x, x));
  }

  lemma NoDistance(x: Number, lo: int)
    requires Valid(x) && Finite(x)
    ensures Is(Distance(x, x, lo), 0, Scale(x, x)) && Distance(x, x, lo).s == 1
  {
    hide Val, Pow, Mag, InBase, NormalDigits, Distance, At, Is;
    DistanceMeaning(x, x, lo, Scale(x, x));
  }

  lemma ZeroFirst(d: Number, e: Number, k: nat)
    requires Is(d, 0, k) && (d.s == 1 || d.s == -1) && Valid(e) && Finite(e) && e.s == 1
    ensures Cmp(d, e) < 1
  {
    hide Val, Pow, Mag, InBase, NormalDigits, Cmp;
    Signed(d, k);
    var j := Scale(d, e);
    ZeroAt(d, j);
    Signed(e, j);
    CmpMeaning(d, e, j);
    CmpRange(d, e);
  }

  /** An integer with zeros at its end is preferred to its neighbour. */
  lemma IntegerChosen(x: Number, n: Number, b: Number, v: int, g: Settings)
    requires Valid(x) && Nonzero(x) && Places(x) < 0
    requires g.dp == 2 * Places(x) && g.hi == Unlimited && g.lo < 0
    requires v == MagOf(x, 0)
    requires n.s == x.s && IsNat(n.(s := 1), v, 0) && b.s == x.s && IsNat(b.(s := 1), v + 1, 0)
    ensures Valid(ONE) && Chosen(Div(n, ONE, g), Div(b, ONE, g), x, g.lo)
  {
    hide Val, Pow, Mag, InBase, NormalDigits, RoundMag, Distance, Cmp, Div, Below, At;
    NatOne();
    Signed(x, 0);
    var w, u, s := Pow10(-Places(x)), Pow10(-2 * Places(x)), x.s;
    RoundedInteger(n, s, v, g.dp, g);
    RoundedInteger(b, s, v + 1, g.dp, g);
    var m1, m2 := RoundMag(g.mode, s < 0, v, u) * u, RoundMag(g.mode, s < 0, v + 1, u) * u;
    TwoRoundings(x, g.mode, v);
    SignedDistance(Div(n, ONE, g), x, m1, v, g.lo);
    SignedDistance(Div(b, ONE, g), x, m2, v, g.lo);
    NatCmp(Distance(Div(n, ONE, g), x, g.lo), Distance(Div(b, ONE, g), x, g.lo), Abs(m1 - v), Abs(m2 - v), 0);
  }

  lemma TwoRoundings(x: Number, mode: Mode, v: nat)
    requires Valid(x) && Nonzero(x) && Places(x) < 0 && v == MagOf(x, 0)
    ensures var u := Pow10(-2 * Places(x));
            Abs(RoundMag(mode, x.s < 0, v, u) * u - v) <= Abs(RoundMag(mode, x.s < 0, v + 1, u) * u - v)
  {
    hide Val, Pow, Mag, RoundMag;
    EndingZeros(x);
    NeighbourNoBetter(mode, x.s < 0, v, Pow10(-Places(x)));
  }

  lemma SignedDistance(a: Number, x: Number, m: int, v: int, lo: int)
    requires Valid(x) && Nonzero(x) && Places(x) <= 0 && v == MagOf(x, 0) && lo < 0
    requires Is(a, x.s * m, 0)
    ensures IsNat(Distance(a, x, lo), Abs(m - v), 0)
  {
    hide Val, Pow, Mag, InBase, NormalDigits, Distance, At;
    Signed(x, 0);
    Signs(x.s, m);
    DistanceMeaning(a, x, lo, 0);
  }

  lemma EndingZeros(x: Number)
    requires Valid(x) && Nonzero(x) && Places(x) < 0
    ensures var w, u, v := Pow10(-Places(x)), Pow10(-2 * Places(x)), MagOf(x, 0);
            u == w * w > 0 && w >= 10 && w % 2 == 0 && v >= 0 && v % w == 0 && v % u != 0
  {
    hide Val;
    var j := -Places(x);
    var w, v, d := Pow10(j), MagOf(x, 0), Val(x.c, 10);
    PowAdd(10, j, j);
    PowStep(10, j - 1);
    MagUnfold(x, 0);
    ValPositive(x.c);
    hide Pow;
    EvenTen(Pow10(j - 1));
    MulMono(1, w, w);
    Multiple(d, w);
    if v % (w * w) == 0 {
      SquareDivides(d, w, Pow10(j - 1), v / (w * w));
      LastDigitZero(x.c, Pow10(j - 1) * (v / (w * w)));
    }
  }

  lemma EvenTen(p: nat)
    requires p > 0
    ensures 10 * p >= 10 && (10 * p) % 2 == 0
  {
    DivModUnique(5 * p, 2, 0);
  }

  lemma Multiple(d: nat, w: nat)
    requires w > 0
    ensures d * w >= 0 && (d * w) % w == 0
  {
    MulMono(0, d, w);
    DivModUnique(d, w, 0);
  }

  lemma SquareDivides(d: nat, w: nat, p: nat, t: int)
    requires w > 0 && w == 10 * p && (d * w) % (w * w) == 0 && w * w > 0 && t == d * w / (w * w)
    ensures d == 10 * (p * t)
  {
    DivLaw(d * w, w * w);
    assert d * w == t * (w * w);
    MulAssoc3(t, w, w);
    MulCancel(d, t * w, w);
    Commute(t, w);
    MulAssoc3(10, p, t);
  }

  lemma LastDigitZero(c: seq<int>, t: int)
    requires InBase(c, 10) && c != [] && Val(c, 10) == 10 * t
    ensures c[|c| - 1] == 0
  {
    ValStep(c, 10);
    hide Val;
    var q, d := Val(c[..|c| - 1], 10), c[|c| - 1];
    assert 10 * (t - q) == d;
  }

  // ----- the loop

  /** The number |x| is Num(x) / Den(x). */
  function Num(x: Number): int
  {
    MagOf(x, Max(0, Places(x)))
  }

  function Den(x: Number): nat
  {
    Pow10(Max(0, Places(x)))
  }

  /** The scale at which the loop's n and d are both integers. */
  function Base(x: Number): nat
  {
    Max(0, -Places(x))
  }

  lemma Start(x: Number)
    requires Valid(x) && Finite(x)
    ensures var d := Number(1, Places(x), [1]);
            && Val(x.c, 10) >= 0
            && IsNat(Exact(1, Val(x.c, 10), 0), Num(x), Base(x)) && IsNat(d, Den(x), Base(x))
            && (Places(x) > 0 ==> IsNat(d, Den(x), 0))
    ensures Base(x) > 0 ==> Den(x) == 1 && Num(x) >= Pow10(Base(x))
  {
    hide Val, Exact;
    ValBound(x.c, 10);
    var v, k := Val(x.c, 10), Base(x);
    PowStep(10, 0);
    hide Pow;
    MagUnfold(x, Max(0, Places(x)));
    Unit(v);
    ExactSigned(1, v, 0);
    AtShift(Exact(1, v, 0), 0, k);
    MulMono(0, v, Pow10(k));
    PowerOfTen(Places(x), k);
    if k > 0 {
      ValPositive(x.c);
      MulMono(1, v, Pow10(k));
    }
  }

  lemma PowerOfTen(e: int, k: int)
    requires e + k >= 0
    ensures IsNat(Number(1, e, [1]), Pow10(e + k), k)
  {
    ValOne(1, 10);
  }

  /** The state of the loop: integers that the objects stand for. */
  ghost predicate Loop(x: Number, N: int, D: int, n0: int, n1: int, d0: int, d1: int, first: bool)
  {
    && Convergents(Num(x), Den(x), N, D, n0, n1, d0, d1)
    && (if first then N == Num(x) && D == Den(x) && n0 == 0 && n1 == 1 && d0 == 1 && d1 == 0
        else N > D && d1 >= 1)
    && (Base(x) > 0 && !first ==> D == 0 && n0 == 1 && d0 == 0 && d1 == 1)
  }

  lemma LoopStart(x: Number)
    requires Valid(x) && Finite(x)
    ensures Loop(x, Num(x), Den(x), 0, 1, 1, 0, true)
  {
    hide Val, Pow;
    MagPositive(x, Max(0, Places(x)));
  }

  lemma LoopStep(x: Number, N: int, D: int, n0: int, n1: int, d0: int, d1: int, first: bool, lo: int)
    requires Valid(x) && Finite(x) && lo < 0
    requires Loop(x, N, D, n0, n1, d0, d1, first) && D > 0
    ensures var q := N / D;
            && q >= 0 && 0 <= q * D <= N && N - q * D < D && q * d1 >= 0 && q * n1 >= 0
            && Loop(x, D, N - q * D, n1, n0 + q * n1, d1, d0 + q * d1, false)
            && d0 + q * d1 <= Den(x)
            && !Below(q * D, lo, Base(x)) && !Below(N - q * D, lo, Base(x))
  {
    hide Val, Pow, Num, Den, Base;
    Start(x);
    var q := N / D;
    NextConvergent(Num(x), Den(x), N, D, n0, n1, d0, d1, q);
    DenominatorBound(Num(x), Den(x), N, D, n0, n1, d0, d1, q);
    MulMono(0, q, d1);
    MulMono(0, q, n1);
    if !first {
      QuotientAtLeastOne(N, D, d1);
    }
    if Base(x) > 0 {
      assert q == N && q * D == N && q * n1 == N;
      if lo + Base(x) >= 0 { PowMono(10, lo + Base(x), Base(x)); }
    } else {
      WholeNotBelow(q * D, lo);
      WholeNotBelow(N - q * D, lo);
    }
  }

  lemma QuotientAtLeastOne(N: int, D: int, d: int)
    requires N >= D > 0 && d >= 1
    ensures (N / D) * d >= 1
  {
    assert N / D >= 1;
    MulMono(1, N / D, d);
  }

  /** After a division by zero everything becomes infinite. */
  lemma InfiniteStep(a: Number, b: Number, lo: int)
    requires Valid(a) && Finite(a) && a.s == 1 && Valid(b) && Nonzero(b) && b.s == 1
    ensures Valid(Infinity(1)) && Times(Infinity(1), b, Truncating(lo)) == Infinity(1)
    ensures Plus(a, Infinity(1), lo) == Infinity(1) && !PlusFails(a, Infinity(1), Unlimited)
  {
  }

  lemma InfiniteOver(m: Number)
    requires Valid(m) && Finite(m) && m.s == 1
    ensures Valid(Infinity(1)) && Cmp(Infinity(1), m) == 1
  {
  }

  // ----- the method

  /** The loop of `toFraction`: Euclid's algorithm on n and d, with the convergents on the side. */
  method Expand(lib: Library, ghost x: Number, n0: BigNumber, d0: BigNumber, maxD: BigNumber, ghost m: nat)
    returns (nPrev: BigNumber, nLast: BigNumber, dPrev: BigNumber, dLast: BigNumber,
             ghost a0: nat, ghost a1: nat, ghost b0: nat, ghost b1: nat)
    requires lib.Ready() && lib.Config() == Truncating(lib.minExp)
    requires Valid(x) && Finite(x) && m >= 1
    requires IsNat(n0.Value(), Num(x), Base(x)) && IsNat(d0.Value(), Den(x), Base(x)) && IsNat(maxD.Value(), m, 0)
    ensures fresh(nLast) && nLast != dLast && nLast != dPrev && nLast != nPrev && fresh(dLast) && fresh(dPrev)
    ensures Num(x) >= 0 && (a0, a1, b0, b1) == Expansion(m, Num(x), Den(x), 0, 1, 1, 0)
    ensures IsNat(nPrev.Value(), a0, 0) && IsNat(nLast.Value(), a1, 0)
    ensures IsNat(dPrev.Value(), b0, 0) && IsNat(dLast.Value(), b1, 0)
  {
    hide Val, Pow, Num, Den, Base, Loop, Below, At, NormalDigits, IsNat, Arithmetic.Div, Expansion, Valid, Truncating;
    NumDen(x);
    LoopStart(x);
    ghost var lo, k := lib.minExp, Base(x);
    assert lo < 0;
    hide BigNumber.Value, Library.Ready, Library.Config;
    var n: BigNumber, d: BigNumber := n0, d0;
    var one := new BigNumber(ONE);
    var zero := new BigNumber(Zero(1));
    nLast, dPrev, dLast, nPrev := one, one, zero, zero;
    ghost var N: nat, D: nat, first := Num(x), Den(x), true;
    a0, a1, b0, b1 := 0, 1, 1, 0;
    NatOne();
    NatZero(0);
    while true
      invariant Loop(x, N, D, a0, a1, b0, b1, first)
      invariant Num(x) >= 0 && Expansion(m, N, D, a0, a1, b0, b1) == Expansion(m, Num(x), Den(x), 0, 1, 1, 0)
      invariant lib.Ready() && lib.Config() == Truncating(lo) && lib.minExp == lo
      invariant IsNat(n.Value(), N, k) && IsNat(d.Value(), D, k) && IsNat(maxD.Value(), m, 0)
      invariant IsNat(nPrev.Value(), a0, 0) && IsNat(nLast.Value(), a1, 0)
      invariant IsNat(dPrev.Value(), b0, 0) && IsNat(dLast.Value(), b1, 0)
      invariant fresh(nLast) && fresh(dLast) && fresh(dPrev)
      invariant !first ==> nLast != dLast && nLast != dPrev && nLast != nPrev
      decreases D
    {
      ghost var w := if D > 0 then N / D else 0;
      var q, d2, over := NextDenominator(lib, x, n, d, dPrev, dLast, maxD, N, D, a0, a1, b0, b1, first, w, m);
      if D > 0 {
        LoopStep(x, N, D, a0, a1, b0, b1, first, lo);
        ExpansionStep(m, N, D, a0, a1, b0, b1);
        if first { FirstRound(x, N, D, a0, a1, b0, b1, w); }
      } else {
        ExpansionEnd(m, N, a0, a1, b0, b1);
      }
      if over {
        break;
      }
      dPrev, dLast := dLast, d2;
      var n2 := nLast;
      nLast := PlusTimes(lib, nPrev, q, nLast, a0, w, a1);
      nPrev := n2;
      var r := MinusTimes(lib, n, q, d, N, w, D, k);
      n, d := d, r;
      N, D, a0, a1, b0, b1, first := D, N - w * D, a1, a0 + w * a1, b1, b0 + w * b1, false;
    }
  }

  /** The quotient, the next denominator, and whether that is over the limit. */
  method NextDenominator(lib: Library, ghost x: Number, n: BigNumber, d: BigNumber, dPrev: BigNumber, dLast: BigNumber,
                         maxD: BigNumber, ghost N: nat, ghost D: nat, ghost a0: nat, ghost a1: nat, ghost b0: nat,
                         ghost b1: nat, ghost first: bool, ghost w: nat, ghost m: nat)
    returns (q: BigNumber, d2: BigNumber, over: bool)
    requires lib.Ready() && lib.Config() == Truncating(lib.minExp)
    requires Valid(x) && Finite(x) && Loop(x, N, D, a0, a1, b0, b1, first) && w == if D > 0 then N / D else 0
    requires IsNat(n.Value(), N, Base(x)) && IsNat(d.Value(), D, Base(x)) && IsNat(maxD.Value(), m, 0)
    requires IsNat(dPrev.Value(), b0, 0) && IsNat(dLast.Value(), b1, 0)
    ensures fresh(d2) && (over <==> D == 0 || b0 + w * b1 > m)
    ensures D > 0 ==> IsNat(q.Value(), w, 0) && q.Value() != Infinity(1) && IsNat(d2.Value(), b0 + w * b1, 0)
    ensures D == 0 ==> !first
  {
    hide Val, Pow, Num, Den, Base, Loop, Below, At, NormalDigits, IsNat, Arithmetic.Div;
    if D > 0 {
      NatDiv(n.Value(), d.Value(), N, D, Base(x), lib.minExp);
    } else {
      LastRound(x, n.Value(), d.Value(), dLast.Value(), N, D, a0, a1, b0, b1, first, Base(x), lib.minExp);
    }
    q := lib.Div(n, d);
    if D > 0 { NatFinite(q.Value(), w, 0); }
    d2 := PlusTimes(lib, dPrev, q, dLast, b0, w, b1);
    if D > 0 { NatFinite(d2.Value(), b0 + w * b1, 0); }
    over := IsOver(lib, d2, maxD, b0 + w * b1, m);
  }

  lemma NatFinite(v: Number, a: int, k: int)
    requires IsNat(v, a, k)
    ensures v != Infinity(1)
  {
  }

  /** a + q * b, for natural numbers or for the infinite quotient that ends the loop. */
  method PlusTimes(lib: Library, a: BigNumber, q: BigNumber, b: BigNumber, ghost i: int, ghost w: int, ghost j: int)
    returns (r: BigNumber)
    requires lib.Ready() && lib.Config() == Truncating(lib.minExp)
    requires IsNat(a.Value(), i, 0) && IsNat(b.Value(), j, 0)
    requires IsNat(q.Value(), w, 0) || (q.Value() == Infinity(1) && j > 0)
    ensures fresh(r)
    ensures if q.Value() == Infinity(1) then r.Value() == Infinity(1) else IsNat(r.Value(), i + w * j, 0)
  {
    hide Val, Pow, Arithmetic.Times, Arithmetic.Plus, PlusFails, At, NormalDigits;
    if q.Value() == Infinity(1) {
      NatMag(b.Value(), j, 0);
      InfiniteStep(a.Value(), b.Value(), lib.minExp);
    } else {
      RoundNum(q.Value(), a.Value(), b.Value(), w, i, j, lib.minExp);
    }
    var t := lib.Times(q, b);
    r := lib.Plus(a, t);
  }

  method IsOver(lib: Library, d2: BigNumber, maxD: BigNumber, ghost d: int, ghost m: int) returns (over: bool)
    requires IsNat(maxD.Value(), m, 0) && (IsNat(d2.Value(), d, 0) || d2.Value() == Infinity(1))
    ensures over <==> d2.Value() == Infinity(1) || d > m
  {
    hide Val, Pow, Arithmetic.Cmp, At, NormalDigits;
    if d2.Value() == Infinity(1) {
      InfiniteOver(maxD.Value());
    } else {
      NatCmp(d2.Value(), maxD.Value(), d, m, 0);
    }
    var c, isNull := lib.Cmp(d2, maxD);
    over := c == 1;
  }

  /** n - q * d, which is what is left of n. */
  method MinusTimes(lib: Library, n: BigNumber, q: BigNumber, d: BigNumber, ghost i: int, ghost w: int, ghost j: int,
          ghost k: nat)
    returns (r: BigNumber)
    requires lib.Ready() && lib.Config() == Truncating(lib.minExp)
    requires IsNat(n.Value(), i, k) && IsNat(q.Value(), w, 0) && IsNat(d.Value(), j, k)
    requires 0 <= w * j <= i && !Below(w * j, lib.minExp, k) && !Below(i - w * j, lib.minExp, k)
    ensures fresh(r) && IsNat(r.Value(), i - w * j, k)
  {
    hide Val, Pow, Below, Arithmetic.Times, Arithmetic.Minus, PlusFails, At, NormalDigits;
    RoundRest(q.Value(), n.Value(), d.Value(), w, i, j, k, lib.minExp);
    var t := lib.Times(q, d);
    r := lib.Minus(n, t);
  }

  lemma RoundNum(q: Number, n0: Number, n1: Number, w: int, a0: int, a1: int, lo: int)
    requires IsNat(q, w, 0) && IsNat(n0, a0, 0) && IsNat(n1, a1, 0) && lo < 0
    ensures var t := Times(q, n1, Truncating(lo));
            && Valid(t) && !PlusFails(n0, t, Unlimited)
            && IsNat(Plus(n0, t, lo), a0 + w * a1, 0)
            && Valid(n0) && Valid(n1)
  {
    hide Val, Pow, Below, Times, Plus, PlusFails, At, NormalDigits;
    var g := Truncating(lo);
    WholeNotBelow(w * a1, lo);
    NatTimes(q, n1, w, a1, 0, g);
    NatPlus(n0, Times(q, n1, g), a0, w * a1, lo);
  }

  lemma RoundRest(q: Number, n: Number, d: Number, w: int, N: int, D: int, k: nat, lo: int)
    requires IsNat(q, w, 0) && IsNat(n, N, k) && IsNat(d, D, k) && lo < 0
    requires 0 <= w * D <= N && !Below(w * D, lo, k) && !Below(N - w * D, lo, k)
    ensures var t := Times(q, d, Truncating(lo));
            && Valid(t) && !PlusFails(n, Negate(t), Unlimited)
            && IsNat(Minus(n, t, lo), N - w * D, k)
            && Valid(n) && Valid(d)
  {
    hide Val, Pow, Below, Times, Minus, PlusFails, At, NormalDigits;
    var g := Truncating(lo);
    NatTimes(q, d, w, D, k, g);
    NatMinus(n, Times(q, d, g), N, w * D, k, lo);
  }

  /** In the first round the next denominator is 1. */
  lemma FirstRound(x: Number, N: int, D: int, a0: int, a1: int, b0: int, b1: int, w: int)
    requires Loop(x, N, D, a0, a1, b0, b1, true)
    ensures b0 + w * b1 == 1
  {
    hide Val, Pow, Num, Den, Base;
    MulZero(w, b1);
  }

  /** Nothing is left: the division by zero ends the loop. */
  lemma LastRound(x: Number, n: Number, d: Number, d1: Number,
                  N: int, D: int, a0: int, a1: int, b0: int, b1: int, first: bool, k: nat, lo: int)
    requires Valid(x) && Finite(x) && k == Base(x) && D == 0
    requires Loop(x, N, D, a0, a1, b0, b1, first)
    requires IsNat(n, N, k) && IsNat(d, D, k) && IsNat(d1, b1, 0)
    ensures Valid(n) && Valid(d) && Div(n, d, Truncating(lo)) == Infinity(1)
    ensures !first && b1 > 0
  {
    hide Val, Pow, Num, Den, Base, NormalDigits;
    NatMag(n, N, k);
    NatMag(d, D, k);
    assert !first by { DenPositive(x); }
  }

  lemma DenPositive(x: Number)
    ensures Den(x) > 0
  {
  }

  /** The distance of n / d from x, as the source computes it. */
  method DistanceOf(lib: Library, n: BigNumber, d: BigNumber, x: BigNumber) returns (r: BigNumber)
    requires lib.Ready() && lib.maxExp == Unlimited
    requires Valid(n.Value()) && Valid(d.Value()) && Valid(x.Value()) && Finite(x.Value())
    requires Valid(Arithmetic.Div(n.Value(), d.Value(), lib.Config())) &&
      Finite(Arithmetic.Div(n.Value(), d.Value(), lib.Config()))
    ensures r.Value() == Distance(Arithmetic.Div(n.Value(), d.Value(), lib.Config()), x.Value(), lib.minExp)
  {
    hide Val, Pow, Arithmetic.Div, Arithmetic.Minus, NormalDigits;
    var q := lib.Div(n, d);
    var m := lib.Minus(q, x);
    r := new BigNumber.Copy(m);
    if r.s < 0 {
      r.s := 1;
    }
  }

  /**
   Whether the last convergent is at least as near to x as the other fraction, by
   the source's own rounded arithmetic.
   */
  method LastIsNearer(lib: Library, n1: BigNumber, d1: BigNumber, n0: BigNumber, d0: BigNumber, x: BigNumber)
    returns (yes: bool)
    requires lib.Ready() && lib.maxExp == Unlimited
    requires Valid(n1.Value()) && Valid(d1.Value()) && Valid(n0.Value()) && Valid(d0.Value())
    requires Valid(x.Value()) && Finite(x.Value()) && Finite(n1.Value()) && Nonzero(d1.Value()) &&
      Finite(n0.Value()) && Nonzero(d0.Value())
    ensures var g := lib.Config();
            var a, b := Arithmetic.Div(n1.Value(), d1.Value(), g), Arithmetic.Div(n0.Value(), d0.Value(), g);
            yes <==> Chosen(a, b, x.Value(), lib.minExp)
  {
    hide Val, Pow, Arithmetic.Div, Arithmetic.Cmp, Distance, NormalDigits;
    QuotientsFinite(n1.Value(), d1.Value(), lib.Config());
    QuotientsFinite(n0.Value(), d0.Value(), lib.Config());
    DistanceFinite(Arithmetic.Div(n1.Value(), d1.Value(), lib.Config()), x.Value(), lib.minExp);
    DistanceFinite(Arithmetic.Div(n0.Value(), d0.Value(), lib.Config()), x.Value(), lib.minExp);
    var a := DistanceOf(lib, n1, d1, x);
    var b := DistanceOf(lib, n0, d0, x);
    var c, isNull := lib.Cmp(a, b);
    yes := c < 1;
  }

  lemma QuotientsFinite(n: Number, d: Number, g: Settings)
    requires Valid(n) && Valid(d) && Finite(n) && Nonzero(d) && g.hi == Unlimited
    ensures Valid(Div(n, d, g)) && Finite(Div(n, d, g))
  {
    hide Val, Pow, QuotUnits;
    DivValid(n, d, g);
    if Nonzero(n) { QuotientFinite(n, d, g.dp, g.mode); }
  }

  /**
   What `toFraction` gives: a numerator and a denominator as text, the text of an
   infinity or NaN, or an error thrown.
   */
  datatype Fraction = Pair(n: Text, d: Text) | NotFinite(text: Text) | Thrown

  /** An acceptable maximum denominator: an integer, at least 1 and finite. */
  predicate GoodMax(m: Number)
  {
    Nonzero(m) && m.s == 1 && Places(m) <= 0
  }

  lemma GoodMaxIff(m: Number)
    requires Valid(m)
    ensures GoodMax(m) <==> exists n: int :: n >= 1 && Is(m, n, 0)
  {
    hide Val, Pow, Mag, NormalDigits;
    if GoodMax(m) {
      Signed(m, 0);
      assert Is(m, At(m, 0), 0);
    } else if n: int :| n >= 1 && Is(m, n, 0) {
      Signed(m, 0);
    }
  }

  /** The limit on the denominator that counts: no more than it takes to write x exactly. */
  function Bound(x: Number, maxD: Option<Number>): (m: nat)
    requires maxD.Some? ==> Valid(maxD.value) && GoodMax(maxD.value)
    ensures m <= Den(x) && (maxD.None? ==> m == Den(x))
    ensures maxD.Some? ==> m <= MagOf(maxD.value, 0) && (m == Den(x) || m == MagOf(maxD.value, 0))
  {
    if maxD.Some? then
      MagPositive(maxD.value, 0);
      if MagOf(maxD.value, 0) < Den(x) then MagOf(maxD.value, 0) else Den(x)
    else Den(x)
  }

  /** The settings under which the source compares distances: twice the places of x, exponents without limit. */
  function Comparing(x: Number, g: Settings): Settings
  {
    g.(dp := 2 * Places(x), hi := Unlimited)
  }

  /** The quotient p / q as the source computes it, with the sign of x. */
  function QuotientOf(x: Number, p: nat, q: nat, g: Settings): Number
    requires Valid(x) && Finite(x)
  {
    WholeValid(x.s, p);
    WholeValid(1, q);
    Div(Exact(x.s, p, 0), Exact(1, q, 0), Comparing(x, g))
  }

  lemma WholeValid(s: int, n: nat)
    requires s == 1 || s == -1
    ensures Valid(Exact(s, n, 0))
  {
    hide Exact;
    ExactMeaning(s, n, 0);
  }

  /** The two candidates for |x|: the last convergent, and the other fraction. */
  function CandidatesOf(x: Number, m: nat): (nat, nat, nat, nat)
    requires Valid(x) && Finite(x)
  {
    MagPositive(x, Max(0, Places(x)));
    Candidates(Num(x), Den(x), m)
  }

  /** The last convergent is returned: by the source's own rounded arithmetic the other fraction is not nearer. */
  ghost predicate TakesLast(x: Number, m: nat, g: Settings)
    requires Valid(x) && Finite(x)
  {
    var (n1, d1, n0, d0) := CandidatesOf(x, m);
    Chosen(QuotientOf(x, n1, d1, g), QuotientOf(x, n0, d0, g), x, g.lo)
  }

  /** The fraction that `toFraction` returns for |x|, with denominators up to `m`. */
  ghost function Picked(x: Number, m: nat, g: Settings): (nat, nat)
    requires Valid(x) && Finite(x)
  {
    var (n1, d1, n0, d0) := CandidatesOf(x, m);
    if TakesLast(x, m, g) then (n1, d1) else (n0, d0)
  }

  /** A fraction as the source writes it. */
  function FractionText(x: Number, f: (nat, nat), neg: int, pos: int): Fraction
  {
    Pair(TextOf(Exact(x.s, f.0, 0), neg, pos), TextOf(Exact(1, f.1, 0), neg, pos))
  }

  // ----- what the choice means

  lemma NumDen(x: Number)
    requires Valid(x) && Finite(x)
    ensures Num(x) >= 0 && Den(x) > 0
    ensures Places(x) < 0 ==> Den(x) == 1 && Num(x) == MagOf(x, 0) > 0
    ensures Places(x) >= 0 ==> Num(x) == Val(x.c, 10) && Den(x) == Pow10(Places(x))
    ensures Num(x) > 0 ==> Nonzero(x)
  {
    hide Val, Pow;
    PowStep(10, 0);
    MagPositive(x, Max(0, Places(x)));
    if Places(x) >= 0 {
      MagUnfold(x, Places(x));
      Unit(Val(x.c, 10));
    }
  }

  lemma ExactNat(s: int, p: nat)
    requires s == 1 || s == -1
    ensures Exact(s, p, 0).s == s && IsNat(Exact(s, p, 0).(s := 1), p, 0)
  {
    hide Val, Pow, DigitsOf, Strip;
    ExactSigned(1, p, 0);
  }

  /** An integer has one candidate besides itself. */
  lemma WholeCandidates(v: nat)
    ensures Candidates(v, 1, 1) == (v, 1, v + 1, 1)
  {
    var w := v / 1;
    assert w == v && v % 1 == 0;
    ExpansionStep(1, v, 1, 0, 1, 1, 0);
    ExpansionEnd(1, 1, 1, v, 0, 1);
  }

  /** A last convergent that is x itself is chosen. */
  lemma LastChosen(x: Number, m: nat, g: Settings)
    requires Valid(x) && Finite(x) && x.e >= g.lo && g.lo < 0 && 1 <= m <= Den(x)
    requires var (n1, d1, n0, d0) := CandidatesOf(x, m); n1 * Den(x) == d1 * Num(x)
    ensures TakesLast(x, m, g)
  {
    hide Val, Pow, Chosen, Div, At, Exact, Num, Den, Candidates, Nearest, Coprime;
    NumDen(x);
    CandidatesMeaning(Num(x), Den(x), m);
    var (n1, d1, n0, d0) := CandidatesOf(x, m);
    var h, o, r := Comparing(x, g), Exact(x.s, n0, 0), Exact(1, d0, 0);
    ExactNat(x.s, n1); ExactNat(x.s, n0); ExactNat(1, d1); ExactNat(1, d0);
    if Places(x) >= 0 {
      NatMag(r, d0, 0);
      ExactMeaning(x.s, n0, 0);
      ExactMeaning(1, d0, 0);
      QuotientsFinite(o, r, h);
      Commute(d1, Num(x));
      ExactRatio(x, Exact(x.s, n1, 0), Exact(1, d1, 0), n1, d1, h.dp, h);
      ExactChosen(x, Div(o, r, h), g.lo);
    } else {
      WholeCandidates(Num(x));
      ExactOne(1, 0);
      IntegerChosen(x, Exact(x.s, n1, 0), o, n1, h);
    }
  }

  /** i / k and X / Y are the same number. */
  ghost predicate Same(X: int, Y: int, i: int, k: int)
  {
    i * Y == X * k
  }

  /**
   What is returned is a fraction within the limit and in lowest terms, and no
   fraction within the limit is nearer to x on its side. So it is x itself if any
   fraction within the limit is: always, without a limit.
   */
  lemma PickedMeaning(x: Number, m: nat, g: Settings)
    requires Valid(x) && Finite(x) && x.e >= g.lo && g.lo < 0 && 1 <= m <= Den(x)
    ensures var (p, q) := Picked(x, m, g);
            && 1 <= q <= m && Coprime(p, q)
            && Nearest(Num(x), Den(x), p, q, m)
            && ((exists i, k :: 1 <= k <= m && Same(Num(x), Den(x), i, k)) ==> Same(Num(x), Den(x), p, q))
  {
    hide Val, Pow, Num, Den, Nearest, Coprime, Candidates, TakesLast;
    NumDen(x);
    CandidatesMeaning(Num(x), Den(x), m);
    var (n1, d1, n0, d0) := CandidatesOf(x, m);
    if n1 * Den(x) == d1 * Num(x) {
      LastChosen(x, m, g);
    }
    var (p, q) := Picked(x, m, g);
    forall i, k | 1 <= k <= m && Same(Num(x), Den(x), i, k) ensures Same(Num(x), Den(x), p, q) {
      NearestExact(Num(x), Den(x), p, q, m, i, k);
    }
  }

  /** A text that the constructor reads as this integer. */
  ghost predicate ReadsAs(t: Text, v: int)
  {
    match ReadText(t, Truncating(-1))
    case Some(r) => Is(r, v, 0)
    case None => false
  }

  /** N / D approximates x with denominators up to `m`. */
  ghost predicate Approximates(x: Number, m: nat, N: int, D: int)
  {
    && 1 <= D <= m && Coprime(Abs(N), D) && (N == 0 || Sign(N) == x.s)
    && Nearest(Num(x), Den(x), Abs(N), D, m)
    && ((exists i, k :: 1 <= k <= m && Same(Num(x), Den(x), i, k)) ==> N * Den(x) == x.s * Num(x) * D)
  }

  /** The two texts, numerator first, read back: an approximation of x, and x itself without a maximum. */
  ghost predicate IsFraction(frac: Fraction, x: Number, m: nat)
  {
    && frac.Pair?
    && exists N: int, D: int {:trigger Approximates(x, m, N, D)} ::
         && ReadsAs(frac.n, N) && ReadsAs(frac.d, D) && Approximates(x, m, N, D)
         && (m == Den(x) ==> N * Den(x) == x.s * Num(x) * D)
  }

  lemma ReadsWhole(s: int, p: nat, neg: int, pos: int)
    requires s == 1 || s == -1
    ensures ReadsAs(TextOf(Exact(s, p, 0), neg, pos), s * p)
  {
    hide Val, Pow, Exact, TextOf, ReadText, Mag, Is;
    var v, g := Exact(s, p, 0), Truncating(-1);
    ExactSigned(s, p, 0);
    Signs(s, p);
    if p > 0 {
      ExponentMeaning(s, p, 0);
    } else {
      ExactZero(s, 0);
      NatZero(0);
    }
    ExactMeaning(s, p, 0);
    RoundTrip(v, neg, pos, g);
  }

  lemma SameSigned(s: int, X: nat, Y: nat, p: nat, q: nat)
    requires (s == 1 || s == -1) && Same(X, Y, p, q)
    ensures s * p * Y == s * X * q && Abs(s * p) == p && (s * p == 0 || Sign(s * p) == s)
  {
    MulAssoc3(s, p, Y);
    MulAssoc3(s, X, q);
    Signs(s, p);
  }

  /** What the fraction returned says when it is read. */
  lemma FractionMeaning(x: Number, m: nat, g: Settings, neg: int, pos: int)
    requires Valid(x) && Finite(x) && x.e >= g.lo && g.lo < 0 && 1 <= m <= Den(x)
    ensures IsFraction(FractionText(x, Picked(x, m, g), neg, pos), x, m)
  {
    hide Val, Pow, Num, Den, Nearest, Coprime, Picked, ReadsAs, Exact, TextOf, Same;
    PickedMeaning(x, m, g);
    NumDen(x);
    var (p, q) := Picked(x, m, g);
    var N, D := x.s * p, 1 * q;
    ReadsWhole(x.s, p, neg, pos);
    ReadsWhole(1, q, neg, pos);
    Signs(x.s, p);
    if Same(Num(x), Den(x), p, q) { SameSigned(x.s, Num(x), Den(x), p, q); }
    if m == Den(x) { assert Same(Num(x), Den(x), Num(x), m) by { SameSelf(Num(x), m); } }
    assert Approximates(x, m, N, D);
  }

  lemma SameSelf(X: int, Y: int)
    ensures Same(X, Y, X, Y)
  {
  }

  /** The quotient the source compares, in units of 10^-2e, if it is zero or at least 10^lo. */
  lemma QuotientIs(x: Number, p: nat, q: nat, g: Settings)
    requires Valid(x) && Finite(x) && Places(x) >= 0 && q > 0 && g.lo < 0 && (p == 0 || q <= p * Pow10(0 - g.lo))
    ensures Is(QuotientOf(x, p, q, g), x.s * InUnits(g.mode, x.s < 0, Den(x), p, q), 2 * Places(x))
  {
    hide Val, Pow, Exact, Mag, RoundMag, Div, Below, At;
    var k, U := 2 * Places(x), Den(x) * Den(x);
    PowAdd(10, Places(x), Places(x));
    NumDen(x);
    hide Den;
    if p == 0 {
      ZeroQuotient(x, q, g);
      ExactSigned(x.s, 0, k);
      ExactZero(x.s, k);
      RoundZero(g.mode, x.s < 0, q);
      assert p * U == 0;
    } else {
      WholeQuotients(x, p, q, g);
    }
  }

  lemma ZeroQuotient(x: Number, q: nat, g: Settings)
    requires Valid(x) && Finite(x) && q > 0
    ensures QuotientOf(x, 0, q, g) == Zero(x.s)
  {
    hide Val, Pow, DigitsOf, Strip;
    ExactNat(1, q);
    NatMag(Exact(1, q, 0), q, 0);
    ExactZero(x.s, 0);
  }

  lemma WholeQuotients(x: Number, p: nat, q: nat, g: Settings)
    requires Valid(x) && Finite(x) && Places(x) >= 0 && p > 0 && q > 0 && g.lo < 0 && q <= p * Pow10(0 - g.lo)
    ensures p * Pow10(2 * Places(x)) >= 0
    ensures Is(QuotientOf(x, p, q, g), x.s * RoundMag(g.mode, x.s < 0, p * Pow10(2 * Places(x)), q), 2 * Places(x))
  {
    hide Val, Pow, Exact, QuotUnits, Mag, RoundMag, Div, Below, At, Is, NormalDigits;
    var k, a, b := 2 * Places(x), Exact(x.s, p, 0), Exact(1, q, 0);
    ExactMeaning(x.s, p, 0);
    ExactMeaning(1, q, 0);
    RatioAt(a, b, k, g.mode, 0);
    PowStep(10, 0);
    Unit(q);
    DivMeaning(a, b, Comparing(x, g), 0);
    UnitsNotBelow(g.mode, x.s < 0, p, q, k, g.lo);
    SignsBelow(x.s, QuotUnits(a, b, k, g.mode), g.lo, k);
  }

  lemma UnitsNotBelow(mode: Mode, neg: bool, p: nat, q: nat, k: nat, lo: int)
    requires q > 0 && lo < 0 && q <= p * Pow10(0 - lo)
    ensures p * Pow10(k) >= 0 && !Below(RoundMag(mode, neg, p * Pow10(k), q), lo, k)
  {
    hide Pow, RoundMag;
    MulMono(0, p, Pow10(k));
    if lo + k >= 0 {
      var T, W := Pow10(lo + k), Pow10(0 - lo);
      PowAdd(10, lo + k, 0 - lo);
      MulMono(q, p * W, T);
      assert (p * W) * T == p * (T * W) by { MulAssoc3(p, W, T); Commute(W, T); }
      Commute(q, T);
      MulMono(1, q, p * Pow10(k));
      RoundBetween(mode, neg, p * Pow10(k), q, T, p * Pow10(k));
    }
  }

  lemma SignsBelow(s: int, n: nat, lo: int, k: int)
    requires s == 1 || s == -1
    ensures Below(s * n, lo, k) <==> Below(n, lo, k)
  {
    hide Pow;
    Signs(s, n);
  }

  lemma RoundZero(mode: Mode, neg: bool, d: nat)
    requires d > 0
    ensures RoundMag(mode, neg, 0, d) == 0
  {
    DivModUnique(0, d, 0);
  }

  lemma InRangeNotBelow(x: Number, k: nat, lo: int)
    requires Valid(x) && Nonzero(x) && k >= Places(x) && x.e >= lo
    ensures !Below(MagOf(x, k), lo, k)
  {
    hide Val, Pow, Mag;
    MagBound(x.c, x.e, k);
    if lo + k >= 0 { PowMono(10, lo + k, x.e + k); }
  }

  /** The distance of such a quotient from x, in the same units. */
  lemma DistanceUnits(x: Number, a: Number, m: nat, lo: int)
    requires Valid(x) && Nonzero(x) && Places(x) >= 0 && x.e >= lo
    requires Is(a, x.s * m, 2 * Places(x))
    ensures IsNat(Distance(a, x, lo), Felt(Abs(m - Num(x) * Den(x)), lo, 2 * Places(x)), 2 * Places(x))
  {
    hide Val, Pow, Mag, Distance, Felt, At, Below;
    var k := 2 * Places(x);
    Signed(x, k);
    Signed(a, k);
    MagShift(x.c, x.e, Places(x), Places(x));
    Signs(x.s, m);
    if m == 0 {
      InRangeNotBelow(x, k, lo);
      AbsBelow(At(a, k) - At(x, k), lo, k);
    }
    DistanceMeaning(a, x, lo, k);
  }

  /** The distance of p / q from |x| as the source has it: rounded, and zero if it underflows. */
  ghost function FeltError(x: Number, p: nat, q: nat, g: Settings): nat
    requires q > 0
  {
    Felt(RoundedError(g.mode, x.s < 0, Num(x), Den(x), p, q), g.lo, 2 * Places(x))
  }

  /** These are what the source compares. */
  lemma ChosenIf(x: Number, p: nat, q: nat, o: nat, r: nat, g: Settings)
    requires Valid(x) && Nonzero(x) && Places(x) >= 0 && x.e >= g.lo && q > 0 && r > 0 && g.lo < 0
    requires (p == 0 || q <= p * Pow10(0 - g.lo)) && (o == 0 || r <= o * Pow10(0 - g.lo))
    ensures Chosen(QuotientOf(x, p, q, g), QuotientOf(x, o, r, g), x, g.lo) <==>
            FeltError(x, p, q, g) <= FeltError(x, o, r, g)
  {
    hide Val, Pow, Distance, QuotientOf, Num, Den, Cmp, At, InUnits, Mag, Felt;
    NumDen(x);
    var a, b := QuotientOf(x, p, q, g), QuotientOf(x, o, r, g);
    var i, j := InUnits(g.mode, x.s < 0, Den(x), p, q), InUnits(g.mode, x.s < 0, Den(x), o, r);
    QuotientIs(x, p, q, g);
    QuotientIs(x, o, r, g);
    DistanceUnits(x, a, i, g.lo);
    DistanceUnits(x, b, j, g.lo);
    NatCmp(Distance(a, x, g.lo), Distance(b, x, g.lo), FeltError(x, p, q, g), FeltError(x, o, r, g), 2 * Places(x));
  }

  lemma FeltMono(d: nat, e: nat, lo: int, k: int)
    requires d <= e
    ensures Felt(d, lo, k) <= Felt(e, lo, k)
  {
    hide Pow;
  }

  /** A number in range is at least 10^lo. */
  lemma AtLeast(x: Number, lo: int)
    requires Valid(x) && Nonzero(x) && Places(x) >= 0 && x.e >= lo && lo < 0
    ensures Den(x) <= Num(x) * Pow10(0 - lo)
  {
    hide Val, Pow, Mag;
    var P, W := Places(x), Pow10(0 - lo);
    MagBound(x.c, x.e, P);
    PowAdd(10, x.e + P, 0 - lo);
    MulMono(Pow10(x.e + P), MagOf(x, P), W);
    PowMono(10, P, x.e + P - lo);
  }

  /** A fraction that is X / Y stays it when rounded. */
  lemma NoError(mode: Mode, neg: bool, X: nat, Y: nat, p: nat, q: nat, o: nat, r: nat)
    requires q > 0 && r > 0 && p * Y == q * X
    ensures RoundedError(mode, neg, X, Y, p, q) == 0 && NoFarther(X, Y, p, q, o, r)
  {
    hide RoundMag;
    Commute(q, X);
    UnitsAndError(X, Y, p, q, 0);
    MulMono(0, X, Y);
    WholeRound(mode, neg, X * Y, q);
    MulMono(0, Error(X, Y, o, r), q);
  }

  /**
   Which fraction is returned, exactly: the last convergent if it is not the farther
   one, or if the distances come out equal in the source's arithmetic. So the farther
   of the two candidates is returned just when the distances come out equal and it is
   the last convergent.
   */
  lemma PickedExactly(x: Number, m: nat, g: Settings)
    requires Valid(x) && Finite(x) && x.e >= g.lo && g.lo < 0 && 1 <= m <= Den(x)
    ensures var (n1, d1, n0, d0) := CandidatesOf(x, m);
            && d1 > 0 && d0 > 0
            && var last := NoFarther(Num(x), Den(x), n1, d1, n0, d0);
               var tie := FeltError(x, n1, d1, g) == FeltError(x, n0, d0, g);
               && (TakesLast(x, m, g) <==> last || tie)
               && var (p, q) := Picked(x, m, g);
                  var (o, r) := if (p, q) == (n1, d1) then (n0, d0) else (n1, d1);
                  !NoFarther(Num(x), Den(x), p, q, o, r) <==> !last && tie
  {
    hide Val, Pow, Num, Den, Nearest, Coprime, Candidates, Chosen, QuotientOf, RoundedError, Felt;
    NumDen(x);
    CandidatesMeaning(Num(x), Den(x), m);
    var (n1, d1, n0, d0) := CandidatesOf(x, m);
    var X, Y, k := Num(x), Den(x), 2 * Places(x);
    if n1 * Y == d1 * X {
      LastChosen(x, m, g);
      NoError(g.mode, x.s < 0, X, Y, n1, d1, n0, d0);
    } else {
      assert Places(x) >= 0 by { if Places(x) < 0 { WholeCandidates(X); } }
      BetweenPositive(X, Y, n1, d1, n0, d0);
      AtLeast(x, g.lo);
      NotTooSmall(X, Y, n1, d1, m, Pow10(0 - g.lo));
      NotTooSmall(X, Y, n0, d0, m, Pow10(0 - g.lo));
      ChosenIf(x, n1, d1, n0, d0, g);
      NearerStays(g.mode, x.s < 0, X, Y, n1, d1, n0, d0);
      var d, e := RoundedError(g.mode, x.s < 0, X, Y, n1, d1), RoundedError(g.mode, x.s < 0, X, Y, n0, d0);
      if d <= e { FeltMono(d, e, g.lo, k); } else { FeltMono(e, d, g.lo, k); }
    }
  }

  /** The maximum denominator the loop works with; null if the argument makes the source throw. */
  method Limit(lib: Library, ghost x: Number, e: int, d: BigNumber, n1: BigNumber, maxD: BigNumber?)
    returns (m: BigNumber?, ghost bound: nat)
    requires Valid(x) && Finite(x) && e == Places(x)
    requires d.Value() == Number(1, e, [1]) && n1.Value() == ONE
    requires maxD != null ==> Valid(maxD.Value())
    ensures m == null <==> maxD != null && !GoodMax(maxD.Value())
    ensures m != null ==>
              bound == Bound(x, if maxD == null then None else Some(maxD.Value())) >= 1 && IsNat(m.Value(), bound, 0)
  {
    hide Val, Pow, Arithmetic.Cmp, At;
    DefaultLimit(x);
    if maxD != null {
      var n := new BigNumber.Copy(maxD);
      if n.s == 0 {
        return null, 0;
      }
      GivenLimit(x, n.Value());
      var c, isNull := lib.Cmp(n, n1);
      if c < 0 || n.c == [] || n.e < |n.c| - 1 {
        return null, 0;
      }
      c, isNull := lib.Cmp(n, d);
      if c <= 0 {
        return n, MagOf(n.Value(), 0);
      }
    }
    m := if e > 0 then d else n1;
    bound := Den(x);
  }

  lemma DefaultLimit(x: Number)
    requires Valid(x) && Finite(x)
    ensures Valid(ONE) && Valid(Number(1, Places(x), [1])) && Den(x) >= 1 && (Places(x) < 0 ==> Den(x) == 1)
    ensures IsNat(if Places(x) > 0 then Number(1, Places(x), [1]) else ONE, Den(x), 0)
  {
    hide Val, Pow;
    NatOne();
    PowStep(10, 0);
    PowerOfTen(Max(0, Places(x)), 0);
  }

  /**
   A number that is at least 1, finite and without decimals is an acceptable limit,
   and is compared with 10^Places(x).
   */
  lemma GivenLimit(x: Number, m: Number)
    requires Valid(x) && Finite(x) && Valid(m) && m.s != 0
    ensures var d := Number(1, Places(x), [1]);
            && Valid(ONE) && Valid(d)
            && (GoodMax(m) <==> !(Cmp(m, ONE) < 0 || m.c == [] || m.e < |m.c| - 1))
            && (GoodMax(m) ==> IsNat(m, MagOf(m, 0), 0) && MagOf(m, 0) >= 1 &&
                               (Cmp(m, d) <= 0 <==> Places(x) >= 0 && MagOf(m, 0) <= Den(x)))
  {
    hide Val, Pow, Cmp, At;
    NatOne();
    PowerOfTen(Places(x), Max(0, -Places(x)));
    if m.c != [] {
      var k := Max(0, Places(m));
      AboveOne(m, k);
    } else {
      InfiniteLimit(m);
    }
    if GoodMax(m) {
      Signed(m, 0);
      LimitAgainstTen(x, m);
    }
  }

  lemma InfiniteLimit(m: Number)
    requires Valid(m) && m.c == [] && m.s != 0
    ensures Valid(ONE) && !GoodMax(m)
  {
  }

  lemma AboveOne(m: Number, k: nat)
    requires Valid(m) && Finite(m) && k >= Places(m)
    ensures Valid(ONE) && (Cmp(m, ONE) >= 0 ==> m.s == 1 && Nonzero(m))
    ensures m.s == 1 && Nonzero(m) && Places(m) <= 0 ==> Cmp(m, ONE) >= 0
  {
    hide Val, Pow, Cmp;
    NatOne();
    Signed(m, k);
    AtShift(ONE, 0, k);
    CmpMeaning(m, ONE, k);
    CmpRange(m, ONE);
    if Places(m) <= 0 {
      Signed(m, 0);
      CmpMeaning(m, ONE, 0);
    }
  }

  lemma LimitAgainstTen(x: Number, m: Number)
    requires Valid(x) && Finite(x) && Valid(m) && GoodMax(m)
    ensures var d := Number(1, Places(x), [1]);
            Valid(d) && (Cmp(m, d) <= 0 <==> Places(x) >= 0 && MagOf(m, 0) <= Den(x))
  {
    hide Val, Pow, Cmp, Mag;
    var d, k := Number(1, Places(x), [1]), Max(0, -Places(x));
    PowerOfTen(Places(x), k);
    Signed(m, k);
    CmpMeaning(m, d, k);
    CmpRange(m, d);
    MagShift(m.c, m.e, 0, k);
    Signed(m, 0);
    PowStep(10, 0);
    if k > 0 {
      PowStep(10, k - 1);
      MulMono(1, MagOf(m, 0), Pow10(k));
    }
  }

  /**
   x as a fraction with denominators up to `maxD`: the text of the fraction picked.
   The settings are put back.
   */
  method ToFraction(lib: Library, x: BigNumber, maxD0: BigNumber?) returns (frac: Fraction)
    requires lib.Ready() && Valid(x.Value()) && (maxD0 != null ==> Valid(maxD0.Value()))
    modifies lib`decimalPlaces, lib`roundingMode, lib`maxExp
    ensures lib.Config() == old(lib.Config())
    ensures !Finite(x.Value()) ==> frac == NotFinite(TextOf(x.Value(), lib.toExpNeg, lib.toExpPos))
    ensures Finite(x.Value()) ==> (frac == Thrown <==> maxD0 != null && !GoodMax(maxD0.Value()))
    ensures Finite(x.Value()) && frac != Thrown ==>
              var m := Bound(x.Value(), if maxD0 == null then None else Some(maxD0.Value()));
              && 1 <= m <= Den(x.Value())
              && frac == FractionText(x.Value(), Picked(x.Value(), m, old(lib.Config())), lib.toExpNeg, lib.toExpPos)
              && (x.e >= lib.minExp ==> IsFraction(frac, x.Value(), m))
  {
    hide Val, Pow, Exact, TextOf, IsNat, GoodMax, Picked, ReadText, NormalDigits, Num, Den, Base, IsFraction;
    if x.c == [] {
      var text := ToText(lib, x);
      return NotFinite(text);
    }
    ghost var v := x.Value();
    var n1 := new BigNumber(ONE);
    var d := new BigNumber(ONE);
    var e := |x.c| - x.e - 1;
    d.e := e;
    var maxD;
    ghost var m;
    maxD, m := Limit(lib, v, e, d, n1, maxD0);
    if maxD == null {
      return Thrown;
    }
    frac := Reduced(lib, x, e, d, maxD, m);
    if x.e >= lib.minExp {
      FractionMeaning(v, m, lib.Config(), lib.toExpNeg, lib.toExpPos);
    }
  }

  /** From the loop to the choice, with the settings this takes, and the settings put back. */
  method Reduced(lib: Library, x: BigNumber, e: int, d: BigNumber, maxD: BigNumber, ghost m: nat)
    returns (frac: Fraction)
    requires lib.Ready() && Valid(x.Value()) && Finite(x.Value()) && e == Places(x.Value())
    requires d.Value() == Number(1, e, [1]) && 1 <= m <= Den(x.Value()) && IsNat(maxD.Value(), m, 0)
    modifies lib`decimalPlaces, lib`roundingMode, lib`maxExp
    ensures lib.Config() == old(lib.Config())
    ensures frac == FractionText(x.Value(), Picked(x.Value(), m, old(lib.Config())), lib.toExpNeg, lib.toExpPos)
  {
    hide Val, Pow, Exact, TextOf, IsNat, Picked, ReadText, NormalDigits, Num, Den, Base, Expansion;
    ghost var v := x.Value();
    var exp, dp, rm := lib.maxExp, lib.decimalPlaces, lib.roundingMode;
    lib.maxExp := Unlimited;
    ReadDigitsText(v, lib.Config());
    var n := FromText(lib, Spelled(x.c));
    lib.decimalPlaces, lib.roundingMode := 0, ROUND_DOWN;
    Start(v);
    var n0, n1, d0, d1;
    ghost var a0, a1, b0, b1;
    n0, n1, d0, d1, a0, a1, b0, b1 := Expand(lib, v, n, d, maxD, m);
    ExpandedBounds(v, m);
    ghost var j;
    n0, d0, j := LastFraction(lib, n0, n1, d0, d1, maxD, a0, a1, b0, b1, m);
    NatSign(n0.Value(), a0 + j * a1);
    NatSign(n1.Value(), a1);
    n0.s, n1.s := x.s, x.s;
    lib.decimalPlaces, lib.roundingMode := e * 2, rm;
    frac := Pick(lib, x, n1, d1, n0, d0, m);
    SamePick(v, m, lib.Config(), old(lib.Config()));
    lib.maxExp, lib.decimalPlaces := exp, dp;
  }

  lemma SamePick(x: Number, m: nat, g: Settings, g': Settings)
    requires Valid(x) && Finite(x) && Comparing(x, g) == Comparing(x, g')
    ensures Picked(x, m, g) == Picked(x, m, g')
  {
    hide Exact, Div, Chosen, Candidates;
    assert g.lo == Comparing(x, g).lo == g'.lo;
  }

  lemma NatSign(v: Number, a: int)
    requires IsNat(v, a, 0)
    ensures forall s {:trigger v.(s := s)} :: v.(s := s).(s := 1) == v
  {
  }

  lemma ExpandedBounds(x: Number, m: nat)
    requires Valid(x) && Finite(x) && m >= 1
    ensures Num(x) >= 0
    ensures var (a0, a1, b0, b1) := Expansion(m, Num(x), Den(x), 0, 1, 1, 0);
            && b0 <= m && 1 <= b1 <= m
            && var j := (m - b0) / b1;
               j >= 0 && j * a1 >= 0 && j * b1 >= 0 && CandidatesOf(x, m) == (a1, b1, a0 + j * a1, b0 + j * b1)
  {
    hide Val, Pow, Num, Den, Expansion, Stopped;
    NumDen(x);
    ExpansionMeaning(Num(x), Den(x), m, Num(x), Den(x), 0, 1, 1, 0);
    var (a0, a1, b0, b1) := Expansion(m, Num(x), Den(x), 0, 1, 1, 0);
    MulMono(0, (m - b0) / b1, a1);
    MulMono(0, (m - b0) / b1, b1);
  }

  /** The digits of a number on their own are read as an integer. */
  lemma ReadDigitsText(x: Number, g: Settings)
    requires Valid(x) && Finite(x) && g.hi == Unlimited && g.lo < 0
    ensures Val(x.c, 10) >= 0 && ReadText(Spelled(x.c), g) == Some(Exact(1, Val(x.c, 10), 0))
  {
    hide Val, Pow, Exact, ReadLiteral, Spell, Spelled, ScanFraction, ScanExponent, DigitRun, DigitsIn;
    var l := Literal(false, x.c, false, [], 0, 0, []);
    SpellPlain(x.c);
    ScanSpell([], l, []);
    assert [] + (Spell(l) + []) == Spelled(x.c);
    ReadPlain(x, g);
  }

  lemma SpellPlain(c: seq<int>)
    ensures Spell(Literal(false, c, false, [], 0, 0, [])) == Spelled(c)
  {
  }

  lemma ReadPlain(x: Number, g: Settings)
    requires Valid(x) && Finite(x) && g.hi == Unlimited && g.lo < 0
    ensures Val(x.c, 10) >= 0
    ensures ReadLiteral(Literal(false, x.c, false, [], 0, 0, []), g) == Exact(1, Val(x.c, 10), 0)
  {
    hide Val, Pow, Exact;
    ValBound(x.c, 10);
    assert x.c + [] == x.c;
    NoExponent(Literal(false, x.c, false, [], 0, 0, []));
    ExactZero(1, 0);
    if Val(x.c, 10) > 0 {
      ExactSigned(1, Val(x.c, 10), 0);
      ExponentMeaning(1, Val(x.c, 10), 0);
    }
  }

  /** One more fraction: the next-to-last convergent taken as far as the limit allows. */
  method LastFraction(lib: Library, nPrev: BigNumber, n1: BigNumber, dPrev: BigNumber, d1: BigNumber, maxD: BigNumber,
                      ghost a0: nat, ghost a1: nat, ghost b0: nat, ghost b1: nat, ghost m: nat)
    returns (n0: BigNumber, d0: BigNumber, ghost j: int)
    requires lib.Ready() && lib.Config() == Truncating(lib.minExp)
    requires b0 <= m && 1 <= b1 <= m
    requires IsNat(nPrev.Value(), a0, 0) && IsNat(n1.Value(), a1, 0) && IsNat(dPrev.Value(), b0, 0) &&
      IsNat(d1.Value(), b1, 0)
    requires IsNat(maxD.Value(), m, 0)
    ensures fresh(n0) && fresh(d0) && n0 != d0
    ensures j == (m - b0) / b1
    ensures IsNat(n0.Value(), a0 + j * a1, 0) && IsNat(d0.Value(), b0 + j * b1, 0)
  {
    hide Val, Pow, Arithmetic.Minus, Arithmetic.Div, At, NormalDigits, PlusFails;
    WholeNotBelow(m - b0, lib.minExp);
    NatMinus(maxD.Value(), dPrev.Value(), m, b0, 0, lib.minExp);
    var r := lib.Minus(maxD, dPrev);
    NatDiv(r.Value(), d1.Value(), m - b0, b1, 0, lib.minExp);
    var d2 := lib.Div(r, d1);
    j := (m - b0) / b1;
    NatFinite(d2.Value(), j, 0);
    n0 := PlusTimes(lib, nPrev, d2, n1, a0, j, a1);
    d0 := PlusTimes(lib, dPrev, d2, d1, b0, j, b1);
  }

  /** The choice between the two candidates. */
  method Pick(lib: Library, x: BigNumber, n1: BigNumber, d1: BigNumber, n0: BigNumber, d0: BigNumber, ghost m: nat)
    returns (frac: Fraction)
    requires lib.Ready() && lib.maxExp == Unlimited && Valid(x.Value()) && Finite(x.Value())
    requires lib.decimalPlaces == 2 * Places(x.Value()) && m >= 1
    requires n1.s == x.s && n0.s == x.s
    requires var (p, q, o, r) := CandidatesOf(x.Value(), m);
             && IsNat(n1.Value().(s := 1), p, 0) && IsNat(d1.Value(), q, 0)
             && IsNat(n0.Value().(s := 1), o, 0) && IsNat(d0.Value(), r, 0)
    ensures frac == FractionText(x.Value(), Picked(x.Value(), m, lib.Config()), lib.toExpNeg, lib.toExpPos)
  {
    hide Val, Pow, Exact, TextOf, At, NormalDigits, Arithmetic.Div, Chosen, Num, Den, Candidates, Nearest, Coprime;
    ghost var (p, q, o, r) := CandidatesOf(x.Value(), m);
    NumDen(x.Value());
    CandidatesMeaning(Num(x.Value()), Den(x.Value()), m);
    NatMag(d1.Value(), q, 0);
    NatMag(d0.Value(), r, 0);
    SignedNat(n1.Value(), p);
    SignedNat(n0.Value(), o);
    NatExact(d1.Value(), q);
    NatExact(d0.Value(), r);
    assert lib.Config() == Comparing(x.Value(), lib.Config());
    var last := LastIsNearer(lib, n1, d1, n0, d0, x);
    var n, d := if last then n1 else n0, if last then d1 else d0;
    var num := ToText(lib, n);
    var den := ToText(lib, d);
    frac := Pair(num, den);
  }

  lemma SignedNat(v: Number, a: int)
    requires IsNat(v.(s := 1), a, 0) && (v.s == 1 || v.s == -1)
    ensures Valid(v) && Finite(v) && v == Exact(v.s, a, 0)
  {
    hide Val, Pow, DigitsOf, Strip;
    NatExact(v.(s := 1), a);
  }

  // ----- an input whose farther candidate is returned

  /** 0.51 */
  const FIFTY_ONE := Number(1, -1, [5, 1])
  /** 99 */
  const NINETY_NINE := Number(1, 1, [9, 9])

  /**
   0.51 with the maximum 99, under the default settings: 26 / 51 is nearer, but both
   distances are rounded to 0.0002, and 25 / 49 is returned.
   */
  lemma TieExample()
    ensures var g := Settings(20, ROUND_HALF_UP, -1000000000, AtMost(1000000000));
            && Valid(FIFTY_ONE) && Finite(FIFTY_ONE) && Valid(NINETY_NINE) && GoodMax(NINETY_NINE)
            && Num(FIFTY_ONE) == 51 && Den(FIFTY_ONE) == 100 && Bound(FIFTY_ONE, Some(NINETY_NINE)) == 99
            && CandidatesOf(FIFTY_ONE, 99) == (25, 49, 26, 51) && Picked(FIFTY_ONE, 99, g) == (25, 49)
            && !NoFarther(51, 100, 25, 49, 26, 51)
  {
    hide Chosen, QuotientOf, Expansion, Candidates;
    Values();
    hide Val, Pow;
    ExpansionStep(99, 51, 100, 0, 1, 1, 0);
    ExpansionStep(99, 100, 51, 1, 0, 0, 1);
    ExpansionStep(99, 51, 49, 0, 1, 1, 1);
    ExpansionStep(99, 49, 2, 1, 1, 1, 2);
    ExpansionStep(99, 2, 1, 1, 25, 2, 49);
    CandidatesFrom(51, 100, 99, 1, 25, 2, 49);
    PickedExactly(FIFTY_ONE, 99, Settings(20, ROUND_HALF_UP, -1000000000, AtMost(1000000000)));
  }

  lemma CandidatesFrom(X: nat, Y: nat, m: nat, a0: nat, a1: nat, b0: nat, b1: nat)
    requires Expansion(m, X, Y, 0, 1, 1, 0) == (a0, a1, b0, b1) && b0 <= m && b1 > 0
    ensures var j := (m - b0) / b1;
            && j * a1 >= 0 && j * b1 >= 0
            && Candidates(X, Y, m) == (a1, b1, a0 + j * a1, b0 + j * b1)
  {
    MulMono(0, (m - b0) / b1, a1);
    MulMono(0, (m - b0) / b1, b1);
  }

  lemma Values()
    ensures Valid(FIFTY_ONE) && Finite(FIFTY_ONE) && Num(FIFTY_ONE) == 51 && Den(FIFTY_ONE) == 100
    ensures Valid(NINETY_NINE) && GoodMax(NINETY_NINE) && MagOf(NINETY_NINE, 0) == 99
  {
    PowStep(10, 0); PowStep(10, 1);
    ValStep([5, 1], 10); ValOne(5, 10);
    ValStep([9, 9], 10); ValOne(9, 10);
    assert [5, 1][..1] == [5] && [9, 9][..1] == [9];
  }
}
