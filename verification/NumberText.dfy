/**
 Reading numbers from text and writing them: the BigNumber constructor on decimal
 literals, and `toString` without a base.
 */
module NumberText {
  import opened Wrappers
  import opened Digits
  import opened Numbers
  import opened Arithmetic
  import opened Laws
  import opened Numerals
  import opened DigitLoops
  import opened Engine
  import opened Alignment

  function Ascii(s: string): Text
  {
    seq(|s|, i requires 0 <= i < |s| => s[i] as int)
  }

  // ----- what a literal denotes

  function ExponentOf(l: Literal): int
  {
    if l.sign == MINUS then -Val(l.ep, 10) else Val(l.ep, 10)
  }

  lemma DigitsNat(l: Literal)
    requires WellFormed(l)
    ensures InBase(l.ip + l.fp, 10) && Val(l.ip + l.fp, 10) >= 0
  {
    ValNat(l.ip + l.fp);
  }

  /**
   The number a literal denotes, brought into range. A zero is looked at only after
   its exponent: a zero written with a huge exponent comes out infinite.
   */
  function ReadLiteral(l: Literal, g: Settings): Number
    requires WellFormed(l)
  {
    DigitsNat(l);
    var s := if l.neg then -1 else 1;
    var v := Val(l.ip + l.fp, 10);
    if v == 0 then
      (if Over(ExponentOf(l) - |l.fp| - 1, g.hi) then Infinity(s) else Zero(s))
    else Clamp(Exact(s, v, |l.fp| - ExponentOf(l)), g)
  }

  /** The text as a decimal literal, if it is one. */
  function Numeral(t: Text): (r: Option<Literal>)
    ensures r.Some? ==> IsNumeral(r.value) && Spell(r.value) == t
  {
    var (l, j) := Scan(t, 0);
    ScanSound(t, 0);
    assert t[0..|t|] == t;
    if j == |t| && IsNumeral(l) then Some(l) else None
  }

  // ----- what the constructor tolerates around a number

  /** The white space and line terminators that `trim` takes off. */
  predicate IsSpace(u: int)
  {
    || 9 <= u <= 13 || u == 32 || u == 0xa0 || u == 0x1680 || 0x2000 <= u <= 0x200a
    || u == 0x2028 || u == 0x2029 || u == 0x202f || u == 0x205f || u == 0x3000 || u == 0xfeff
  }

  function Trim(t: Text): (r: Text)
    ensures |r| <= |t| && (r != [] ==> !IsSpace(r[0]) && !IsSpace(r[|r| - 1]))
  {
    if t == [] then []
    else if IsSpace(t[0]) then Trim(t[1..])
    else if IsSpace(t[|t| - 1]) then Trim(t[..|t| - 1])
    else t
  }

  /** A plus sign taken off, unless a minus sign follows. */
  function Unplussed(t: Text): Text
  {
    if t != [] && t[0] == PLUS && !(|t| > 1 && t[1] == MINUS) then t[1..] else t
  }

  /** A minus sign taken off, unless another one follows. */
  function Unminused(t: Text): Text
  {
    if t != [] && t[0] == MINUS && !(|t| > 1 && t[1] == MINUS) then t[1..] else t
  }

  function SignAt(t: Text): int
  {
    if t != [] && t[0] == MINUS then -1 else 1
  }

  /** The number a text is read as; nothing if it is neither a decimal literal nor the name of a special value. */
  function ReadText(t: Text, g: Settings): Option<Number>
  {
    match Numeral(t)
    case Some(l) => Some(ReadLiteral(l, g))
    case None =>
      var n := Unplussed(Trim(t));
      var m, s := Unminused(n), SignAt(n);
      match Numeral(m)
      case Some(l) => Some(ReadLiteral(l.(neg := s < 0), g))
      case None =>
        if m == Ascii("Infinity") then Some(Infinity(s)) else if m == Ascii("NaN") then Some(NAN) else None
  }

  /**
   What the constructor reads: the value of the literal, exactly, unless it is out of
   the range of exponents; and a zero unless the exponent it is written with is.
   */
  lemma ReadMeaning(l: Literal, g: Settings)
    requires IsNumeral(l)
    ensures var s, k := if l.neg then -1 else 1, |l.fp| - ExponentOf(l);
            var v, r := Val(l.ip + l.fp, 10), ReadLiteral(l, g);
            && v >= 0
            && if v == 0 then r == if Over(ExponentOf(l) - |l.fp| - 1, g.hi) then Infinity(s) else Zero(s)
               else if Beyond(v, g.hi, k) then r == Infinity(s)
               else if Below(v, g.lo, k) then r == Zero(s)
               else Is(r, s * v, k)
  {
    hide Val, Pow, Exact, ExponentOf, Below, Beyond;
    DigitsNat(l);
    var s, v, k := if l.neg then -1 else 1, Val(l.ip + l.fp, 10), |l.fp| - ExponentOf(l);
    if v > 0 {
      ExactMeaning(s, v, k);
      ExponentBeyond(s, v, k, g.hi);
      ExponentBelow(s, v, k, g.lo);
    }
  }

  /**
   An exponent moves the point: with zeros put behind the digits, or in front of
   them, the same number is written without it. The letter may be a capital, and a
   plus sign makes no difference.
   */
  lemma PointMoved(l: Literal, g: Settings)
    requires WellFormed(l) && l.e != 0 && Val(l.ip + l.fp, 10) != 0
    ensures Val(l.ep, 10) >= 0
    ensures var n, back := Val(l.ep, 10), l.sign == MINUS;
            var d := if back then Zeros(n) + (l.ip + l.fp) else l.ip + l.fp + Zeros(n);
            var i := if back then |l.ip| else |l.ip| + n;
            var m := Literal(l.neg, d[..i], true, d[i..], 0, 0, []);
            WellFormed(m) && ReadLiteral(l, g) == ReadLiteral(m, g)
  {
    hide Val, Pow, Exact, Clamp, ReadLiteral, InBase, ExponentOf;
    DigitsNat(l);
    assert InBase(l.ep, 10);
    ValBound(l.ep, 10);
    var n, back, v, s := Val(l.ep, 10), l.sign == MINUS, Val(l.ip + l.fp, 10), if l.neg then -1 else 1;
    var d := if back then Zeros(n) + (l.ip + l.fp) else l.ip + l.fp + Zeros(n);
    var i := if back then |l.ip| else |l.ip| + n;
    PaddedDigits(l.ip + l.fp, n);
    ReadNonzero(l, g);
    assert ExponentOf(l) == if back then -n else n by { SignedExponent(l); }
    if back {
      LeadingZeros(n, l.ip + l.fp, 10);
    } else {
      TrailingZeros(l.ip + l.fp, n, 10);
      MulMono(1, v, Pow10(n));
      ExactScale(s, v, |l.fp| - n, n);
    }
    SplitLiteral(l.neg, d, i, g);
  }

  lemma SignedExponent(l: Literal)
    ensures ExponentOf(l) == if l.sign == MINUS then -Val(l.ep, 10) else Val(l.ep, 10)
  {
  }

  lemma PaddedDigits(c: seq<int>, n: nat)
    requires InBase(c, 10)
    ensures InBase(Zeros(n) + c, 10) && InBase(c + Zeros(n), 10)
  {
  }

  lemma ReadNonzero(l: Literal, g: Settings)
    requires WellFormed(l) && Val(l.ip + l.fp, 10) != 0
    ensures Val(l.ip + l.fp, 10) > 0
    ensures ReadLiteral(l, g) ==
            Clamp(Exact(if l.neg then -1 else 1, Val(l.ip + l.fp, 10), |l.fp| - ExponentOf(l)), g)
  {
    hide Val, Exact, Clamp, ExponentOf;
    DigitsNat(l);
  }

  /** Digits with a point among them. */
  lemma SplitLiteral(neg: bool, d: seq<int>, i: nat, g: Settings)
    requires InBase(d, 10) && i <= |d| && Val(d, 10) != 0
    ensures var m := Literal(neg, d[..i], true, d[i..], 0, 0, []);
            && WellFormed(m) && Val(d, 10) > 0
            && ReadLiteral(m, g) == Clamp(Exact(if neg then -1 else 1, Val(d, 10), |d| - i), g)
  {
    hide *;
    var m := Literal(neg, d[..i], true, d[i..], 0, 0, []);
    SplitFormed(neg, d, i);
    NoExponent(m);
    ReadNonzero(m, g);
  }

  lemma SplitFormed(neg: bool, d: seq<int>, i: nat)
    requires InBase(d, 10) && i <= |d|
    ensures WellFormed(Literal(neg, d[..i], true, d[i..], 0, 0, []))
    ensures d[..i] + d[i..] == d && |d[i..]| == |d| - i
  {
  }

  /** A zero that is read as an infinity, with the settings that the library starts with. */
  lemma HugeZero()
    ensures ReadText(Ascii("0e2000000000"), Settings(20, 4, -1000000000, AtMost(1000000000))) == Some(Infinity(1))
  {
    var l := Literal(false, [0], false, [], SMALL_E, 0, [2] + Zeros(9));
    var g := Settings(20, 4, -1000000000, AtMost(1000000000));
    HugeZeroText(l);
    HugeZeroValue(l);
    hide Val, Spell, Numeral, ReadLiteral, ReadText, ExponentOf, Ascii, Is;
    NumeralSpell(l);
    ReadMeaning(l, g);
    assert ReadText(Spell(l), g) == Some(ReadLiteral(l, g)) by { ReadNumeral(Spell(l), g); }
  }

  lemma ReadNumeral(t: Text, g: Settings)
    requires Numeral(t).Some?
    ensures ReadText(t, g) == Some(ReadLiteral(Numeral(t).value, g))
  {
  }

  lemma HugeZeroText(l: Literal)
    requires l == Literal(false, [0], false, [], SMALL_E, 0, [2] + Zeros(9))
    ensures Spell(l) == Ascii("0e2000000000")
  {
    var d := [2] + Zeros(9);
    var t, u := "0e2000000000", Spelled([0]) + ([] + ([SMALL_E] + [] + Spelled(d)));
    assert SpellFraction(l) == [] && SpellExponent(l) == [SMALL_E] + [] + Spelled(d) && Spell(l) == [] + u;
    hide Spell, SpellExponent, SpellFraction;
    forall i | 0 <= i < 12 ensures u[i] == Ascii(t)[i] {
      if i >= 2 { assert u[i] == Spelled(d)[i - 2]; }
    }
    assert u == Ascii(t) && [] + u == u;
  }

  lemma HugeZeroValue(l: Literal)
    requires l == Literal(false, [0], false, [], SMALL_E, 0, [2] + Zeros(9))
    ensures IsNumeral(l) && ExponentOf(l) == 2000000000 && Val(l.ip + l.fp, 10) == 0 && l.fp == [] && !l.neg
  {
    TwoBillion();
    ValOne(0, 10);
    assert [0] + [] == [0];
  }

  lemma TwoBillion()
    ensures Val([2] + Zeros(9), 10) == 2000000000
  {
    TrailingZeros([2], 9, 10);
    ValOne(2, 10);
    PowAdd(10, 5, 4);
    assert Pow(10, 5) == 100000 && Pow(10, 4) == 10000;
  }

  lemma NumeralSpell(l: Literal)
    requires IsNumeral(l)
    ensures Numeral(Spell(l)) == Some(l)
  {
    hide Scan, Spell;
    ScanSpell([], l, []);
    assert [] + (Spell(l) + []) == Spell(l);
  }

  // ----- how a number is written

  function IntegerDigits(n: nat): (c: seq<int>)
    ensures InBase(c, 10) && c != [] && Val(c, 10) == n
  {
    if n == 0 then (ValOne(0, 10); [0]) else DigitsOf(n)
  }

  /** The literal that `toString` writes for a finite number. */
  function LiteralOf(x: Number, expNeg: int, expPos: int): Literal
    requires Finite(x)
  {
    var neg, n := x.s < 0 && !IsZero(x), |x.c|;
    if x.e <= expNeg || x.e >= expPos then
      Literal(neg, [x.c[0]], n > 1, x.c[1..], SMALL_E, if x.e < 0 then MINUS else PLUS, IntegerDigits(Abs(x.e)))
    else if x.e < 0 then
      Literal(neg, [0], true, Zeros(-x.e - 1) + x.c, 0, 0, [])
    else if x.e + 1 >= n then
      Literal(neg, x.c + Zeros(x.e + 1 - n), false, [], 0, 0, [])
    else
      Literal(neg, x.c[..x.e + 1], true, x.c[x.e + 1..], 0, 0, [])
  }

  function TextOf(x: Number, expNeg: int, expPos: int): Text
  {
    if IsNaN(x) then Ascii("NaN")
    else if !Finite(x) then (if x.s < 0 then Ascii("-Infinity") else Ascii("Infinity"))
    else Spell(LiteralOf(x, expNeg, expPos))
  }

  // ----- printing and reading undo each other

  lemma LiteralShape(x: Number, expNeg: int, expPos: int)
    requires Valid(x) && Finite(x)
    ensures IsNumeral(LiteralOf(x, expNeg, expPos))
  {
    hide Val, DigitsOf;
  }

  /** All the layouts of `toString` have the digits and the scale of the number they show. */
  lemma LiteralValue(x: Number, expNeg: int, expPos: int)
    requires Valid(x) && Finite(x)
    ensures var l := LiteralOf(x, expNeg, expPos);
            var k := |l.fp| - ExponentOf(l);
            k >= Places(x) && Val(l.ip + l.fp, 10) == MagOf(x, k)
  {
    hide Val, Pow;
    var l := LiteralOf(x, expNeg, expPos);
    ValEmpty(10);
    if x.e <= expNeg || x.e >= expPos {
      assert l.ip + l.fp == x.c;
      Unscaled(x.c);
    } else if x.e < 0 {
      assert l.ip + l.fp == Zeros(-x.e) + x.c;
      LeadingZeros(-x.e, x.c, 10);
      Unscaled(x.c);
    } else if x.e + 1 >= |x.c| {
      assert l.ip + l.fp == x.c + Zeros(x.e + 1 - |x.c|);
      TrailingZeros(x.c, x.e + 1 - |x.c|, 10);
    } else {
      assert l.ip + l.fp == x.c;
      Unscaled(x.c);
    }
  }

  /**
   Reading back what `toString` wrote gives the number itself, for every finite
   number within range and whatever the limits of plain notation; only the sign of
   a zero is lost.
   */
  lemma RoundTrip(x: Number, expNeg: int, expPos: int, g: Settings)
    requires Valid(x) && Finite(x) && InRange(x, g) && (g.hi.AtMost? ==> g.hi.n > 0)
    ensures ReadText(TextOf(x, expNeg, expPos), g) == Some(if IsZero(x) then Zero(1) else x)
  {
    hide Val, Pow, Exact, LiteralOf, Spell, Numeral, ReadLiteral;
    var l := LiteralOf(x, expNeg, expPos);
    LiteralShape(x, expNeg, expPos);
    NumeralSpell(l);
    LiteralRead(x, expNeg, expPos, g);
  }

  /** So it is for the infinities and NaN. */
  lemma SpecialRoundTrip(x: Number, expNeg: int, expPos: int, g: Settings)
    requires Valid(x) && !Finite(x)
    ensures ReadText(TextOf(x, expNeg, expPos), g) == Some(x)
  {
    hide Scan;
    var t := TextOf(x, expNeg, expPos);
    var n := if x.s == -1 then t[1..] else t;
    assert n == if IsNaN(x) then Ascii("NaN") else Ascii("Infinity");
    assert Trim(t) == t && Unplussed(t) == t && Unminused(t) == n;
    NoNumeral(t);
    NoNumeral(n);
  }

  /** A literal has no letter in front but that of its exponent. */
  lemma NoNumeral(t: Text)
    requires |t| > 1 && (t[0] == 'I' as int || t[0] == 'N' as int || (t[0] == MINUS && t[1] == 'I' as int))
    ensures Numeral(t) == None
  {
    hide Scan;
    if Numeral(t).Some? {
      var l := Numeral(t).value;
      FirstUnit(l);
      SecondUnit(l);
    }
  }

  /** A literal starts with a digit or its point, behind its sign. */
  lemma SecondUnit(l: Literal)
    requires IsNumeral(l)
    ensures var i := if l.neg then 1 else 0;
            |Spell(l)| > i && (IsDigit(Spell(l)[i]) || Spell(l)[i] == DOT)
  {
    hide SpellExponent;
    var body := Spelled(l.ip) + (SpellFraction(l) + SpellExponent(l));
    assert Spell(l)[if l.neg then 1 else 0] == body[0];
    if l.ip != [] { assert body[0] == Spelled(l.ip)[0]; } else { assert body[0] == SpellFraction(l)[0]; }
  }

  /** So no second sign gets past the constructor. */
  lemma NoSecondSign(n: Text)
    requires Numeral(Unminused(n)).Some?
    ensures !Numeral(Unminused(n)).value.neg
  {
    hide Numeral, Spell;
    var l := Numeral(Unminused(n)).value;
    FirstUnit(l);
    SecondUnit(l);
  }

  lemma LiteralRead(x: Number, expNeg: int, expPos: int, g: Settings)
    requires Valid(x) && Finite(x) && InRange(x, g) && (g.hi.AtMost? ==> g.hi.n > 0)
    ensures IsNumeral(LiteralOf(x, expNeg, expPos))
    ensures ReadLiteral(LiteralOf(x, expNeg, expPos), g) == if IsZero(x) then Zero(1) else x
  {
    hide Val, Pow, Exact, Mag;
    LiteralShape(x, expNeg, expPos);
    LiteralValue(x, expNeg, expPos);
    var l := LiteralOf(x, expNeg, expPos);
    var k := |l.fp| - ExponentOf(l);
    MagPositive(x, k);
    if IsZero(x) {
      ZeroExponent(x, expNeg, expPos);
    } else {
      ExactOf(x, k);
    }
  }

  lemma ZeroExponent(x: Number, expNeg: int, expPos: int)
    requires Valid(x) && IsZero(x)
    ensures var l := LiteralOf(x, expNeg, expPos); ExponentOf(l) == 0 && l.fp == []
  {
    ValEmpty(10);
  }

  // ----- the constructor

  /** The index of the first unit that satisfies `p`, or -1. */
  method IndexOf(t: Text, p: int -> bool) returns (i: int)
    ensures -1 <= i < |t|
    ensures i >= 0 ==> p(t[i]) && forall k :: 0 <= k < i ==> !p(t[k])
    ensures i == -1 ==> forall k :: 0 <= k < |t| ==> !p(t[k])
  {
    i := 0;
    while i < |t|
      invariant 0 <= i <= |t| && forall k :: 0 <= k < i ==> !p(t[k])
    {
      if p(t[i]) {
        return;
      }
      i := i + 1;
    }
    i := -1;
  }

  /** The conversion of the text behind the `e` to a number: a sign and digits. */
  function ToInteger(t: Text): int
  {
    if t != [] && t[0] == MINUS then -Val(DigitsIn(t[1..]), 10)
    else if t != [] && t[0] == PLUS then Val(DigitsIn(t[1..]), 10)
    else Val(DigitsIn(t), 10)
  }

  /** A literal without its sign and its point. */
  function Pointless(l: Literal): Text
  {
    Spelled(l.ip + l.fp) + SpellExponent(l)
  }

  lemma WithoutPoint(l: Literal, n: Text, e: int)
    requires WellFormed(l) && n == Spelled(l.ip) + (SpellFraction(l) + SpellExponent(l))
    requires -1 <= e < |n|
    requires e >= 0 ==> n[e] == DOT && forall k :: 0 <= k < e ==> n[k] != DOT
    requires e == -1 ==> forall k :: 0 <= k < |n| ==> n[k] != DOT
    ensures e == if l.dot then |l.ip| else -1
    ensures Pointless(l) == if e >= 0 then n[..e] + n[e + 1..] else n
  {
    hide SpellExponent, DigitsIn;
    forall k | 0 <= k < |l.ip| ensures n[k] != DOT {
      assert n[k] == Spelled(l.ip)[k];
    }
    if l.dot {
      assert n[|l.ip|] == SpellFraction(l)[0] == DOT;
      RemovePoint(Spelled(l.ip), Spelled(l.fp), SpellExponent(l));
      SpelledConcat(l.ip, l.fp);
    } else {
      assert l.ip + l.fp == l.ip;
      NoPoint(l);
      assert n == Spelled(l.ip) + SpellExponent(l);
      forall k | |l.ip| <= k < |n| ensures n[k] != DOT { assert n[k] == SpellExponent(l)[k - |l.ip|]; }
    }
  }

  lemma NoPoint(l: Literal)
    requires WellFormed(l)
    ensures forall k :: 0 <= k < |SpellExponent(l)| ==> SpellExponent(l)[k] != DOT
  {
  }

  lemma RemovePoint(a: Text, b: Text, x: Text)
    ensures var n := a + (([DOT] + b) + x); n[..|a|] + n[|a| + 1..] == (a + b) + x
  {
  }

  lemma SpelledConcat(a: seq<int>, b: seq<int>)
    ensures Spelled(a + b) == Spelled(a) + Spelled(b)
  {
  }

  lemma WithoutExponent(l: Literal, n: Text, i: int)
    requires IsNumeral(l) && n == Pointless(l)
    requires -1 <= i < |n|
    requires i >= 0 ==> IsE(n[i]) && forall k :: 0 <= k < i ==> !IsE(n[k])
    requires i == -1 ==> forall k :: 0 <= k < |n| ==> !IsE(n[k])
    ensures i == if l.e != 0 then |l.ip| + |l.fp| else -1
    ensures Spelled(l.ip + l.fp) == if i > 0 then n[..i] else n
    ensures i > 0 ==> ToInteger(n[i + 1..]) == ExponentOf(l)
    ensures i <= 0 ==> ExponentOf(l) == 0
  {
    hide Val, ToInteger, ExponentOf, DigitsIn;
    var d := l.ip + l.fp;
    forall k | 0 <= k < |d| ensures !IsE(n[k]) && n[k] == Spelled(d)[k] {
      assert n[k] == Spelled(d)[k];
    }
    if l.e != 0 {
      assert n[|d|] == SpellExponent(l)[0] == l.e;
      assert n[|d| + 1..] == (if l.sign == 0 then [] else [l.sign]) + Spelled(l.ep);
      ExponentRead(l);
      assert n[..|d|] == Spelled(d);
    } else {
      assert n == Spelled(d);
      NoExponent(l);
    }
  }

  lemma NoExponent(l: Literal)
    requires WellFormed(l) && l.e == 0
    ensures ExponentOf(l) == 0
  {
    ValEmpty(10);
  }

  lemma ExponentRead(l: Literal)
    requires IsNumeral(l) && l.e != 0
    ensures ToInteger((if l.sign == 0 then [] else [l.sign]) + Spelled(l.ep)) == ExponentOf(l)
  {
    hide Val, DigitsIn;
    SpelledBack(l.ep);
    var t := (if l.sign == 0 then [] else [l.sign]) + Spelled(l.ep);
    if l.sign != 0 {
      assert t[0] == l.sign && t[1..] == Spelled(l.ep);
    } else {
      assert t == Spelled(l.ep) && t[0] == ZERO + l.ep[0];
    }
  }

  /** The digits and the exponent of a literal whose sign has been taken off. */
  method TakeApart(ghost l: Literal, n0: Text) returns (c: seq<int>, e: int, ghost zeros: nat)
    requires IsNumeral(l) && n0 == Spelled(l.ip) + (SpellFraction(l) + SpellExponent(l))
    ensures Significant(l.ip + l.fp, c, zeros) && e == |l.ip| + ExponentOf(l) - (zeros + 1)
  {
    hide Val, IsE, ExponentOf, ToInteger, Pointless, Significant, Spelled, SpellFraction, SpellExponent;
    var n := n0;
    e := IndexOf(n, u => u == DOT);
    WithoutPoint(l, n, e);
    if e > -1 {
      n := n[..e] + n[e + 1..];
    }
    var i := IndexOf(n, u => IsE(u));
    WithoutExponent(l, n, i);
    if i > 0 {
      if e < 0 {
        e := i;
      }
      e := e + ToInteger(n[i + 1..]);
      n := n[..i];
    } else if e < 0 {
      e := |n|;
    }
    assert |n| == |l.ip| + |l.fp|;
    c, e, zeros := SignificantDigits(l.ip + l.fp, n, e);
  }

  /** The constructor on a text: a new number, or nothing when it throws because the text is no number. */
  method FromText(lib: Library, orig: Text) returns (x: BigNumber?)
    ensures x == null <==> ReadText(orig, lib.Config()) == None
    ensures x != null ==> fresh(x) && ReadText(orig, lib.Config()) == Some(x.Value())
  {
    hide Val, Pow, Numeral, ExponentOf, Significant, ReadLiteral, Spell, Spelled, SpellFraction, SpellExponent, Trim,
      Unplussed, Unminused;
    x := new BigNumber(Zero(1));
    var n, t := orig, Numeral(orig);
    if t.Some? {
      FirstUnit(t.value);
      if n[0] == MINUS {
        n, x.s := n[1..], -1;
      }
    } else {
      n := Unplussed(Trim(n));
      t := Numeral(Unminused(n));
      if t.Some? { NoSecondSign(n); FirstUnit(t.value); }
      x.s := SignAt(n);
      n := Unminused(n);
      if t.None? {
        if n == Ascii("Infinity") {
          x.c, x.e := [], 0;
        } else if n == Ascii("NaN") {
          x.c, x.e, x.s := [], 0, 0;
        } else {
          x := null;
        }
        return;
      }
    }
    ghost var l := t.value.(neg := x.s < 0);
    Resigned(t.value, x.s < 0);
    var c, e;
    ghost var zeros;
    c, e, zeros := TakeApart(l, n);
    ReadDigits(l, c, e, zeros, lib.Config());
    if Over(e, lib.maxExp) {
      x.c, x.e := [], 0;
    } else if c == [] || e < lib.minExp {
      x.c, x.e := [0], 0;
    } else {
      x.c, x.e := c, e;
    }
  }

  /** The sign of a literal has nothing to do with the rest of its text. */
  lemma Resigned(l: Literal, neg: bool)
    ensures var l' := l.(neg := neg);
            && SpellFraction(l') == SpellFraction(l) && SpellExponent(l') == SpellExponent(l)
            && (IsNumeral(l) ==> IsNumeral(l'))
  {
  }

  lemma FirstUnit(l: Literal)
    requires IsNumeral(l)
    ensures Spell(l) != [] && (Spell(l)[0] == MINUS <==> l.neg)
    ensures Spelled(l.ip) + (SpellFraction(l) + SpellExponent(l)) == if l.neg then Spell(l)[1..] else Spell(l)
  {
    if !l.neg && l.ip != [] { assert Spell(l)[0] == Spelled(l.ip)[0]; }
  }

  /** The digits `c` of `d` behind `zeros` leading zeros and without trailing ones; none at all for a zero. */
  ghost predicate Significant(d: seq<int>, c: seq<int>, zeros: nat)
  {
    && zeros <= |d| && (forall k :: 0 <= k < zeros ==> d[k] == 0)
    && (if c == [] then zeros == |d| else zeros < |d| && d[zeros] != 0 && c == Strip(d[zeros..]))
  }

  /** The loops over leading and trailing zeros. */
  method SignificantDigits(ghost d: seq<int>, n: Text, e0: int) returns (c: seq<int>, e: int, ghost zeros: nat)
    requires InBase(d, 10) && n == Spelled(d)
    ensures Significant(d, c, zeros) && e == e0 - (zeros + 1)
  {
    hide Strip;
    var i := 0;
    while i < |n| && n[i] == ZERO
      invariant 0 <= i <= |n| && forall k :: 0 <= k < i ==> d[k] == 0
    {
      i := i + 1;
    }
    var b := |n|;
    e := e0 - (i + 1);
    c, zeros := [], i;
    if i == b {
      return;
    }
    b := b - 1;
    while n[b] == ZERO
      invariant i <= b < |n| && forall k :: b < k < |n| ==> d[k] == 0
      decreases b
    {
      b := b - 1;
    }
    ghost var first := i;
    while i <= b
      invariant first <= i <= b + 1 && c == d[first..i]
    {
      c := c + [n[i] - ZERO];
      i := i + 1;
    }
    SignificantIf(d, first, b + 1);
  }

  lemma SignificantIf(d: seq<int>, i: nat, b: nat)
    requires i < b <= |d| && d[i] != 0 && d[b - 1] != 0
    requires (forall k :: 0 <= k < i ==> d[k] == 0) && (forall k :: b <= k < |d| ==> d[k] == 0)
    ensures Significant(d, d[i..b], i)
  {
    hide Strip;
    assert d[i..] == d[i..b] + Zeros(|d| - b);
    StripTrailing(d[i..b], |d| - b);
  }

  lemma ReadDigits(l: Literal, c: seq<int>, e: int, zeros: nat, g: Settings)
    requires WellFormed(l)
    requires Significant(l.ip + l.fp, c, zeros) && e == |l.ip| + ExponentOf(l) - (zeros + 1)
    ensures var s := if l.neg then -1 else 1;
            ReadLiteral(l, g) == if Over(e, g.hi) then Infinity(s)
                                 else if c == [] || e < g.lo then Zero(s) else Number(s, e, c)
  {
    hide Val, Pow, Exact, ExponentOf, Strip, Mag;
    var d := l.ip + l.fp;
    DigitsNat(l);
    if c == [] {
      ValAllZero(d, 10);
    } else {
      assert d == Zeros(zeros) + d[zeros..];
      LeadingZeros(zeros, d[zeros..], 10);
      MagHere(d[zeros..], e);
      StrippedResult(if l.neg then -1 else 1, d[zeros..], e, |l.fp| - ExponentOf(l));
    }
  }

  // ----- toString

  /** The decimal text of an integer, a negative one with its sign. */
  function IntegerText(i: int): Text
  {
    (if i < 0 then [MINUS] else []) + Spelled(IntegerDigits(Abs(i)))
  }

  /** The digits of a literal with its point. */
  function Mantissa(l: Literal): Text
  {
    Spelled(l.ip) + SpellFraction(l)
  }

  lemma SpellParts(l: Literal)
    ensures Spell(l) == (if l.neg then [MINUS] else []) + Mantissa(l) + SpellExponent(l)
  {
  }

  lemma PointIn(c: seq<int>, i: nat)
    requires i <= |c|
    ensures Spelled(c)[..i] + [DOT] + Spelled(c)[i..] == Spelled(c[..i]) + ([DOT] + Spelled(c[i..]))
  {
    assert Spelled(c)[..i] == Spelled(c[..i]) && Spelled(c)[i..] == Spelled(c[i..]);
  }

  /** Exponential notation, the part of `format` that `toString` calls for. */
  method Exponential(s: int, e: int, c: seq<int>, ghost l: Literal) returns (t: Text)
    requires NormalDigits(c)
    requires l == Literal(s < 0 && c != [0], [c[0]], |c| > 1, c[1..], SMALL_E, if e < 0 then MINUS else PLUS,
                          IntegerDigits(Abs(e)))
    ensures t == Spell(l)
  {
    hide IntegerDigits, InBase, Spelled;
    var d := Spelled(c);
    assert c[..1] == [c[0]];
    PointIn(c, 1);
    assert Mantissa(l) == if |c| > 1 then d[..1] + [DOT] + d[1..] else d by {
      if |c| == 1 { assert c == [c[0]]; assert Mantissa(l) == Spelled(l.ip); }
    }
    if |d| > 1 {
      d := d[..1] + [DOT] + d[1..];
    }
    var n := IntegerText(e);
    assert (if e < 0 then [SMALL_E] else [SMALL_E, PLUS]) + n == SpellExponent(l);
    SpellParts(l);
    t := (if s < 0 && c[0] != 0 then [MINUS] else []) + d;
    t := t + ((if e < 0 then [SMALL_E] else [SMALL_E, PLUS]) + n);
  }

  /** Zeros in front of the digits of a number below 1. */
  method Leading(c: seq<int>, e: int) returns (str: Text)
    requires e < 0
    ensures str == Spelled([0]) + ([DOT] + Spelled(Zeros(-e - 1) + c))
  {
    hide Spelled;
    str := Spelled(c);
    var xe := e + 1;
    assert Zeros(0) + c == c;
    while xe != 0
      invariant e < xe <= 0 && str == Spelled(Zeros(xe - e - 1) + c)
      decreases -xe
    {
      OneZero(xe - e - 1, c);
      str := [ZERO] + str;
      xe := xe + 1;
    }
    SpelledZero();
    str := [ZERO] + ([DOT] + str);
  }

  lemma OneZero(n: nat, c: seq<int>)
    ensures [ZERO] + Spelled(Zeros(n) + c) == Spelled(Zeros(n + 1) + c)
  {
    assert Zeros(n + 1) + c == [0] + (Zeros(n) + c);
  }

  lemma SpelledZero()
    ensures Spelled([0]) == [ZERO]
  {
  }

  /** Zeros behind the digits of a large integer. */
  method Trailing(c: seq<int>, n0: nat) returns (str: Text)
    ensures str == Spelled(c + Zeros(n0))
  {
    str := Spelled(c);
    assert c + Zeros(0) == c;
    var n := n0;
    while n > 0
      invariant 0 <= n <= n0 && str == Spelled(c + Zeros(n0 - n))
    {
      str := str + [ZERO];
      assert c + Zeros(n0 - n + 1) == c + Zeros(n0 - n) + [0];
      n := n - 1;
    }
  }

  /** Plain notation. */
  method Plain(c: seq<int>, e: int, ghost l: Literal) returns (str: Text)
    requires NormalDigits(c)
    requires e < 0 ==> l.ip == [0] && l.dot && l.fp == Zeros(-e - 1) + c
    requires e >= 0 && e + 1 >= |c| ==> l.ip == c + Zeros(e + 1 - |c|) && !l.dot
    requires 0 <= e < |c| - 1 ==> l.ip == c[..e + 1] && l.dot && l.fp == c[e + 1..]
    ensures str == Mantissa(l)
  {
    hide InBase, Spelled;
    if e < 0 {
      str := Leading(c, e);
    } else if e > 0 {
      str := Spelled(c);
      if e + 1 > |str| {
        str := Trailing(c, e + 1 - |str|);
      } else if e + 1 < |str| {
        PointIn(c, e + 1);
        str := str[..e + 1] + [DOT] + str[e + 1..];
      } else {
        assert c + Zeros(0) == c;
      }
    } else {
      str := Spelled(c);
      if |str| > 1 {
        PointIn(c, 1);
        str := str[..1] + [DOT] + str[1..];
      } else {
        assert c + Zeros(0) == c;
      }
    }
  }

  method ToText(lib: Library, x: BigNumber) returns (str: Text)
    requires Valid(x.Value())
    ensures str == TextOf(x.Value(), lib.toExpNeg, lib.toExpPos)
  {
    hide IntegerDigits, InBase, Spelled, Mantissa, Spell;
    if x.c == [] {
      str := if x.s != 0 then Ascii("Infinity") else Ascii("NaN");
      str := if x.s < 0 then [MINUS] + str else str;
      return;
    }
    ghost var l := LiteralOf(x.Value(), lib.toExpNeg, lib.toExpPos);
    if x.e <= lib.toExpNeg || x.e >= lib.toExpPos {
      str := Exponential(x.s, x.e, x.c, l);
      return;
    }
    str := Plain(x.c, x.e, l);
    SpellParts(l);
    // no sign for a zero
    if x.c == [0] {
      return;
    }
    if x.s < 0 {
      str := [MINUS] + str;
    }
  }
}
