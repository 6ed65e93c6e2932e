/**
 Numbers as text. Text is a sequence of UTF-16 code units. A `Literal` is a
 decimal numeral taken apart: sign, digits before and after the point, exponent.
 One scanner serves both readers of the source, the regular expression of the
 BigNumber constructor and the `number` function of the JSON parser.
 */
module Numerals {
  import opened Digits

  type Text = seq<int>

  const MINUS := '-' as int
  const PLUS := '+' as int
  const DOT := '.' as int
  const ZERO := '0' as int
  const SMALL_E := 'e' as int
  const BIG_E := 'E' as int

  predicate IsDigit(u: int) { ZERO <= u <= ZERO + 9 }
  predicate IsE(u: int) { u == SMALL_E || u == BIG_E }
  predicate IsSign(u: int) { u == MINUS || u == PLUS }

  /** Decimal digits as text. */
  function Spelled(c: seq<int>): (t: Text)
    ensures |t| == |c| && forall i :: 0 <= i < |c| ==> t[i] == ZERO + c[i]
  {
    seq(|c|, i requires 0 <= i < |c| => ZERO + c[i])
  }

  function DigitsIn(t: Text): (c: seq<int>)
    ensures |t| == |c| && forall i :: 0 <= i < |t| ==> c[i] == t[i] - ZERO
  {
    seq(|t|, i requires 0 <= i < |t| => t[i] - ZERO)
  }

  /** `e` is the letter in front of the exponent, `sign` the sign there; 0 when there is none. */
  datatype Literal = Literal(neg: bool, ip: seq<int>, dot: bool, fp: seq<int>, e: int, sign: int, ep: seq<int>)

  predicate WellFormed(l: Literal)
  {
    && InBase(l.ip, 10) && InBase(l.fp, 10) && InBase(l.ep, 10)
    && (!l.dot ==> l.fp == [])
    && (l.e == 0 || IsE(l.e)) && (l.sign == 0 || IsSign(l.sign))
    && (l.e == 0 ==> l.sign == 0 && l.ep == [])
  }

  /** What makes a literal a number: a digit in front, and one behind an `e`. */
  predicate IsNumeral(l: Literal)
  {
    WellFormed(l) && (l.ip != [] || l.fp != []) && (l.e != 0 ==> l.ep != [])
  }

  function SpellExponent(l: Literal): Text
  {
    if l.e == 0 then [] else [l.e] + (if l.sign == 0 then [] else [l.sign]) + Spelled(l.ep)
  }

  function SpellFraction(l: Literal): Text
  {
    if l.dot then [DOT] + Spelled(l.fp) else []
  }

  function Spell(l: Literal): Text
  {
    (if l.neg then [MINUS] else []) + (Spelled(l.ip) + (SpellFraction(l) + SpellExponent(l)))
  }

  // ----- the scanner

  /** The end of the run of digits that starts at `i`. */
  function DigitRun(t: Text, i: nat): (j: nat)
    requires i <= |t|
    ensures i <= j <= |t|
    ensures forall k :: i <= k < j ==> IsDigit(t[k])
    ensures j < |t| ==> !IsDigit(t[j])
    decreases |t| - i
  {
    if i < |t| && IsDigit(t[i]) then DigitRun(t, i + 1) else i
  }

  /** The optional point and the digits behind it, and where they end. */
  function ScanFraction(t: Text, i: nat): (r: (bool, seq<int>, nat))
    requires i <= |t|
    ensures i <= r.2 <= |t|
  {
    if i < |t| && t[i] == DOT then
      var j := DigitRun(t, i + 1);
      (true, DigitsIn(t[i + 1..j]), j)
    else (false, [], i)
  }

  /** The optional exponent: its letter, its sign, its digits, and where it ends. */
  function ScanExponent(t: Text, i: nat): (r: (int, int, seq<int>, nat))
    requires i <= |t|
    ensures i <= r.3 <= |t|
  {
    if i < |t| && IsE(t[i]) then
      var signed := i + 1 < |t| && IsSign(t[i + 1]);
      var j := if signed then i + 2 else i + 1;
      var k := DigitRun(t, j);
      (t[i], if signed then t[i + 1] else 0, DigitsIn(t[j..k]), k)
    else (0, 0, [], i)
  }

  /** Reads the longest literal that starts at `i`, a numeral or not, and says where it ends. */
  function Scan(t: Text, i: nat): (r: (Literal, nat))
    requires i <= |t|
    ensures i <= r.1 <= |t|
  {
    var neg := i < |t| && t[i] == MINUS;
    var a := if neg then i + 1 else i;
    var b := DigitRun(t, a);
    var f := ScanFraction(t, b);
    var x := ScanExponent(t, f.2);
    (Literal(neg, DigitsIn(t[a..b]), f.0, f.1, x.0, x.1, x.2), x.3)
  }

  /** What may follow a literal without becoming part of it. */
  predicate Stops(rest: Text)
  {
    rest == [] || (!IsDigit(rest[0]) && rest[0] != DOT && !IsE(rest[0]) && !IsSign(rest[0]))
  }

  lemma {:induction false} RunIs(t: Text, i: nat, j: nat)
    requires i <= j <= |t| && (forall k :: i <= k < j ==> IsDigit(t[k]))
    requires j < |t| ==> !IsDigit(t[j])
    ensures DigitRun(t, i) == j
    decreases j - i
  {
    if i < j { RunIs(t, i + 1, j); }
  }

  lemma SpelledBack(c: seq<int>)
    ensures DigitsIn(Spelled(c)) == c
  {
  }

  lemma RunOf(t: Text, i: nat, c: seq<int>)
    requires InBase(c, 10) && i + |c| <= |t| && t[i..i + |c|] == Spelled(c)
    requires i + |c| < |t| ==> !IsDigit(t[i + |c|])
    ensures DigitRun(t, i) == i + |c| && DigitsIn(t[i..i + |c|]) == c
  {
    hide DigitRun;
    forall k | i <= k < i + |c| ensures IsDigit(t[k]) {
      assert t[k] == t[i..i + |c|][k - i];
    }
    RunIs(t, i, i + |c|);
    SpelledBack(c);
  }

  lemma Middle(pre: Text, s: Text, rest: Text)
    ensures var t := pre + (s + rest);
            && |t| == |pre| + |s| + |rest| && t[|pre|..|pre| + |s|] == s
            && (rest != [] ==> t[|pre| + |s|] == rest[0])
  {
  }

  lemma Regroup(a: Text, b: Text, c: Text, d: Text)
    ensures a + ((b + c) + d) == (a + b) + (c + d)
  {
  }

  /** The digits of `c` stand in `t` at `i`, behind `pre` and in front of `rest`. */
  lemma SpelledRun(t: Text, i: nat, pre: Text, c: seq<int>, rest: Text)
    requires InBase(c, 10) && (rest != [] ==> !IsDigit(rest[0]))
    requires t == pre + (Spelled(c) + rest) && i == |pre|
    ensures i + |c| <= |t| && DigitRun(t, i) == i + |c| && DigitsIn(t[i..i + |c|]) == c
  {
    hide DigitRun, DigitsIn, InBase, IsDigit;
    var s := Spelled(c);
    Middle(pre, s, rest);
    assert t[i..i + |c|] == s && (rest != [] ==> t[i + |c|] == rest[0]) && |t| == i + |c| + |rest|;
    hide Spelled;
    RunOf(t, i, c);
  }

  /** Five texts in a row, split where one of them starts. */
  lemma InARow(pre: Text, a: Text, b: Text, c: Text, d: Text, rest: Text)
    ensures var t := pre + ((a + (b + (c + d))) + rest);
            && t == (pre + a) + (b + (c + (d + rest)))
            && t == (pre + a + b) + (c + (d + rest))
            && t == (pre + a + b + c) + (d + rest)
  {
  }

  lemma Sliced(t: Text, i: nat, a: nat, b: nat, c: nat, d: nat)
    requires i <= a <= b <= c <= d <= |t|
    ensures t[i..d] == t[i..a] + (t[a..b] + (t[b..c] + t[c..d]))
  {
  }

  lemma FractionFound(t: Text, i: nat, pre: Text, l: Literal, rest: Text)
    requires WellFormed(l)
    requires rest != [] ==> !IsDigit(rest[0]) && rest[0] != DOT
    requires t == pre + (SpellFraction(l) + rest) && i == |pre|
    ensures ScanFraction(t, i) == (l.dot, l.fp, i + |SpellFraction(l)|)
  {
    hide ScanFraction, DigitRun, DigitsIn, Spelled, IsDigit, InBase;
    var b := SpellFraction(l);
    assert InBase(l.fp, 10) && (if l.dot then b == [DOT] + Spelled(l.fp) && |b| == 1 + |l.fp| else b == l.fp == []);
    hide *;
    if l.dot {
      DotFound(t, i, pre, l.fp, rest);
    } else {
      assert [] + rest == rest;
      Middle(pre, [], rest);
      FractionIs(t, i, false, []);
    }
  }

  lemma DotFound(t: Text, i: nat, pre: Text, fp: seq<int>, rest: Text)
    requires InBase(fp, 10) && (rest != [] ==> !IsDigit(rest[0]))
    requires t == pre + (([DOT] + Spelled(fp)) + rest) && i == |pre|
    ensures ScanFraction(t, i) == (true, fp, i + 1 + |fp|)
  {
    hide *;
    Regroup(pre, [DOT], Spelled(fp), rest);
    Middle(pre, [DOT], Spelled(fp) + rest);
    Lengths(pre, [DOT]);
    SpelledRun(t, i + 1, pre + [DOT], fp, rest);
    FractionIs(t, i, true, fp);
  }

  lemma Lengths(a: Text, b: Text)
    ensures |a + b| == |a| + |b|
  {
  }

  lemma FractionIs(t: Text, i: nat, dot: bool, fp: seq<int>)
    requires i <= |t|
    requires dot ==> i < |t| && t[i] == DOT && i + 1 + |fp| <= |t| && DigitRun(t, i + 1) == i + 1 + |fp|
    requires dot ==> DigitsIn(t[i + 1..i + 1 + |fp|]) == fp
    requires !dot ==> (i < |t| ==> t[i] != DOT) && fp == []
    ensures ScanFraction(t, i) == (dot, fp, if dot then i + 1 + |fp| else i)
  {
    hide DigitRun, DigitsIn;
  }

  lemma ExponentFound(t: Text, i: nat, pre: Text, l: Literal, rest: Text)
    requires WellFormed(l) && Stops(rest)
    requires t == pre + (SpellExponent(l) + rest) && i == |pre|
    ensures ScanExponent(t, i) == (l.e, l.sign, l.ep, i + |SpellExponent(l)|)
  {
    hide ScanExponent, DigitRun, DigitsIn, Spelled, IsDigit, InBase;
    if l.e != 0 {
      var s := if l.sign == 0 then [] else [l.sign];
      Unsigned(l.ep, rest);
      assert SpellExponent(l) == ([l.e] + s) + Spelled(l.ep) && |SpellExponent(l)| == 1 + |s| + |l.ep|;
      LetterFound(t, i, pre, l.e, s, l.ep, rest);
    } else {
      assert [] + rest == rest;
      Middle(pre, [], rest);
      NoExponentIs(t, i);
    }
  }

  lemma LetterFound(t: Text, i: nat, pre: Text, e: int, s: Text, ep: seq<int>, rest: Text)
    requires IsE(e) && InBase(ep, 10) && |s| <= 1 && (s != [] ==> s[0] != 0 && IsSign(s[0]))
    requires rest != [] ==> !IsDigit(rest[0])
    requires var u := Spelled(ep) + rest; u != [] ==> !IsSign(u[0])
    requires t == pre + ((([e] + s) + Spelled(ep)) + rest) && i == |pre|
    ensures ScanExponent(t, i) == (e, if s == [] then 0 else s[0], ep, i + 1 + |s| + |ep|)
  {
    hide *;
    ExponentShape(pre, e, s, Spelled(ep), rest);
    Lengths(pre, [e] + s);
    SpelledRun(t, i + 1 + |s|, pre + ([e] + s), ep, rest);
    ExponentIs(t, i, i + 1 + |s|, if s == [] then 0 else s[0], ep);
  }

  lemma ExponentIs(t: Text, i: nat, j: nat, sign: int, ep: seq<int>)
    requires i < j <= |t| && IsE(t[i]) && j + |ep| <= |t|
    requires if sign == 0 then j == i + 1 && (j < |t| ==> !IsSign(t[j]))
             else j == i + 2 && sign == t[i + 1] && IsSign(sign)
    requires DigitRun(t, j) == j + |ep| && DigitsIn(t[j..j + |ep|]) == ep
    ensures ScanExponent(t, i) == (t[i], sign, ep, j + |ep|)
  {
    hide DigitRun, DigitsIn, IsE;
    assert sign == 0 <==> !(i + 1 < |t| && IsSign(t[i + 1]));
  }

  lemma NoExponentIs(t: Text, i: nat)
    requires i <= |t| && (i < |t| ==> !IsE(t[i]))
    ensures ScanExponent(t, i) == (0, 0, [], i)
  {
  }

  /** A letter, perhaps a sign, and what comes behind them. */
  lemma ExponentShape(pre: Text, e: int, s: Text, digits: Text, rest: Text)
    requires |s| <= 1
    ensures var t, i := pre + ((([e] + s) + digits) + rest), |pre|;
            && t == (pre + ([e] + s)) + (digits + rest)
            && |t| == i + 1 + |s| + |digits| + |rest| && t[i] == e
            && (s != [] ==> t[i + 1] == s[0])
            && (s == [] && i + 1 < |t| ==> t[i + 1] == (digits + rest)[0])
  {
  }

  lemma Unsigned(c: seq<int>, rest: Text)
    requires InBase(c, 10) && Stops(rest)
    ensures var t := Spelled(c) + rest; t != [] ==> !IsSign(t[0])
  {
  }

  /** The scanner finds every literal, whatever text it stands in. */
  lemma ScanSpell(pre: Text, l: Literal, rest: Text)
    requires WellFormed(l) && Stops(rest)
    ensures Scan(pre + (Spell(l) + rest), |pre|) == (l, |pre| + |Spell(l)|)
  {
    hide Scan, SpellFraction, SpellExponent, Spelled, WellFormed, Stops;
    var sign := if l.neg then [MINUS] else [];
    InARow(pre, sign, Spelled(l.ip), SpellFraction(l), SpellExponent(l), rest);
    ScanFrom(pre + (Spell(l) + rest), pre, sign, l, rest);
  }

  lemma ScanFrom(t: Text, pre: Text, sign: Text, l: Literal, rest: Text)
    requires WellFormed(l) && Stops(rest) && sign == if l.neg then [MINUS] else []
    requires var a, b, c := Spelled(l.ip), SpellFraction(l), SpellExponent(l);
             && t == (pre + sign) + (a + (b + (c + rest)))
             && t == (pre + sign + a) + (b + (c + rest))
             && t == (pre + sign + a + b) + (c + rest)
    ensures Scan(t, |pre|) == (l, |pre| + |sign| + |l.ip| + |SpellFraction(l)| + |SpellExponent(l)|)
  {
    hide SpellFraction, SpellExponent, ScanFraction, ScanExponent, Scan, DigitRun, Spelled, DigitsIn, IsDigit;
    Heads(l, rest);
    WellFormedDigits(l);
    hide *;
    var p0, b, c := pre + sign, SpellFraction(l), SpellExponent(l);
    var p1 := p0 + Spelled(l.ip);
    var p2 := p1 + b;
    Lengths(pre, sign);
    Lengths(p0, Spelled(l.ip));
    Lengths(p1, b);
    SpelledRun(t, |p0|, p0, l.ip, b + (c + rest));
    FractionFound(t, |p1|, p1, l, c + rest);
    ExponentFound(t, |p2|, p2, l, rest);
    SignFound(t, pre, sign, Spelled(l.ip) + (b + (c + rest)));
    ScanIs(t, |pre|, |p0|, |p1|, |p2|, l);
  }

  lemma WellFormedDigits(l: Literal)
    requires WellFormed(l)
    ensures InBase(l.ip, 10)
  {
  }

  lemma ScanIs(t: Text, i: nat, a: nat, b: nat, c: nat, l: Literal)
    requires i <= a <= b <= c <= |t| && a == (if l.neg then i + 1 else i)
    requires i < |t| && t[i] == MINUS <==> l.neg
    requires DigitRun(t, a) == b && DigitsIn(t[a..b]) == l.ip && ScanFraction(t, b) == (l.dot, l.fp, c)
    requires var x := ScanExponent(t, c); x.0 == l.e && x.1 == l.sign && x.2 == l.ep
    ensures Scan(t, i) == (l, ScanExponent(t, c).3)
  {
    hide DigitRun, DigitsIn, ScanFraction, ScanExponent;
  }

  lemma SignFound(t: Text, pre: Text, sign: Text, rest: Text)
    requires t == (pre + sign) + rest && (sign == [MINUS] || (sign == [] && (rest != [] ==> rest[0] != MINUS)))
    ensures |pre| < |t| && t[|pre|] == MINUS <==> sign != []
  {
    if sign == [] && |pre| < |t| { assert t[|pre|] == rest[0]; }
  }

  /** How the parts of a literal may begin. */
  lemma Heads(l: Literal, rest: Text)
    requires WellFormed(l) && Stops(rest)
    ensures var t := SpellExponent(l) + rest; t != [] ==> !IsDigit(t[0]) && t[0] != DOT && t[0] != MINUS
    ensures var t := SpellFraction(l) + (SpellExponent(l) + rest);
            && (t != [] ==> !IsDigit(t[0]) && t[0] != MINUS)
            && var u := Spelled(l.ip) + t; u != [] ==> u[0] != MINUS
  {
  }

  lemma RunSound(t: Text, i: nat, j: nat)
    requires i <= j <= |t| && forall k :: i <= k < j ==> IsDigit(t[k])
    ensures InBase(DigitsIn(t[i..j]), 10) && Spelled(DigitsIn(t[i..j])) == t[i..j]
  {
  }

  lemma FractionSound(t: Text, i: nat, l: Literal)
    requires i <= |t|
    requires var f := ScanFraction(t, i); l.dot == f.0 && l.fp == f.1
    ensures InBase(l.fp, 10) && (!l.dot ==> l.fp == []) && t[i..ScanFraction(t, i).2] == SpellFraction(l)
  {
    hide DigitRun;
    if l.dot {
      var j := DigitRun(t, i + 1);
      RunSound(t, i + 1, j);
      assert t[i..j] == [t[i]] + t[i + 1..j];
    }
  }

  lemma ExponentSound(t: Text, i: nat, l: Literal)
    requires i <= |t|
    requires var x := ScanExponent(t, i); l.e == x.0 && l.sign == x.1 && l.ep == x.2
    ensures InBase(l.ep, 10) && (l.e == 0 || IsE(l.e)) && (l.sign == 0 || IsSign(l.sign))
    ensures l.e == 0 ==> l.sign == 0 && l.ep == []
    ensures t[i..ScanExponent(t, i).3] == SpellExponent(l)
  {
    hide DigitRun;
    if l.e != 0 {
      var j := if l.sign != 0 then i + 2 else i + 1;
      var k := DigitRun(t, j);
      RunSound(t, j, k);
      assert t[i..k] == t[i..j] + t[j..k];
      assert t[i..j] == [l.e] + if l.sign == 0 then [] else [l.sign];
    }
  }

  /** And whatever it reads is spelled that way. */
  lemma ScanSound(t: Text, i: nat)
    requires i <= |t|
    ensures var (l, j) := Scan(t, i); WellFormed(l) && t[i..j] == Spell(l)
  {
    hide DigitRun;
    var neg := i < |t| && t[i] == MINUS;
    var a := if neg then i + 1 else i;
    var b := DigitRun(t, a);
    var f := ScanFraction(t, b);
    var x := ScanExponent(t, f.2);
    var l := Scan(t, i).0;
    assert t[i..a] == if neg then [MINUS] else [];
    RunSound(t, a, b);
    FractionSound(t, b, l);
    ExponentSound(t, f.2, l);
    Sliced(t, i, a, b, f.2, x.3);
  }

  /**
   The texts that the constructor takes for numbers, `isValid` in the source: an
   optional minus, digits with an optional point among them, an optional exponent.
   */
  ghost predicate IsValid(t: Text)
  {
    exists l :: IsNumeral(l) && t == Spell(l)
  }

  /** The scanner decides which texts those are. */
  lemma ValidIff(t: Text)
    ensures IsValid(t) <==> Scan(t, 0).1 == |t| && IsNumeral(Scan(t, 0).0)
  {
    ScanSound(t, 0);
    if IsValid(t) {
      var l :| IsNumeral(l) && t == Spell(l);
      ScanSpell([], l, []);
      assert [] + (Spell(l) + []) == t;
    } else if Scan(t, 0).1 == |t| {
      assert t[0..|t|] == t;
    }
  }
}
