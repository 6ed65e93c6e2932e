/**
 What texts mean apart from how they are handled: the digits of other bases in either
 case, white space and signs around a number, and the escapes of JSON.
 */
module TextLaws {
  import opened Wrappers
  import opened Digits
  import opened Numbers
  import opened Rounding
  import opened Arithmetic
  import opened Laws
  import opened DigitLoops
  import opened Numerals
  import opened NumberText
  import opened Bases
  import opened JsonCodec
  import opened JsonRoundTrip
  import opened JsonLayout

  // ----- digits

  /** The digits of the source, and their capitals. */
  const DIGITS: Text := Ascii("0123456789abcdefghijklmnopqrstuvwxyz")
  const CAPITALS: Text := Ascii("0123456789ABCDEFGHIJKLMNOPQRSTUVWXYZ")

  /** A text of `|c|` digits, each in either case. */
  ghost predicate Shows(t: Text, c: seq<int>)
  {
    |t| == |c| && forall i :: 0 <= i < |c| ==> 0 <= c[i] < 36 && (t[i] == DIGITS[c[i]] || t[i] == CAPITALS[c[i]])
  }

  lemma Listed(d: int)
    requires 0 <= d < 36
    ensures DIGITS[d] == if d < 10 then ZERO + d else SMALL_A + d - 10
    ensures CAPITALS[d] == if d < 10 then ZERO + d else 'A' as int + d - 10
  {
  }

  lemma DigitOf(d: int)
    requires 0 <= d < 36
    ensures DigitChar(d) == DIGITS[d]
    ensures DigitIndex(Lower(DIGITS[d])) == d && DigitIndex(Lower(CAPITALS[d])) == d
  {
    Listed(d);
    hide DIGITS, CAPITALS;
  }

  function InDigits(c: seq<int>): (t: Text)
    requires InBase(c, 36)
    ensures |t| == |c| && forall i :: 0 <= i < |c| ==> t[i] == DIGITS[c[i]]
  {
    seq(|c|, i requires 0 <= i < |c| => DIGITS[c[i]])
  }

  lemma CharsAreDigits(c: seq<int>)
    requires InBase(c, 36)
    ensures Chars(c) == InDigits(c)
  {
    hide DigitChar;
    forall i | 0 <= i < |c| ensures Chars(c)[i] == InDigits(c)[i] { DigitOf(c[i]); }
  }

  /** `toString(b)` of an integer: its digits in that base, without zeros in front, behind its sign. */
  lemma BaseTextMeaning(x: Number, b: nat) returns (c: seq<int>)
    requires Valid(x) && Whole(x) && 2 <= b <= 36
    ensures InBase(c, b) && InBase(c, 36) && c != [] && (c[0] == 0 ==> |c| == 1) && Val(c, b) == MagOf(x, 0)
    ensures BaseText(x, b) == if x.s < 0 && !IsZero(x) then [MINUS] + InDigits(c) else InDigits(c)
  {
    hide Val, Mag, Pow, DigitsOf, Chars, InDigits;
    MagPositive(x, 0);
    c := BaseDigits(MagOf(x, 0), b);
    CharsAreDigits(c);
    assert [] + Chars(c) == Chars(c);
  }

  /** The constructor reads digits of a base in either case, with or without a minus sign. */
  lemma AnyCase(t: Text, c: seq<int>, b: nat, g: Settings)
    requires c != [] && 2 <= b <= 36 && b != 10 && InBase(c, b) && Shows(t, c) && g.dp >= 0
    ensures Val(c, b) >= 0
    ensures ReadBase(t, b, g) == Some(if Val(c, b) == 0 then Zero(1) else Clamp(Exact(1, Val(c, b), 0), g))
    ensures ReadBase([MINUS] + t, b, g) == Some(if Val(c, b) == 0 then Zero(-1) else Clamp(Exact(-1, Val(c, b), 0), g))
  {
    hide Val, Exact, Clamp, ReadText, RoundTo;
    ValBound(c, b);
    ShownDigits(t, c);
    MinusText(t);
    hide Trim, Unplussed, Unminused, Undotted, Clean;
    ReadDigits(t, t, c, b, g);
    ReadDigits([MINUS] + t, t, c, b, g);
  }

  lemma ShownDigits(t: Text, c: seq<int>)
    requires Shows(t, c) && c != []
    ensures Indices(LowerText(t)) == c && Clean(t) && Undotted(t) == t && t[0] != MINUS && Unminused(t) == t
  {
    hide Lower, DigitIndex, IsSpace, IsSign, DIGITS, CAPITALS;
    forall i | 0 <= i < |c| ensures DigitIndex(Lower(t[i])) == c[i] && Solid(t[i]) {
      DigitOf(c[i]);
      SolidDigit(c[i]);
    }
    assert Indices(LowerText(t)) == c;
    SolidEnds(t);
  }

  /** Nothing that is taken off at the ends of a text. */
  predicate Solid(u: int)
  {
    !IsSpace(u) && u != DOT && !IsSign(u)
  }

  lemma SolidDigit(d: int)
    requires 0 <= d < 36
    ensures Solid(DIGITS[d]) && Solid(CAPITALS[d])
  {
    Listed(d);
    hide DIGITS, CAPITALS;
  }

  lemma SolidEnds(t: Text)
    requires t != [] && Solid(t[0]) && Solid(t[|t| - 1])
    ensures Clean(t) && Undotted(t) == t && t[0] != MINUS && Unminused(t) == t
  {
    hide IsSpace;
  }

  lemma ReadDigits(t: Text, u: Text, c: seq<int>, b: nat, g: Settings)
    requires c != [] && 2 <= b && b != 10 && InBase(c, b) && Indices(LowerText(u)) == c && g.dp >= 0
    requires Clean(t) && Unminused(t) == u && Undotted(u) == u && |u| == |c|
    ensures Val(c, b) >= 0
    ensures ReadBase(t, b, g) ==
            Some(if Val(c, b) == 0 then Zero(SignAt(t)) else Clamp(Exact(SignAt(t), Val(c, b), 0), g))
  {
    hide Val, Exact, Clamp, ReadText, RoundTo, Trim, Unplussed, Unminused, Undotted, Indices, LowerText, SignAt;
    ValBound(c, b);
  }

  /** In base 10 the constructor rounds what it reads to DECIMAL_PLACES. */
  lemma TenRounds(t: Text, g: Settings, k: int)
    requires g.dp >= 0 && ReadText(t, g).Some? && Finite(ReadText(t, g).value)
    requires k >= Places(ReadText(t, g).value) && k >= g.dp
    ensures ReadBase(t, 10, g).Some?
    ensures var x, r := ReadText(t, g).value, ReadBase(t, 10, g).value;
            && Valid(r) && Finite(r) && g.dp >= Places(r) && r.s == x.s
            && IsRounded(g.mode, At(x, k), Pow10(k - g.dp), At(r, g.dp))
  {
    hide ReadText, RoundTo, Pow, At, IsRounded;
    ReadValid(t, g);
    RoundToMeaning(ReadText(t, g).value, g.dp, g.mode, k);
  }

  // ----- white space and a plus sign

  /** The white space and line terminators of ECMAScript. */
  const SPACES: set<int> :=
    {9, 10, 11, 12, 13, 0x20, 0xa0, 0x1680, 0x2000, 0x2001, 0x2002, 0x2003, 0x2004, 0x2005, 0x2006, 0x2007, 0x2008,
     0x2009, 0x200a, 0x2028, 0x2029, 0x202f, 0x205f, 0x3000, 0xfeff}

  predicate AllSpaces(w: Text)
  {
    forall i :: 0 <= i < |w| ==> w[i] in SPACES
  }

  lemma SpacesAre(u: int)
    ensures u in SPACES <==> IsSpace(u)
  {
  }

  lemma {:induction false} TrimBack(s: Text, w: Text)
    requires s != [] && !IsSpace(s[0]) && !IsSpace(s[|s| - 1]) && AllSpaces(w)
    ensures Trim(s + w) == s
    decreases |w|
  {
    if w == [] {
      assert s + w == s;
    } else {
      var m := |w| - 1;
      assert (s + w)[..|s + w| - 1] == s + w[..m] && (s + w)[|s + w| - 1] == w[m];
      TrimBack(s, w[..m]);
    }
  }

  lemma {:induction false} TrimBoth(v: Text, s: Text, w: Text)
    requires s != [] && !IsSpace(s[0]) && !IsSpace(s[|s| - 1]) && AllSpaces(v) && AllSpaces(w)
    ensures Trim(v + (s + w)) == s
    decreases |v|
  {
    if v == [] {
      assert v + (s + w) == s + w;
      TrimBack(s, w);
    } else {
      assert (v + (s + w))[1..] == v[1..] + (s + w);
      TrimBoth(v[1..], s, w);
    }
  }

  /** All units of a literal are digits, points, signs and letters. */
  lemma NumeralUnits(l: Literal)
    requires IsNumeral(l)
    ensures var t := Spell(l);
            && t != [] && (forall i :: 0 <= i < |t| ==> !IsSpace(t[i])) && t[0] != PLUS
  {
    hide Spelled, InBase, IsSpace;
    NoSpaces(l);
    FirstUnit(l);
    SecondUnit(l);
  }

  lemma NoSpaces(l: Literal)
    requires IsNumeral(l)
    ensures forall i :: 0 <= i < |Spell(l)| ==> !IsSpace(Spell(l)[i])
  {
    hide Spell;
    QuietLiteral(l);
  }

  /** A text with white space in it is no literal. */
  lemma SpacedNoNumeral(t: Text, i: nat)
    requires i < |t| && IsSpace(t[i])
    ensures Numeral(t) == None
  {
    hide Scan, Spell, IsSpace;
    if Numeral(t).Some? { NumeralUnits(Numeral(t).value); }
  }

  lemma SpaceIs(w: Text, i: nat)
    requires AllSpaces(w) && i < |w|
    ensures IsSpace(w[i])
  {
  }

  /**
   A number is read as it is without the white space around it and without a plus
   sign in front.
   */
  lemma Spaced(v: Text, l: Literal, w: Text, g: Settings)
    requires IsNumeral(l) && AllSpaces(v) && AllSpaces(w)
    ensures ReadText(v + (Spell(l) + w), g) == ReadText(Spell(l), g) == Some(ReadLiteral(l, g))
    ensures !l.neg ==> ReadText(v + (([PLUS] + Spell(l)) + w), g) == ReadText(Spell(l), g)
  {
    hide Scan, Spell, IsSpace, ReadLiteral, Trim, SPACES, Numeral;
    var s := Spell(l);
    NumeralUnits(l);
    NumeralSpell(l);
    Unsigned(l);
    TrimBoth(v, s, w);
    if v != [] || w != [] {
      var t := v + (s + w);
      if v != [] { SpaceIs(v, 0); assert t[0] == v[0]; SpacedNoNumeral(t, 0); }
      else { SpaceIs(w, |w| - 1); assert t[|t| - 1] == w[|w| - 1]; SpacedNoNumeral(t, |t| - 1); }
      assert Unplussed(s) == s;
    } else {
      assert v + (s + w) == s;
    }
    if !l.neg {
      PlusSpace();
      TrimBoth(v, [PLUS] + s, w);
      PlusNoNumeral(v, s, w);
      assert ([PLUS] + s)[1..] == s;
    }
  }

  lemma PlusSpace()
    ensures !IsSpace(PLUS)
  {
  }

  /** What is read when the sign of a literal is taken off first. */
  lemma Unsigned(l: Literal)
    requires IsNumeral(l)
    ensures SignAt(Spell(l)) == (if l.neg then -1 else 1)
    ensures Numeral(Unminused(Spell(l))) == Some(l.(neg := false))
    ensures !l.neg ==> Spell(l) != [] && Spell(l)[0] != MINUS
  {
    hide Scan, Numeral;
    FirstUnit(l);
    SecondUnit(l);
    Resigned(l, false);
    var m := l.(neg := false);
    FirstUnit(m);
    NumeralSpell(m);
  }

  lemma PlusNoNumeral(v: Text, s: Text, w: Text)
    requires AllSpaces(v)
    ensures Numeral(v + (([PLUS] + s) + w)) == None
  {
    hide Scan, Spell, IsSpace, SPACES;
    var t := v + (([PLUS] + s) + w);
    if v != [] {
      SpaceIs(v, 0);
      assert t[0] == v[0];
      SpacedNoNumeral(t, 0);
    } else if Numeral(t).Some? {
      assert t[0] == PLUS;
      NumeralUnits(Numeral(t).value);
    }
  }

  /** A literal, a literal behind a plus sign, or the name of a special value with or without a sign. */
  ghost predicate IsNumberText(s: Text)
  {
    || (exists l :: IsNumeral(l) && s == Spell(l))
    || (exists l :: IsNumeral(l) && !l.neg && s == [PLUS] + Spell(l))
    || (exists n, sign :: IsName(n) && IsMark(sign) && s == sign + n)
  }

  predicate IsName(n: Text) { n == Ascii("Infinity") || n == Ascii("NaN") }
  predicate IsMark(sign: Text) { sign == [] || sign == [PLUS] || sign == [MINUS] }

  lemma {:induction false} TrimParts(t: Text) returns (v: Text, w: Text)
    ensures AllSpaces(v) && AllSpaces(w) && t == v + (Trim(t) + w)
  {
    hide *;
    TrimCases(t);
    if t != [] { EndsOff(t); }
    if t == [] {
      NoSpace();
      v, w := [], [];
    } else if IsSpace(t[0]) {
      var u := t[1..];
      v, w := TrimParts(u);
      SpaceAdded(t[0], v);
      Grouped([t[0]], v, Trim(u) + w);
      v := [t[0]] + v;
    } else if IsSpace(t[|t| - 1]) {
      var u, last := t[..|t| - 1], t[|t| - 1];
      v, w := TrimParts(u);
      SpaceAdded(last, w);
      Appended(v, Trim(u), w, [last]);
      w := w + [last];
    } else {
      NoSpace();
      v, w := [], [];
      assert v + (t + w) == t;
    }
  }

  lemma TrimCases(t: Text)
    ensures Trim(t) == if t == [] then []
                       else if IsSpace(t[0]) then Trim(t[1..])
                       else if IsSpace(t[|t| - 1]) then Trim(t[..|t| - 1])
                       else t
  {
    hide IsSpace;
  }

  lemma EndsOff(t: Text)
    requires t != []
    ensures t == [t[0]] + t[1..] && t == t[..|t| - 1] + [t[|t| - 1]]
  {
  }

  lemma SpaceAdded(u: int, w: Text)
    requires IsSpace(u) && AllSpaces(w)
    ensures AllSpaces([u] + w) && AllSpaces(w + [u])
  {
    SpacesAre(u);
    hide SPACES;
  }

  lemma Appended(a: Text, b: Text, c: Text, d: Text)
    ensures (a + (b + c)) + d == a + (b + (c + d))
  {
  }

  /** What is left of a text that was read, without its white space. */
  lemma ReadCore(s: Text)
    requires Numeral(Unminused(Unplussed(s))).Some? || IsName(Unminused(Unplussed(s)))
    ensures IsNumberText(s)
  {
    hide Numeral, Spell, Ascii, IsNumeral;
    var n := Unplussed(s);
    var m := Unminused(n);
    assert n == s || (s == [PLUS] + n && (n == [] || n[0] != MINUS));
    assert m == n || (n == [MINUS] + m && (m == [] || m[0] != MINUS));
    if Numeral(m).Some? {
      CoreLiteral(s, n, m, Numeral(m).value);
    } else {
      var sign := if s == m then [] else if n == m then [PLUS] else [MINUS];
      assert [] + m == m;
      assert IsMark(sign) && s == sign + m;
    }
  }

  lemma CoreLiteral(s: Text, n: Text, m: Text, l: Literal)
    requires IsNumeral(l) && m == Spell(l)
    requires n == s || (s == [PLUS] + n && (n == [] || n[0] != MINUS))
    requires m == n || (n == [MINUS] + m && (m == [] || m[0] != MINUS))
    ensures IsNumberText(s)
  {
    hide Ascii, IsNumeral, Spell;
    FirstUnit(l);
    if m != n {
      var k := l.(neg := true);
      Resigned(l, true);
      FirstUnit(k);
      assert n == Spell(k) && IsNumeral(k);
    }
  }

  /** The constructor reads exactly these texts, with white space around them. */
  lemma ReadIff(t: Text, g: Settings)
    ensures ReadText(t, g) != None <==>
            exists v, s, w :: AllSpaces(v) && IsNumberText(s) && AllSpaces(w) && t == v + (s + w)
  {
    hide Numeral, Spell, Trim, Unplussed, Unminused, ReadLiteral, IsNumberText, AllSpaces, SignAt, Ascii;
    if ReadText(t, g) != None {
      if Numeral(t).Some? {
        NoSpace();
        var none: Text := [];
        assert IsNumberText(t) by { CoreLiteral(t, t, t, Numeral(t).value); }
        assert none + (t + none) == t;
      } else {
        var v, w := TrimParts(t);
        ReadCore(Trim(t));
      }
    }
    if v, s, w :| AllSpaces(v) && IsNumberText(s) && AllSpaces(w) && t == v + (s + w) {
      NumberTextRead(v, s, w, g);
    }
  }

  lemma NoSpace()
    ensures AllSpaces([])
  {
  }

  lemma NumberTextRead(v: Text, s: Text, w: Text, g: Settings)
    requires AllSpaces(v) && IsNumberText(s) && AllSpaces(w)
    ensures ReadText(v + (s + w), g) != None
  {
    hide Numeral, Spell, ReadLiteral, AllSpaces, Trim, IsNumeral, ReadText;
    if l :| IsNumeral(l) && s == Spell(l) {
      Spaced(v, l, w, g);
    } else if l :| IsNumeral(l) && !l.neg && s == [PLUS] + Spell(l) {
      Spaced(v, l, w, g);
    } else {
      var n, sign :| IsName(n) && IsMark(sign) && s == sign + n;
      NameRead(v, n, sign, w, g);
    }
  }

  lemma NameRead(v: Text, n: Text, sign: Text, w: Text, g: Settings)
    requires AllSpaces(v) && IsName(n) && IsMark(sign) && AllSpaces(w)
    ensures ReadText(v + ((sign + n) + w), g) != None
  {
    hide Numeral, ReadLiteral, AllSpaces, Trim, SPACES;
    var s := sign + n;
    assert n[0] == 'I' as int || n[0] == 'N' as int;
    assert n[|n| - 1] == 'y' as int || n[|n| - 1] == 'N' as int;
    assert s[|s| - 1] == n[|n| - 1];
    TrimBoth(v, s, w);
    assert sign != [] ==> s[1..] == n;
    assert sign == [] ==> s == n;
    assert Unminused(Unplussed(s)) == n;
  }

  // ----- escapes

  /** The escapes of JSON, RFC 8259 section 7: what stands behind the backslash, and what it stands for. */
  const MARKS: Text := Ascii("\"\\/bfnrt")
  const MARKED: Text := [0x22, 0x5c, 0x2f, 0x08, 0x0c, 0x0a, 0x0d, 0x09]

  /** The reader takes each of the short escapes for its character. */
  lemma ShortEscapes(t: Text, q: nat, i: nat)
    requires i < 8 && q + 1 < |t| && t[q] == BACKSLASH && t[q + 1] == MARKS[i]
    ensures StringBody(t, q) == Prepend(MARKED[i], StringBody(t, q + 2))
  {
    hide StringBody, HexRun;
    assert Escapee(MARKS[i]) == MARKED[i] && MARKS[i] != SMALL_U;
    BodyEscape(t, q);
  }

  /** And four hexadecimal digits in either case for the character with that number. */
  lemma LongEscapes(t: Text, q: nat, c: seq<int>)
    requires |c| == 4 && InBase(c, 16) && q + 6 <= |t| && t[q] == BACKSLASH && t[q + 1] == SMALL_U
    requires Shows(t[q + 2..q + 6], c)
    ensures StringBody(t, q) == Prepend(Val(c, 16), StringBody(t, q + 6))
  {
    hide StringBody, HexRun, Val, InBase, Shows;
    ShownHex(t, q, c);
    FourHex(t, q + 1, c);
    FourDigits(c);
    BodyEscape(t, q);
  }

  lemma ShownHex(t: Text, q: nat, c: seq<int>)
    requires |c| == 4 && InBase(c, 16) && q + 6 <= |t| && Shows(t[q + 2..q + 6], c)
    ensures forall i :: 0 <= i < 4 ==> HexIndex(CharAt(t, q + 1 + 1 + i)) == c[i]
  {
    hide DigitIndex, Lower;
    var u := t[q + 2..q + 6];
    forall i | 0 <= i < 4 ensures HexIndex(CharAt(t, q + 1 + 1 + i)) == c[i] {
      assert t[q + 2 + i] == u[i];
      DigitOf(c[i]);
    }
  }

  /** A unicode escape with fewer digits takes the character behind them with it. */
  lemma CutEscapes(t: Text, q: nat, c: seq<int>)
    requires |c| < 4 && InBase(c, 16) && q + 2 + |c| <= |t| && t[q] == BACKSLASH && t[q + 1] == SMALL_U
    requires Shows(t[q + 2..q + 2 + |c|], c)
    requires q + 2 + |c| < |t| ==> t[q + 2 + |c|] !in DIGITS[..16] && t[q + 2 + |c|] !in CAPITALS[..16]
    ensures StringBody(t, q) == Prepend(Val(c, 16), StringBody(t, q + 3 + |c|))
  {
    hide StringBody, HexRun, Val, InBase, Shows;
    var n := |c|;
    forall i | 0 <= i < n ensures HexIndex(CharAt(t, q + 2 + i)) == c[i] { ShownUnit(t, q + 2, c, i); }
    NoHex(CharAt(t, q + 2 + n));
    HexDigit(c);
    ShortRun(t, q + 1, c, 4, 0);
    BodyEscape(t, q);
  }

  lemma HexDigit(c: seq<int>)
    requires InBase(c, 16)
    ensures forall i :: 0 <= i < |c| ==> 0 <= c[i] < 16
  {
  }

  lemma ShownUnit(t: Text, q: nat, c: seq<int>, i: nat)
    requires i < |c| && InBase(c, 16) && q + |c| <= |t| && Shows(t[q..q + |c|], c)
    ensures HexIndex(CharAt(t, q + i)) == c[i]
  {
    hide DigitIndex, Lower;
    assert t[q + i] == t[q..q + |c|][i];
    DigitOf(c[i]);
  }

  lemma NoHex(u: int)
    ensures HexIndex(u) == -1 || u in DIGITS[..16] || u in CAPITALS[..16]
  {
    if HexIndex(u) >= 0 {
      var d := HexIndex(u);
      Listed(d);
      assert DIGITS[..16][d] == DIGITS[d] && CAPITALS[..16][d] == CAPITALS[d];
    }
  }

  /** The run of digits ends behind the first character that is none. */
  lemma {:induction false} ShortRun(t: Text, j: int, c: seq<int>, n: nat, acc: int)
    requires 0 <= j && |c| < n && forall i :: 0 <= i < |c| ==> HexIndex(CharAt(t, j + 1 + i)) == c[i] >= 0
    requires HexIndex(CharAt(t, j + 1 + |c|)) < 0
    ensures HexRun(t, j, n, acc) == (acc * Pow(16, |c|) + Val(c, 16), j + 1 + |c|)
    decreases |c|
  {
    hide HexIndex, CharAt, Val, Pow;
    PowStep(16, 0);
    if c == [] {
      ValEmpty(16);
    } else {
      var d := c[1..];
      forall i | 0 <= i < |d| ensures HexIndex(CharAt(t, j + 1 + 1 + i)) == d[i] >= 0 {
        assert HexIndex(CharAt(t, j + 1 + (i + 1))) == c[i + 1];
      }
      assert HexIndex(CharAt(t, j + 1 + 0)) == c[0];
      ShortRun(t, j + 1, d, n - 1, acc * 16 + c[0]);
      assert c == [c[0]] + d;
      ValConcat([c[0]], d, 16);
      ValOne(c[0], 16);
      PowStep(16, |d|);
      var p := Pow(16, |d|);
      Distribute2(acc * 16, c[0], p);
      MulAssoc3(acc, 16, p);
    }
  }

  /** Every other character in a string stands for itself. */
  lemma RawCharacters(t: Text, q: nat)
    requires q < |t| && t[q] >= 0 && t[q] != QUOTE && t[q] != BACKSLASH
    ensures StringBody(t, q) == Prepend(t[q], StringBody(t, q + 1))
  {
    hide StringBody;
    BodyPlain(t, q);
  }

  /** The printer writes those it has a short escape for in this way. */
  lemma ShortWritten(i: nat)
    requires i < 8 && i != 2
    ensures Escaped(MARKED[i]) == [BACKSLASH, MARKS[i]]
  {
    assert Meta(MARKED[i]) == MARKS[i];
  }
}
