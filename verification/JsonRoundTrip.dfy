/**
 Printing a value and reading the text back: what comes out, for every value,
 every indentation and every place in a text.
 */
module JsonRoundTrip {
  import opened Digits
  import opened Numbers
  import opened Arithmetic
  import opened Laws
  import opened Numerals
  import opened NumberText
  import opened Bases
  import opened Doubles
  import opened JsonCodec

  // ----- what a value comes back as

  /** A big number comes back as one only if it is beyond the integers of 53 bits; a zero loses its sign. */
  function SettleNumber(x: Number): Json
    requires Valid(x) && Finite(x)
  {
    if AboveInteger(Nearby(x)) then Big(x) else Plain(AsNumber(Kept(x).s, Nearby(x)))
  }

  /** Numbers a JSON text can carry: integers of the host up to 2^53, finite big numbers in range. */
  predicate Portable(v: Json, g: Settings)
  {
    match v
    case Plain(x) => IsInteger(x)
    case Big(x) => Valid(x) && Finite(x) && InRange(x, g)
    case Str(s) => IsText(s)
    case Arr(vs) => forall i :: 0 <= i < |vs| ==> Portable(vs[i], g)
    case Obj(es) =>
      && (forall i :: 0 <= i < |es| ==> IsText(es[i].key) && es[i].key != PROTO && Portable(es[i].value, g))
      && (forall i, j :: 0 <= i < j < |es| ==> es[i].key != es[j].key)
    case _ => true
  }

  lemma PortablePrintable(v: Json, g: Settings)
    requires Portable(v, g)
    ensures Printable(v)
    decreases v
  {
    match v
    case Arr(vs) => forall i | 0 <= i < |vs| ensures Printable(vs[i]) { PortablePrintable(vs[i], g); }
    case Obj(es) => forall i | 0 <= i < |es| ensures Printable(es[i].value) { PortablePrintable(es[i].value, g); }
    case _ =>
  }

  /** No number in the value is so large that its double is infinite. */
  predicate Readable(v: Json, g: Settings)
    requires Portable(v, g)
  {
    match v
    case Big(x) => !Overflows(Nearby(x))
    case Arr(vs) => forall i :: 0 <= i < |vs| ==> Readable(vs[i], g)
    case Obj(es) => forall i :: 0 <= i < |es| ==> Readable(es[i].value, g)
    case _ => true
  }

  function Settle(v: Json, g: Settings): Json
    requires Portable(v, g)
    decreases v
  {
    match v
    case Plain(x) => Plain(Kept(x))
    case Big(x) => SettleNumber(x)
    case Arr(vs) => Arr(SettleItems(vs, g))
    case Obj(es) => Obj(SettleEntries(es, g))
    case _ => v
  }

  function SettleItems(vs: seq<Json>, g: Settings): (r: seq<Json>)
    requires forall i :: 0 <= i < |vs| ==> Portable(vs[i], g)
    ensures |r| == |vs| && forall i :: 0 <= i < |vs| ==> r[i] == Settle(vs[i], g)
    decreases vs
  {
    seq(|vs|, i requires 0 <= i < |vs| => Settle(vs[i], g))
  }

  function SettleEntries(es: seq<Entry>, g: Settings): (r: seq<Entry>)
    requires forall i :: 0 <= i < |es| ==> Portable(es[i].value, g)
    ensures |r| == |es| && forall i :: 0 <= i < |es| ==> r[i] == Entry(es[i].key, Settle(es[i].value, g))
    decreases es
  {
    seq(|es|, i requires 0 <= i < |es| => Entry(es[i].key, Settle(es[i].value, g)))
  }

  // ----- texts within texts

  predicate Stands(t: Text, p: int, s: Text)
  {
    0 <= p && p + |s| <= |t| && t[p..p + |s|] == s
  }

  lemma Split(t: Text, p: int, a: Text, b: Text)
    requires Stands(t, p, a + b)
    ensures Stands(t, p, a) && Stands(t, p + |a|, b) && |a + b| == |a| + |b|
  {
    assert t[p..p + |a|] == t[p..p + |a + b|][..|a|];
    assert t[p + |a|..p + |a| + |b|] == t[p..p + |a + b|][|a|..];
  }

  lemma FirstOf(t: Text, p: int, s: Text)
    requires Stands(t, p, s) && s != []
    ensures CharAt(t, p) == s[0] && Stands(t, p, [s[0]])
  {
    assert t[p] == t[p..p + |s|][0];
    assert t[p..p + 1] == [t[p]];
  }

  /** What may stand behind a value. */
  predicate Ends(t: Text, p: int)
    requires 0 <= p
  {
    var u := CharAt(t, p);
    u == END || Blank(u) || u == COMMA || u == CLOSE_BRACKET || u == CLOSE_BRACE
  }

  predicate IsGap(s: Text)
  {
    forall i :: 0 <= i < |s| ==> Blank(s[i])
  }

  lemma {:induction false} WhiteIs(t: Text, p: int, q: int)
    requires -1 <= p <= q <= |t| && 0 <= q && !Blank(CharAt(t, q))
    requires forall k :: p <= k < q ==> Blank(CharAt(t, k))
    ensures White(t, p) == q
    decreases q - p
  {
    if p < q {
      WhiteIs(t, p + 1, q);
    }
  }

  /** A gap with something that is not blank behind it is skipped. */
  lemma GapSkipped(t: Text, p: int, gap: Text)
    requires Stands(t, p, gap) && IsGap(gap) && !Blank(CharAt(t, p + |gap|))
    ensures White(t, p) == p + |gap|
  {
    forall k | p <= k < p + |gap| ensures Blank(CharAt(t, k)) {
      assert t[k] == t[p..p + |gap|][k - p];
    }
    WhiteIs(t, p, p + |gap|);
  }

  lemma ValueSkips(t: Text, p: int, q: int, g: Settings)
    requires -1 <= p <= q <= |t| && White(t, p) == q
    ensures ValueAt(t, p, g) == ValueAt(t, q, g)
  {
    hide ArrayAt, ObjectAt, StringAt, NumberAt, WordAt;
  }

  // ----- strings

  /** The four digits of a unicode escape. */
  function HexDigits(u: nat): (c: seq<int>)
  {
    var d := Zeros(4) + BaseDigits(u, 16);
    d[|d| - 4..]
  }

  lemma HexMeaning(u: nat)
    requires u < 0x10000
    ensures var c := HexDigits(u); |c| == 4 && InBase(c, 16) && Val(c, 16) == u && HexText(u) == Chars(c)
  {
    hide Val, Pow;
    var b, c := BaseDigits(u, 16), HexDigits(u);
    ShortHex(u);
    assert Zeros(4) + b == Zeros(|b|) + c;
    LeadingZeros(4, b, 16);
    LeadingZeros(|b|, c, 16);
  }

  lemma ShortHex(u: nat)
    requires u < 0x10000
    ensures |BaseDigits(u, 16)| <= 4
  {
    hide Val;
    var b := BaseDigits(u, 16);
    assert Pow(16, 4) == 0x10000;
    if u > 0 {
      ValLead(b, 16);
      if |b| > 4 {
        PowMono(16, 4, |b| - 1);
      }
    }
  }

  lemma FourDigits(c: seq<int>)
    requires |c| == 4
    ensures Val(c, 16) == ((c[0] * 16 + c[1]) * 16 + c[2]) * 16 + c[3]
  {
    ValOne(c[0], 16);
    assert c[..3][..2] == c[..2] && c[..2][..1] == [c[0]];
    ValStep(c, 16);
    ValStep(c[..3], 16);
    ValStep(c[..2], 16);
  }

  lemma HexRead(t: Text, q: int, u: nat)
    requires u < 0x10000 && Stands(t, q + 1, HexText(u)) && 0 <= q
    ensures HexRun(t, q, 4, 0) == (u, q + 4)
  {
    hide Val, HexText, HexDigits, Chars;
    HexMeaning(u);
    var c := HexDigits(u);
    forall i | 0 <= i < 4 ensures HexIndex(CharAt(t, q + 1 + i)) == c[i] {
      assert t[q + 1 + i] == t[q + 1..q + 5][i] == DigitChar(c[i]);
    }
    FourDigits(c);
    FourHex(t, q, c);
  }

  lemma FourHex(t: Text, q: int, c: seq<int>)
    requires 0 <= q && |c| == 4 && InBase(c, 16)
    requires forall i :: 0 <= i < 4 ==> HexIndex(CharAt(t, q + 1 + i)) == c[i]
    ensures HexRun(t, q, 4, 0) == (((c[0] * 16 + c[1]) * 16 + c[2]) * 16 + c[3], q + 4)
  {
    hide HexIndex, CharAt;
    assert HexIndex(CharAt(t, q + 1 + 0)) == c[0] && HexIndex(CharAt(t, q + 1 + 1)) == c[1];
    assert HexIndex(CharAt(t, q + 1 + 2)) == c[2] && HexIndex(CharAt(t, q + 1 + 3)) == c[3];
    var x, y := c[0], c[0] * 16 + c[1];
    var z := y * 16 + c[2];
    assert HexRun(t, q + 4, 0, z * 16 + c[3]) == (z * 16 + c[3], q + 4);
    assert HexRun(t, q + 3, 1, z) == (z * 16 + c[3], q + 4);
    assert HexRun(t, q + 2, 2, y) == (z * 16 + c[3], q + 4);
    assert HexRun(t, q + 1, 3, x) == (z * 16 + c[3], q + 4);
  }

  /** Every escape is read as the character it was written for. */
  lemma EscapeRead(t: Text, q: int, u: int)
    requires 0 <= u < 0x10000 && Stands(t, q, Escaped(u))
    ensures StringBody(t, q) == Prepend(u, StringBody(t, q + |Escaped(u)|))
  {
    hide StringBody, Escapable, HexText, Meta, CharAt, HexRun, Escapee;
    assert 0 <= q;
    hide Stands;
    if !Escapable(u) {
      NotEscapable(u);
      FirstOf(t, q, [u]);
      BodyPlain(t, q);
    } else if Meta(u) != -1 {
      MetaRead(t, q, u);
    } else {
      HexEscapeRead(t, q, u);
    }
  }

  lemma MetaRead(t: Text, q: int, u: int)
    requires 0 <= q && Meta(u) != -1 && Stands(t, q, [BACKSLASH, Meta(u)])
    ensures StringBody(t, q) == Prepend(u, StringBody(t, q + 2))
  {
    hide StringBody, Stands, HexRun;
    assert [BACKSLASH, Meta(u)] == [BACKSLASH] + [Meta(u)];
    Split(t, q, [BACKSLASH], [Meta(u)]);
    FirstOf(t, q, [BACKSLASH]);
    FirstOf(t, q + 1, [Meta(u)]);
    hide CharAt;
    BodyEscape(t, q);
  }

  lemma HexEscapeRead(t: Text, q: int, u: nat)
    requires 0 <= q && u < 0x10000 && Stands(t, q, [BACKSLASH, SMALL_U] + HexText(u))
    ensures StringBody(t, q) == Prepend(u, StringBody(t, q + |[BACKSLASH, SMALL_U] + HexText(u)|))
  {
    hide StringBody, Stands, HexRun, HexText, HexDigits, Val, CharAt, Escapee, InBase;
    HexMeaning(u);
    assert [BACKSLASH, SMALL_U] == [BACKSLASH] + [SMALL_U];
    Split(t, q, [BACKSLASH, SMALL_U], HexText(u));
    Split(t, q, [BACKSLASH], [SMALL_U]);
    FirstOf(t, q, [BACKSLASH]);
    FirstOf(t, q + 1, [SMALL_U]);
    HexRead(t, q + 1, u);
    BodyEscape(t, q);
  }

  lemma BodyEnd(t: Text, q: int)
    requires 0 <= q && CharAt(t, q) == QUOTE
    ensures StringBody(t, q) == Ok([], q + 1)
  {
  }

  lemma BodyPlain(t: Text, q: int)
    requires 0 <= q && CharAt(t, q) != END && CharAt(t, q) != QUOTE && CharAt(t, q) != BACKSLASH
    ensures StringBody(t, q) == Prepend(CharAt(t, q), StringBody(t, q + 1))
  {
  }

  lemma BodyEscape(t: Text, q: int)
    requires 0 <= q && CharAt(t, q) == BACKSLASH
    ensures var e := CharAt(t, q + 1);
            && (e == SMALL_U ==>
                  var (h, j) := HexRun(t, q + 1, 4, 0); StringBody(t, q) == Prepend(h, StringBody(t, j + 1)))
            && (e != SMALL_U && Escapee(e) != -1 ==> StringBody(t, q) == Prepend(Escapee(e), StringBody(t, q + 2)))
  {
    hide HexRun;
  }

  lemma NotEscapable(u: int)
    requires !Escapable(u)
    ensures u != QUOTE && u != BACKSLASH
  {
  }

  lemma {:induction false} BodyRead(t: Text, q: int, s: Text)
    requires IsText(s) && Stands(t, q, EscapedText(s) + [QUOTE])
    ensures StringBody(t, q) == Ok(s, q + |EscapedText(s)| + 1)
    decreases |s|
  {
    hide Escaped, HexRun, Escapee, Escapable, Meta, StringBody, CharAt;
    if s == [] {
      assert [] + [QUOTE] == [QUOTE];
      FirstOf(t, q, [QUOTE]);
      BodyEnd(t, q);
    } else {
      hide Stands;
      var a, b := Escaped(s[0]), EscapedText(s[1..]) + [QUOTE];
      assert EscapedText(s) + [QUOTE] == a + b;
      Split(t, q, a, b);
      EscapeRead(t, q, s[0]);
      BodyRead(t, q + |a|, s[1..]);
      assert s == [s[0]] + s[1..];
    }
  }

  lemma StringRead(t: Text, p: int, s: Text)
    requires IsText(s) && Stands(t, p, Quote(s))
    ensures StringAt(t, p) == Ok(s, p + |Quote(s)|) && CharAt(t, p) == QUOTE
  {
    hide StringBody, EscapedText;
    Split(t, p, [QUOTE], EscapedText(s) + [QUOTE]);
    FirstOf(t, p, [QUOTE]);
    BodyRead(t, p + 1, s);
  }

  // ----- numbers

  lemma LiteralScanned(t: Text, p: int, l: Literal)
    requires WellFormed(l) && Stands(t, p, Spell(l)) && Ends(t, p + |Spell(l)|)
    ensures Scan(t, p) == (l, p + |Spell(l)|)
  {
    hide Scan, Spell, WellFormed;
    var q := p + |Spell(l)|;
    assert t == t[..p] + (Spell(l) + t[q..]);
    ScanSpell(t[..p], l, t[q..]);
  }

  /** The literal written for a number denotes exactly that number; a zero loses its sign. */
  lemma LiteralExact(x: Number, expNeg: int, expPos: int)
    requires Valid(x) && Finite(x)
    ensures IsNumeral(LiteralOf(x, expNeg, expPos)) && Unrounded(LiteralOf(x, expNeg, expPos)) == Kept(x)
  {
    hide Val, Pow, Exact, Mag;
    LiteralShape(x, expNeg, expPos);
    LiteralValue(x, expNeg, expPos);
    var l := LiteralOf(x, expNeg, expPos);
    var k := |l.fp| - ExponentOf(l);
    MagPositive(x, k);
    if !IsZero(x) {
      ExactOf(x, k);
    }
  }

  lemma NearbyZero()
    ensures forall s :: (s == 1 || s == -1) ==> Nearby(Zero(s)) == ToDouble(0, 1)
  {
    hide Up, Down;
    ValOne(0, 10);
  }

  lemma KeptNearby(x: Number)
    requires Valid(x) && Finite(x)
    ensures Valid(Kept(x)) && Finite(Kept(x)) && Nearby(Kept(x)) == Nearby(x)
  {
    hide ToDouble, Val, Pow;
    if IsZero(x) {
      NearbyZero();
    }
  }

  lemma ZeroBelow()
    ensures !AboveInteger(ToDouble(0, 1)) && !Overflows(ToDouble(0, 1))
  {
    hide Pow, ToDouble;
    AboveIff(0, 1);
    OverflowIff(0, 1);
    TopPowers();
  }

  /** What a number literal written for `x` is read as. */
  lemma NumberRead(t: Text, p: int, x: Number, expNeg: int, expPos: int, g: Settings)
    requires Valid(x) && Finite(x) && (AboveInteger(Nearby(x)) ==> InRange(x, g)) && (g.hi.AtMost? ==> g.hi.n > 0)
    requires Stands(t, p, TextOf(x, expNeg, expPos)) && Ends(t, p + |TextOf(x, expNeg, expPos)|)
    ensures NumberAt(t, p, g) == if Overflows(Nearby(x)) then Fail(BadNumber)
                                 else Ok(SettleNumber(x), p + |TextOf(x, expNeg, expPos)|)
  {
    hide Scan, Spell, LiteralOf, ReadLiteral, Unrounded, ToDouble, AboveInteger, Overflows, Pow, Val, AsNumber;
    var l := LiteralOf(x, expNeg, expPos);
    LiteralExact(x, expNeg, expPos);
    LiteralScanned(t, p, l);
    KeptNearby(x);
    if AboveInteger(Nearby(x)) {
      LiteralRead(x, expNeg, expPos, g);
    }
    if IsZero(x) {
      NearbyZero();
      ZeroBelow();
    }
  }

  /** An integer of the host comes back as itself. */
  lemma IntegerSettles(x: Number)
    requires IsInteger(x)
    ensures SettleNumber(x) == Plain(Kept(x)) && !AboveInteger(Nearby(x)) && !Overflows(Nearby(x))
  {
    hide Pow, ToDouble, AboveInteger, Overflows, AsNumber, Exact, Mag, Nearby;
    MagPositive(x, 0);
    var n := MagOf(x, 0);
    IntegerNearby(x);
    AboveIff(n, 1);
    OverflowIff(n, 1);
    LimitLarge();
    IntegerIsDouble(Kept(x).s, n);
    if IsZero(x) { ExactZero(1, 0); } else { ExactOf(x, 0); }
  }

  lemma IntegerNearby(x: Number)
    requires IsInteger(x)
    ensures MagOf(x, 0) >= 0 && Nearby(x) == ToDouble(MagOf(x, 0), 1)
  {
    hide ToDouble, Mag;
    MagPositive(x, 0);
  }

  lemma LimitLarge()
    ensures Pow(2, MAX_BITS) - Pow(2, 970) > FULL + 1
  {
    hide Pow;
    TopPowers();
    MulMono(1, Pow(2, 970), FULL);
  }

  lemma NumberStart(x: Number, expNeg: int, expPos: int)
    requires Valid(x) && Finite(x)
    ensures var t := TextOf(x, expNeg, expPos); t != [] && (t[0] == MINUS || IsDigit(t[0]))
  {
    hide DigitsOf, Spelled, SpellFraction, SpellExponent, Val;
    var l := LiteralOf(x, expNeg, expPos);
    LiteralShape(x, expNeg, expPos);
    assert l.ip != [];
    assert Spelled(l.ip)[0] == ZERO + l.ip[0];
  }

  // ----- arrays and objects

  /** The lines between the parts: nothing without a gap. */
  function Line(gap: Text, indent: Text): Text
  {
    if gap != [] then [NEWLINE] + indent else []
  }

  lemma WrappedShape(open: int, parts: seq<Text>, close: int, gap: Text, mind: Text)
    requires parts != []
    ensures Wrapped(open, parts, close, gap, mind) ==
            [open] + (Line(gap, gap) + (Join(parts, [COMMA] + Line(gap, gap)) + (Line(gap, mind) + [close])))
  {
    hide Join;
    if gap != [] {
      assert [COMMA, NEWLINE] + gap == [COMMA] + Line(gap, gap);
      Regrouped([open], [NEWLINE], gap, Join(parts, [COMMA] + Line(gap, gap)), [NEWLINE], mind, [close]);
      assert [open] + [NEWLINE] == [open, NEWLINE];
    } else {
      assert [COMMA] + [] == [COMMA];
      assert [] + Join(parts, [COMMA]) == Join(parts, [COMMA]) && [] + [close] == [close];
    }
  }

  lemma Regrouped(a: Text, b: Text, c: Text, d: Text, e: Text, f: Text, g: Text)
    ensures (a + b) + c + d + e + f + g == a + ((b + c) + (d + ((e + f) + g)))
  {
  }

  lemma LineGap(gap: Text, indent: Text)
    requires IsGap(indent)
    ensures IsGap(Line(gap, indent))
  {
  }

  /** Behind the last part comes the closing character, and behind it nothing that matters. */
  lemma MoreAtEnd(t: Text, n: int, tail: Text, close: int)
    requires IsGap(tail) && (close == CLOSE_BRACKET || close == CLOSE_BRACE) && Stands(t, n, tail + [close])
    ensures More(t, n, close) == Ok(false, n + |tail| + 1) && Ends(t, n)
  {
    hide White;
    Split(t, n, tail, [close]);
    FirstOf(t, n + |tail|, [close]);
    GapSkipped(t, n, tail);
    if tail != [] { FirstOf(t, n, tail); }
  }

  lemma MoreAtComma(t: Text, n: int, lead: Text, close: int, next: Text)
    requires IsGap(lead) && (close == CLOSE_BRACKET || close == CLOSE_BRACE)
    requires next != [] && !Blank(next[0]) && Stands(t, n, ([COMMA] + lead) + next)
    ensures More(t, n, close) == Ok(true, n + 1 + |lead|) && Ends(t, n)
    ensures Stands(t, n + 1 + |lead|, next)
  {
    hide White;
    Split(t, n, [COMMA] + lead, next);
    Split(t, n, [COMMA], lead);
    FirstOf(t, n, [COMMA]);
    FirstOf(t, n + 1 + |lead|, next);
    GapSkipped(t, n + 1, lead);
    WhiteIs(t, n, n);
  }

  // ----- values

  /** What is read at a position is the value, or the error its numbers cause. */
  ghost predicate Reads(t: Text, p: int, size: int, v: Json, g: Settings)
    requires 0 <= p <= |t| && Portable(v, g)
  {
    ValueAt(t, p, g) == if Readable(v, g) then Ok(Settle(v, g), p + size) else Fail(BadNumber)
  }

  /** No text of a value starts like white space or like the end of an array or object. */
  lemma Starts(v: Json, gap: Text, st: Style, g: Settings)
    requires Portable(v, g) && Printable(v)
    ensures var s := Print(v, gap, st);
            s != [] && !Blank(s[0]) && s[0] != END && s[0] != CLOSE_BRACKET && s[0] != CLOSE_BRACE
  {
    hide TextOf, ItemTexts, EntryTexts, EscapedText, Join, IsInteger;
    match v
    case Plain(x) => PlainText(x, st); NumberStart(x, -7, 21);
    case Big(x) => NumberStart(x, st.expNeg, st.expPos);
    case _ =>
  }

  lemma PlainText(x: Number, st: Style)
    requires IsInteger(x)
    ensures Valid(x) && Finite(x) && HostText(x, st) == TextOf(x, -7, 21)
  {
  }

  /** `ValueAt` on a text that starts at once. */
  lemma Dispatch(t: Text, p: int, g: Settings)
    requires 0 <= p <= |t| && !Blank(CharAt(t, p))
    ensures White(t, p) == p
    ensures var u := CharAt(t, p);
            && (u == OPEN_BRACE ==> ValueAt(t, p, g) == ObjectAt(t, p, g))
            && (u == OPEN_BRACKET ==> ValueAt(t, p, g) == ArrayAt(t, p, g))
            && (u == QUOTE && StringAt(t, p).Ok? ==>
                  ValueAt(t, p, g) == Ok(Str(StringAt(t, p).value), StringAt(t, p).next))
            && (u == MINUS || IsDigit(u) ==> ValueAt(t, p, g) == NumberAt(t, p, g))
            && (u == 't' as int || u == 'f' as int || u == 'n' as int ==> ValueAt(t, p, g) == WordAt(t, p))
  {
    hide ArrayAt, ObjectAt, StringAt, NumberAt, WordAt;
  }

  lemma {:induction false} WordRead(t: Text, p: int, word: Text)
    requires Stands(t, p, word) && forall i :: 0 <= i < |word| ==> word[i] != END
    ensures Match(t, p, word) == Ok((), p + |word|)
    decreases |word|
  {
    if word != [] {
      assert word == [word[0]] + word[1..];
      Split(t, p, [word[0]], word[1..]);
      FirstOf(t, p, word);
      WordRead(t, p + 1, word[1..]);
    }
  }

  lemma ReadsWord(t: Text, p: int, v: Json, st: Style, g: Settings)
    requires v.Null? || v.Bool?
    requires Stands(t, p, Print(v, [], st))
    ensures Reads(t, p, |Print(v, [], st)|, v, g)
  {
    hide Match, White;
    var s := Print(v, [], st);
    FirstOf(t, p, s);
    WordRead(t, p, s);
    Dispatch(t, p, g);
  }

  lemma ReadsNumber(t: Text, p: int, v: Json, st: Style, g: Settings)
    requires (v.Plain? || v.Big?) && Portable(v, g) && Printable(v) && (g.hi.AtMost? ==> g.hi.n > 0)
    requires var s := Print(v, [], st); Stands(t, p, s) && Ends(t, p + |s|)
    ensures Reads(t, p, |Print(v, [], st)|, v, g)
  {
    hide TextOf, IsInteger, HostText, NumberAt, White, ValueAt, SettleNumber, Nearby, Overflows, IsDigit, InRange;
    var s := Print(v, [], st);
    Starts(v, [], st, g);
    FirstOf(t, p, s);
    Dispatch(t, p, g);
    match v
    case Plain(x) =>
      PlainText(x, st);
      NumberStart(x, -7, 21);
      IntegerSettles(x);
      NumberRead(t, p, x, -7, 21, g);
    case Big(x) =>
      NumberStart(x, st.expNeg, st.expPos);
      NumberRead(t, p, x, st.expNeg, st.expPos, g);
  }

  lemma JoinFrom(parts: seq<Text>, k: nat, sep: Text)
    requires k < |parts|
    ensures Join(parts[k..], sep) ==
            if k + 1 == |parts| then parts[k] else parts[k] + (sep + Join(parts[k + 1..], sep))
  {
    assert parts[k..][1..] == parts[k + 1..];
  }

  /** The text of the parts from `k` on and of what closes them. */
  function Rest(parts: seq<Text>, k: nat, sep: Text, tail: Text): Text
    requires k <= |parts|
  {
    Join(parts[k..], sep) + tail
  }

  lemma RestFrom(parts: seq<Text>, k: nat, sep: Text, tail: Text)
    requires k < |parts|
    ensures Rest(parts, k, sep, tail) ==
            parts[k] + if k + 1 == |parts| then tail else sep + Rest(parts, k + 1, sep, tail)
  {
    hide Join;
    JoinFrom(parts, k, sep);
    if k + 1 < |parts| {
      var j := Join(parts[k + 1..], sep);
      assert (parts[k] + (sep + j)) + tail == parts[k] + (sep + (j + tail));
    }
  }

  /** Behind part `k`: its end, and what `More` finds there. */
  lemma BehindPart(t: Text, q: int, parts: seq<Text>, k: nat, lead: Text, tail: Text, close: int)
    requires k < |parts| && IsGap(lead) && IsGap(tail) && (close == CLOSE_BRACKET || close == CLOSE_BRACE)
    requires Stands(t, q, Rest(parts, k, [COMMA] + lead, tail + [close]))
    requires k + 1 < |parts| ==> parts[k + 1] != [] && !Blank(parts[k + 1][0])
    ensures var n := q + |parts[k]|;
            && Stands(t, q, parts[k]) && Ends(t, n)
            && (k + 1 == |parts| ==>
                  More(t, n, close) == Ok(false, q + |Rest(parts, k, [COMMA] + lead, tail + [close])|))
            && (k + 1 < |parts| ==>
                  More(t, n, close) == Ok(true, n + 1 + |lead|) &&
                  Stands(t, n + 1 + |lead|, Rest(parts, k + 1, [COMMA] + lead, tail + [close])) &&
                  n + 1 + |lead| + |Rest(parts, k + 1, [COMMA] + lead, tail + [close])| ==
                    q + |Rest(parts, k, [COMMA] + lead, tail + [close])|)
  {
    hide More, Rest, Ends, Stands;
    var sep, tl := [COMMA] + lead, tail + [close];
    RestFrom(parts, k, sep, tl);
    if k + 1 == |parts| {
      Split(t, q, parts[k], tl);
      MoreAtEnd(t, q + |parts[k]|, tail, close);
    } else {
      var next := Rest(parts, k + 1, sep, tl);
      RestFrom(parts, k + 1, sep, tl);
      assert next[0] == parts[k + 1][0];
      Split(t, q, parts[k], sep + next);
      MoreAtComma(t, q + |parts[k]|, lead, close, next);
    }
  }

  lemma PrefixOfDrop<T>(s: seq<T>, k: nat)
    requires k < |s|
    ensures s[k..] == [s[k]] + s[k + 1..] && (k + 1 == |s| ==> s[k..] == [s[k]] + [])
  {
  }

  predicate AllReadable(vs: seq<Json>, k: nat, g: Settings)
    requires forall i :: 0 <= i < |vs| ==> Portable(vs[i], g)
  {
    forall i :: k <= i < |vs| ==> Readable(vs[i], g)
  }

  lemma AllReadableStep(vs: seq<Json>, k: nat, g: Settings)
    requires k < |vs| && forall i :: 0 <= i < |vs| ==> Portable(vs[i], g)
    ensures AllReadable(vs, k, g) <==> Readable(vs[k], g) && AllReadable(vs, k + 1, g)
    ensures AllReadable(vs, |vs|, g)
  {
    hide Readable, Portable;
  }

  /** One step of `Elements`. */
  lemma ElementsCase(t: Text, q: int, g: Settings)
    requires 0 <= q <= |t| && CharAt(t, q) != END
    ensures match ValueAt(t, q, g)
            case Fail(e) => Elements(t, q, g) == Fail(e)
            case Ok(v, n) =>
              match More(t, n, CLOSE_BRACKET)
              case Fail(e) => Elements(t, q, g) == Fail(e)
              case Ok(more, m) => Elements(t, q, g) == Prepend(v, if more then Elements(t, m, g) else Ok([], m))
  {
    hide ValueAt, More;
  }

  lemma ReadsItems(t: Text, q: int, vs: seq<Json>, k: nat, gap: Text, mind: Text, st: Style, g: Settings)
    requires k < |vs| && IsGap(gap) && IsGap(mind) && IsGap(st.indent) && (g.hi.AtMost? ==> g.hi.n > 0)
    requires forall i :: 0 <= i < |vs| ==> Portable(vs[i], g) && Printable(vs[i])
    requires Stands(t, q, Rest(ItemTexts(vs, gap, st), k, [COMMA] + Line(gap, gap), Line(gap, mind) + [CLOSE_BRACKET]))
    ensures var size := |Rest(ItemTexts(vs, gap, st), k, [COMMA] + Line(gap, gap), Line(gap, mind) + [CLOSE_BRACKET])|;
            Elements(t, q, g) ==
              if AllReadable(vs, k, g) then Ok(SettleItems(vs, g)[k..], q + size) else Fail(BadNumber)
    decreases vs, |vs| - k
  {
    hide Rest, Ends, ValueAt, More, IsGap, Line, CharAt, Print, Settle, Portable, Readable, Printable, Elements,
      AllReadable;
    var parts := ItemTexts(vs, gap, st);
    var lead, tail := Line(gap, gap), Line(gap, mind);
    LineGap(gap, gap);
    LineGap(gap, mind);
    Starts(vs[k], gap, st, g);
    if k + 1 < |vs| {
      Starts(vs[k + 1], gap, st, g);
    }
    BehindPart(t, q, parts, k, lead, tail, CLOSE_BRACKET);
    FirstOf(t, q, parts[k]);
    ReadsBack(t, q, vs[k], gap, st, g);
    ElementsCase(t, q, g);
    PrefixOfDrop(SettleItems(vs, g), k);
    AllReadableStep(vs, k, g);
    if k + 1 < |vs| {
      ReadsItems(t, q + |parts[k]| + 1 + |lead|, vs, k + 1, gap, mind, st, g);
    }
  }

  /** The first step of `ArrayAt`. */
  lemma ArrayCase(t: Text, p: int, g: Settings)
    requires 0 <= p < |t|
    ensures var q := White(t, p + 1);
            ArrayAt(t, p, g) ==
              if CharAt(t, q) == CLOSE_BRACKET then Ok(Arr([]), q + 1)
              else match Elements(t, q, g) case Fail(e) => Fail(e) case Ok(vs, n) => Ok(Arr(vs), n)
  {
    hide White, Elements;
  }

  /** An opening and a closing character, with nothing in between. */
  lemma Empty(t: Text, p: int, start: int, close: int)
    requires Stands(t, p, [start, close]) && !Blank(close)
    ensures White(t, p + 1) == p + 1 && CharAt(t, p) == start && CharAt(t, p + 1) == close
  {
    assert [start, close] == [start] + [close];
    Split(t, p, [start], [close]);
    FirstOf(t, p, [start]);
    FirstOf(t, p + 1, [close]);
    WhiteIs(t, p + 1, p + 1);
  }

  lemma ReadsArray(t: Text, p: int, vs: seq<Json>, gap: Text, st: Style, g: Settings)
    requires IsGap(gap) && IsGap(st.indent) && (g.hi.AtMost? ==> g.hi.n > 0)
    requires Portable(Arr(vs), g) && Printable(Arr(vs)) && Stands(t, p, Print(Arr(vs), gap, st))
    ensures Reads(t, p, |Print(Arr(vs), gap, st)|, Arr(vs), g)
    decreases vs, |vs| + 1
  {
    hide Rest, IsGap, Line, Elements, White, Join, ItemTexts, ValueAt, Wrapped, CharAt, ArrayAt, AllReadable, Stands;
    var g' := gap + st.indent;
    var parts := ItemTexts(vs, g', st);
    var s := Print(Arr(vs), gap, st);
    if vs == [] {
      assert s == [OPEN_BRACKET, CLOSE_BRACKET] by { WrappedEmpty(OPEN_BRACKET, parts, CLOSE_BRACKET, g', gap); }
      Empty(t, p, OPEN_BRACKET, CLOSE_BRACKET);
      Inside(t, p, s);
      Dispatch(t, p, g);
      ArrayCase(t, p, g);
    } else {
      GapsAdd(gap, st.indent);
      var lead, tail := Line(g', g'), Line(g', gap) + [CLOSE_BRACKET];
      var rest := Rest(parts, 0, [COMMA] + lead, tail);
      WrappedRest(OPEN_BRACKET, parts, CLOSE_BRACKET, g', gap);
      Starts(vs[0], g', st, g);
      Opens(t, p, OPEN_BRACKET, lead, g', rest, parts, [COMMA] + lead, tail);
      Dispatch(t, p, g);
      ArrayCase(t, p, g);
      ReadsItems(t, p + 1 + |lead|, vs, 0, g', gap, st, g);
      assert SettleItems(vs, g)[0..] == SettleItems(vs, g);
      assert AllReadable(vs, 0, g) == Readable(Arr(vs), g) by { ReadableArray(vs, g); }
    }
  }

  lemma ReadableArray(vs: seq<Json>, g: Settings)
    requires Portable(Arr(vs), g)
    ensures AllReadable(vs, 0, g) <==> Readable(Arr(vs), g)
  {
  }

  lemma Inside(t: Text, p: int, s: Text)
    requires Stands(t, p, s) && s != []
    ensures 0 <= p < |t|
  {
  }

  lemma WrappedEmpty(open: int, parts: seq<Text>, close: int, gap: Text, mind: Text)
    requires parts == []
    ensures Wrapped(open, parts, close, gap, mind) == [open, close]
  {
  }

  lemma WrappedRest(open: int, parts: seq<Text>, close: int, gap: Text, mind: Text)
    requires parts != []
    ensures Wrapped(open, parts, close, gap, mind) ==
            [open] + (Line(gap, gap) + Rest(parts, 0, [COMMA] + Line(gap, gap), Line(gap, mind) + [close]))
  {
    hide Join, Wrapped;
    WrappedShape(open, parts, close, gap, mind);
    RestWhole(parts, [COMMA] + Line(gap, gap), Line(gap, mind) + [close]);
  }

  lemma RestWhole(parts: seq<Text>, sep: Text, tail: Text)
    ensures Rest(parts, 0, sep, tail) == Join(parts, sep) + tail
  {
    assert parts[0..] == parts;
  }

  lemma GapsAdd(a: Text, b: Text)
    requires IsGap(a) && IsGap(b)
    ensures IsGap(a + b)
  {
  }

  /** Behind an opening character the first part is found. */
  lemma Opens(t: Text, p: int, start: int, lead: Text, gap: Text, rest: Text, parts: seq<Text>, sep: Text, tail: Text)
    requires IsGap(gap) && lead == Line(gap, gap) && parts != [] && rest == Rest(parts, 0, sep, tail)
    requires parts[0] != [] && !Blank(parts[0][0])
    requires Stands(t, p, [start] + (lead + rest))
    ensures White(t, p + 1) == p + 1 + |lead| && Stands(t, p + 1 + |lead|, rest)
    ensures CharAt(t, p) == start && CharAt(t, p + 1 + |lead|) == parts[0][0] && 0 <= p < |t|
    ensures |[start] + (lead + rest)| == 1 + |lead| + |rest|
  {
    hide Rest, White;
    LineGap(gap, gap);
    RestFrom(parts, 0, sep, tail);
    assert rest[0] == parts[0][0];
    Split(t, p, [start], lead + rest);
    FirstOf(t, p, [start]);
    Split(t, p + 1, lead, rest);
    FirstOf(t, p + 1 + |lead|, rest);
    GapSkipped(t, p + 1, lead);
  }

  /**
   Whatever text a printed value stands in, the reader reads it there, to its end,
   as the value it settles to, or rejects it for a number that is too large.
   */
  lemma ReadsBack(t: Text, p: int, v: Json, gap: Text, st: Style, g: Settings)
    requires IsGap(gap) && IsGap(st.indent) && (g.hi.AtMost? ==> g.hi.n > 0)
    requires Portable(v, g) && Printable(v)
    requires Stands(t, p, Print(v, gap, st)) && Ends(t, p + |Print(v, gap, st)|)
    ensures Reads(t, p, |Print(v, gap, st)|, v, g)
    decreases v, 0
  {
    hide Ends, White, ArrayAt, ObjectAt, Quote, ItemTexts, EntryTexts, Wrapped, HostText, TextOf, StringAt, NumberAt;
    match v
    case Arr(vs) => ReadsArray(t, p, vs, gap, st, g);
    case Obj(es) => ReadsObject(t, p, es, gap, st, g);
    case Str(s) => StringRead(t, p, s); Dispatch(t, p, g);
    case Plain(_) => ReadsNumber(t, p, v, st, g);
    case Big(_) => ReadsNumber(t, p, v, st, g);
    case _ => ReadsWord(t, p, v, st, g);
  }

  predicate EntriesReadable(es: seq<Entry>, k: nat, g: Settings)
    requires forall i :: 0 <= i < |es| ==> Portable(es[i].value, g)
  {
    forall i :: k <= i < |es| ==> Readable(es[i].value, g)
  }

  lemma EntriesReadableStep(es: seq<Entry>, k: nat, g: Settings)
    requires k < |es| && forall i :: 0 <= i < |es| ==> Portable(es[i].value, g)
    ensures EntriesReadable(es, k, g) <==> Readable(es[k].value, g) && EntriesReadable(es, k + 1, g)
    ensures EntriesReadable(es, |es|, g)
  {
    hide Readable, Portable;
  }

  lemma ReadableObject(es: seq<Entry>, g: Settings)
    requires Portable(Obj(es), g)
    ensures EntriesReadable(es, 0, g) <==> Readable(Obj(es), g)
  {
  }

  /** The first step of `ObjectAt`. */
  lemma ObjectCase(t: Text, p: int, g: Settings)
    requires 0 <= p < |t|
    ensures var q := White(t, p + 1);
            ObjectAt(t, p, g) ==
              if CharAt(t, q) == CLOSE_BRACE then Ok(Obj([]), q + 1)
              else match Members(t, q, [], g) case Fail(e) => Fail(e) case Ok(es, n) => Ok(Obj(es), n)
  {
    hide White, Members;
  }

  lemma ReadsObject(t: Text, p: int, es: seq<Entry>, gap: Text, st: Style, g: Settings)
    requires IsGap(gap) && IsGap(st.indent) && (g.hi.AtMost? ==> g.hi.n > 0)
    requires Portable(Obj(es), g) && Printable(Obj(es)) && Stands(t, p, Print(Obj(es), gap, st))
    ensures Reads(t, p, |Print(Obj(es), gap, st)|, Obj(es), g)
    decreases es, |es| + 1
  {
    hide Rest, IsGap, Line, Members, White, Join, EntryTexts, ValueAt, Wrapped, CharAt, ObjectAt, EntriesReadable,
      Stands;
    var g' := gap + st.indent;
    var parts := EntryTexts(es, g', st);
    var s := Print(Obj(es), gap, st);
    if es == [] {
      assert s == [OPEN_BRACE, CLOSE_BRACE] by { WrappedEmpty(OPEN_BRACE, parts, CLOSE_BRACE, g', gap); }
      Empty(t, p, OPEN_BRACE, CLOSE_BRACE);
      Inside(t, p, s);
      Dispatch(t, p, g);
      ObjectCase(t, p, g);
    } else {
      GapsAdd(gap, st.indent);
      var lead, tail := Line(g', g'), Line(g', gap) + [CLOSE_BRACE];
      var rest := Rest(parts, 0, [COMMA] + lead, tail);
      WrappedRest(OPEN_BRACE, parts, CLOSE_BRACE, g', gap);
      EntryStarts(es, 0, g', st);
      Opens(t, p, OPEN_BRACE, lead, g', rest, parts, [COMMA] + lead, tail);
      Dispatch(t, p, g);
      ObjectCase(t, p, g);
      ReadsEntries(t, p + 1 + |lead|, es, 0, [], g', gap, st, g);
      assert SettleEntries(es, g)[0..] == SettleEntries(es, g);
      assert EntriesReadable(es, 0, g) == Readable(Obj(es), g) by { ReadableObject(es, g); }
    }
  }

  lemma EntryStarts(es: seq<Entry>, k: nat, gap: Text, st: Style)
    requires k < |es| && forall i :: 0 <= i < |es| ==> IsText(es[i].key) && Printable(es[i].value)
    ensures var s := EntryTexts(es, gap, st)[k]; s != [] && s[0] == QUOTE && !Blank(s[0])
  {
    hide Print, EscapedText;
  }

  /** One member: its key, the colon, and its value. */
  lemma ReadsMember(t: Text, q: int, e: Entry, seen: seq<Text>, gap: Text, st: Style, g: Settings)
    requires IsGap(gap) && IsGap(st.indent) && (g.hi.AtMost? ==> g.hi.n > 0)
    requires IsText(e.key) && e.key != PROTO && Portable(e.value, g) && Printable(e.value) && e.key !in seen
    requires var s := Quote(e.key) + (Colon(gap) + Print(e.value, gap, st)); Stands(t, q, s) && Ends(t, q + |s|)
    ensures var n := q + |Quote(e.key) + (Colon(gap) + Print(e.value, gap, st))|;
            MemberAt(t, q, seen, g) ==
              if !Readable(e.value, g) then Fail(BadNumber)
              else match More(t, n, CLOSE_BRACE)
                   case Fail(x) => Fail(x)
                   case Ok(more, m) => Ok((Entry(e.key, Settle(e.value, g)), more), m)
    decreases e.value, 1
  {
    hide Stands, Ends, White, ValueAt, Quote, Print, StringAt, More, Readable, Settle, Portable, Printable, Colon,
      CharAt;
    var a, b, c := Quote(e.key), Colon(gap), Print(e.value, gap, st);
    Split(t, q, a, b + c);
    Split(t, q + |a|, b, c);
    StringRead(t, q, e.key);
    Starts(e.value, gap, st, g);
    FirstOf(t, q + |a| + |b|, c);
    ColonRead(t, q + |a|, gap, g);
    ReadsBack(t, q + |a| + |b|, e.value, gap, st, g);
  }

  /** The colon, with a space behind it if there is a gap. */
  lemma ColonRead(t: Text, c: int, gap: Text, g: Settings)
    requires Stands(t, c, Colon(gap)) && !Blank(CharAt(t, c + |Colon(gap)|))
    ensures White(t, c) == c && CharAt(t, c) == COLON
    ensures ValueAt(t, c + 1, g) == ValueAt(t, c + |Colon(gap)|, g)
  {
    hide White, ValueAt;
    FirstOf(t, c, Colon(gap));
    WhiteIs(t, c, c);
    if gap != [] {
      assert t[c + 1] == t[c..c + 2][1] == SPACE;
      WhiteIs(t, c + 1, c + 2);
      ValueSkips(t, c + 1, c + 2, g);
    }
  }

  /** One step of `Members`. */
  lemma MembersCase(t: Text, q: int, seen: seq<Text>, g: Settings)
    requires 0 <= q <= |t| && CharAt(t, q) != END
    ensures match MemberAt(t, q, seen, g)
            case Fail(e) => Members(t, q, seen, g) == Fail(e)
            case Ok((entry, more), n) =>
              Members(t, q, seen, g) ==
                Prepend(entry, if more then Members(t, n, seen + [entry.key], g) else Ok([], n))
  {
    hide MemberAt;
  }

  lemma ReadsEntries(t: Text, q: int, es: seq<Entry>, k: nat, seen: seq<Text>, gap: Text, mind: Text, st: Style,
          g: Settings)
    requires k < |es| && IsGap(gap) && IsGap(mind) && IsGap(st.indent) && (g.hi.AtMost? ==> g.hi.n > 0)
    requires forall i :: 0 <= i < |es| ==>
      IsText(es[i].key) && es[i].key != PROTO && Portable(es[i].value, g) && Printable(es[i].value)
    requires forall i, j :: 0 <= i < j < |es| ==> es[i].key != es[j].key
    requires |seen| == k && forall i :: 0 <= i < k ==> seen[i] == es[i].key
    requires Stands(t, q, Rest(EntryTexts(es, gap, st), k, [COMMA] + Line(gap, gap), Line(gap, mind) + [CLOSE_BRACE]))
    ensures var size := |Rest(EntryTexts(es, gap, st), k, [COMMA] + Line(gap, gap), Line(gap, mind) + [CLOSE_BRACE])|;
            Members(t, q, seen, g) ==
              if EntriesReadable(es, k, g) then Ok(SettleEntries(es, g)[k..], q + size) else Fail(BadNumber)
    decreases es, |es| - k
  {
    hide Rest, Ends, MemberAt, More, IsGap, Line, CharAt, Print, Settle, Portable, Readable, Printable, Quote, IsText,
      Members, EntriesReadable;
    var parts := EntryTexts(es, gap, st);
    var lead, tail := Line(gap, gap), Line(gap, mind);
    LineGap(gap, gap);
    LineGap(gap, mind);
    EntryStarts(es, k, gap, st);
    if k + 1 < |es| {
      EntryStarts(es, k + 1, gap, st);
    }
    BehindPart(t, q, parts, k, lead, tail, CLOSE_BRACE);
    FirstOf(t, q, parts[k]);
    assert es[k].key !in seen;
    ReadsMember(t, q, es[k], seen, gap, st, g);
    MembersCase(t, q, seen, g);
    PrefixOfDrop(SettleEntries(es, g), k);
    EntriesReadableStep(es, k, g);
    if k + 1 < |es| {
      ReadsEntries(t, q + |parts[k]| + 1 + |lead|, es, k + 1, seen + [es[k].key], gap, mind, st, g);
    }
  }
}
