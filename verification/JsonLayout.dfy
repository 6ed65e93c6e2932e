/**
 The indentation of printed JSON, as something done to a text: `Reformat` drops the
 white space between the parts of any JSON text and breaks it into lines, each of
 which starts with the indentation once for every bracket that is open around it.
 */
module JsonLayout {
  import opened Digits
  import opened Numbers
  import opened Numerals
  import opened NumberText
  import opened JsonCodec
  import opened JsonRoundTrip

  predicate IsOpen(u: int) { u == OPEN_BRACKET || u == OPEN_BRACE }
  predicate IsClose(u: int) { u == CLOSE_BRACKET || u == CLOSE_BRACE }

  function Times(t: Text, n: nat): Text
  {
    if n == 0 then [] else Times(t, n - 1) + t
  }

  /** The line break and the start of a line with `depth` brackets open around it; nothing without an indentation. */
  function Break(indent: Text, depth: nat): Text
  {
    if indent == [] then [] else [NEWLINE] + Times(indent, depth)
  }

  function SkipBlank(t: Text): (r: Text)
    ensures |r| <= |t|
  {
    if t != [] && Blank(t[0]) then SkipBlank(t[1..]) else t
  }

  /** A JSON text, from a place outside its strings on where `depth` brackets are open. */
  function Reformat(t: Text, depth: nat, indent: Text): Text
    decreases |t|
  {
    if t == [] then []
    else if Blank(t[0]) then Reformat(t[1..], depth, indent)
    else if t[0] == QUOTE then [QUOTE] + InString(t[1..], depth, indent)
    else if IsOpen(t[0]) then
      var u := SkipBlank(t[1..]);
      if u != [] && IsClose(u[0]) then [t[0], u[0]] + Reformat(u[1..], depth, indent)
      else [t[0]] + (Break(indent, depth + 1) + Reformat(u, depth + 1, indent))
    else if IsClose(t[0]) then
      var outer := if depth > 0 then depth - 1 else 0;
      Break(indent, outer) + ([t[0]] + Reformat(t[1..], outer, indent))
    else if t[0] == COMMA then [COMMA] + (Break(indent, depth) + Reformat(t[1..], depth, indent))
    else if t[0] == COLON then [COLON] + ((if indent == [] then [] else [SPACE]) + Reformat(t[1..], depth, indent))
    else [t[0]] + Reformat(t[1..], depth, indent)
  }

  /** The same from a place within a string, which is kept as it is. */
  function InString(t: Text, depth: nat, indent: Text): Text
    decreases |t|
  {
    if t == [] then []
    else if t[0] == QUOTE then [QUOTE] + Reformat(t[1..], depth, indent)
    else if t[0] == BACKSLASH && |t| > 1 then [t[0], t[1]] + InString(t[2..], depth, indent)
    else [t[0]] + InString(t[1..], depth, indent)
  }

  /** Visible ASCII characters that have no meaning between the parts of a JSON text. */
  predicate Quiet(t: Text)
  {
    forall i :: 0 <= i < |t| ==>
      && SPACE < t[i] < 0x7f && t[i] != QUOTE && !IsOpen(t[i]) && !IsClose(t[i]) && t[i] != COMMA && t[i] != COLON
  }

  /** The host writes numbers without white space, quotes, brackets, commas and colons. */
  ghost predicate QuietNumbers(st: Style)
  {
    forall x :: st.shortest(x) != [] && Quiet(st.shortest(x))
  }

  // ----- texts that come out as other texts, whatever follows

  ghost predicate Becomes(p: Text, q: Text, depth: nat, indent: Text)
  {
    forall rest: Text :: Reformat(p + rest, depth, indent) == q + Reformat(rest, depth, indent)
  }

  lemma BecomesThen(a: Text, a': Text, b: Text, b': Text, depth: nat, indent: Text)
    requires Becomes(a, a', depth, indent) && Becomes(b, b', depth, indent)
    ensures Becomes(a + b, a' + b', depth, indent)
  {
    hide Reformat;
    forall rest: Text
      ensures Reformat((a + b) + rest, depth, indent) == (a' + b') + Reformat(rest, depth, indent)
    {
      assert (a + b) + rest == a + (b + rest);
      assert (a' + b') + Reformat(rest, depth, indent) == a' + (b' + Reformat(rest, depth, indent));
      assert Reformat(a + (b + rest), depth, indent) == a' + Reformat(b + rest, depth, indent);
    }
  }

  lemma {:induction false} QuietKept(t: Text, depth: nat, indent: Text)
    requires Quiet(t)
    ensures Becomes(t, t, depth, indent)
  {
    if t == [] {
      forall rest: Text ensures Reformat(t + rest, depth, indent) == t + Reformat(rest, depth, indent) {
        assert t + rest == rest;
      }
    } else {
      QuietKept(t[1..], depth, indent);
      assert t == [t[0]] + t[1..];
      forall rest: Text ensures Reformat([t[0]] + rest, depth, indent) == [t[0]] + Reformat(rest, depth, indent) {
        assert ([t[0]] + rest)[1..] == rest;
      }
      hide Reformat;
      BecomesThen([t[0]], [t[0]], t[1..], t[1..], depth, indent);
    }
  }

  lemma {:induction false} BlankDropped(t: Text, depth: nat, indent: Text)
    requires IsGap(t)
    ensures Becomes(t, [], depth, indent)
  {
    if t == [] {
      forall rest: Text ensures Reformat(t + rest, depth, indent) == [] + Reformat(rest, depth, indent) {
        assert t + rest == rest;
      }
    } else {
      BlankDropped(t[1..], depth, indent);
      assert t == [t[0]] + t[1..];
      forall rest: Text ensures Reformat([t[0]] + rest, depth, indent) == [] + Reformat(rest, depth, indent) {
        assert ([t[0]] + rest)[1..] == rest;
      }
      hide Reformat;
      BecomesThen([t[0]], [], t[1..], [], depth, indent);
      var none: Text := [];
      assert none + none == none;
    }
  }

  // ----- strings

  ghost predicate Stays(p: Text, depth: nat, indent: Text)
  {
    forall rest: Text :: InString(p + rest, depth, indent) == p + InString(rest, depth, indent)
  }

  lemma StaysThen(a: Text, b: Text, depth: nat, indent: Text)
    requires Stays(a, depth, indent) && Stays(b, depth, indent)
    ensures Stays(a + b, depth, indent)
  {
    hide InString;
    forall rest: Text ensures InString((a + b) + rest, depth, indent) == (a + b) + InString(rest, depth, indent) {
      assert (a + b) + rest == a + (b + rest);
      assert (a + b) + InString(rest, depth, indent) == a + (b + InString(rest, depth, indent));
      assert InString(a + (b + rest), depth, indent) == a + InString(b + rest, depth, indent);
    }
  }

  lemma OneStays(u: int, depth: nat, indent: Text)
    requires u != QUOTE && u != BACKSLASH
    ensures Stays([u], depth, indent)
  {
    hide Reformat;
    forall rest: Text ensures InString([u] + rest, depth, indent) == [u] + InString(rest, depth, indent) {
      assert ([u] + rest)[1..] == rest;
    }
  }

  lemma PairStays(u: int, depth: nat, indent: Text)
    ensures Stays([BACKSLASH, u], depth, indent)
  {
    hide Reformat;
    forall rest: Text
      ensures InString([BACKSLASH, u] + rest, depth, indent) == [BACKSLASH, u] + InString(rest, depth, indent)
    {
      assert ([BACKSLASH, u] + rest)[2..] == rest;
    }
  }

  lemma {:induction false} PlainStays(t: Text, depth: nat, indent: Text)
    requires forall i :: 0 <= i < |t| ==> t[i] != QUOTE && t[i] != BACKSLASH
    ensures Stays(t, depth, indent)
  {
    hide InString;
    if t == [] {
      forall rest: Text ensures InString(t + rest, depth, indent) == t + InString(rest, depth, indent) {
        assert t + rest == rest;
      }
    } else {
      PlainStays(t[1..], depth, indent);
      OneStays(t[0], depth, indent);
      StaysThen([t[0]], t[1..], depth, indent);
      assert t == [t[0]] + t[1..];
    }
  }

  lemma EscapeStays(u: int, depth: nat, indent: Text)
    requires 0 <= u < 0x10000
    ensures Stays(Escaped(u), depth, indent)
  {
    hide InString, Stays, Meta, Escapable, HexText;
    if !Escapable(u) {
      NotEscapable(u);
      OneStays(u, depth, indent);
    } else if Meta(u) != -1 {
      PairStays(Meta(u), depth, indent);
    } else {
      PairStays(SMALL_U, depth, indent);
      HexPlain(u);
      PlainStays(HexText(u), depth, indent);
      StaysThen([BACKSLASH, SMALL_U], HexText(u), depth, indent);
    }
  }

  lemma HexPlain(u: nat)
    requires u < 0x10000
    ensures forall i :: 0 <= i < |HexText(u)| ==> HexText(u)[i] != QUOTE && HexText(u)[i] != BACKSLASH
  {
    hide Val, HexText, HexDigits;
    HexMeaning(u);
  }

  lemma {:induction false} EscapesStay(s: Text, depth: nat, indent: Text)
    requires IsText(s)
    ensures Stays(EscapedText(s), depth, indent)
  {
    hide InString, Escaped;
    if s == [] {
      PlainStays([], depth, indent);
    } else {
      EscapeStays(s[0], depth, indent);
      EscapesStay(s[1..], depth, indent);
      hide Stays;
      StaysThen(Escaped(s[0]), EscapedText(s[1..]), depth, indent);
    }
  }

  lemma QuoteKept(s: Text, depth: nat, indent: Text)
    requires IsText(s)
    ensures Becomes(Quote(s), Quote(s), depth, indent)
  {
    hide EscapedText;
    EscapesStay(s, depth, indent);
    var e := EscapedText(s);
    forall rest: Text ensures Reformat(Quote(s) + rest, depth, indent) == Quote(s) + Reformat(rest, depth, indent) {
      QuoteRead(e, rest, depth, indent);
    }
  }

  lemma QuoteRead(e: Text, rest: Text, depth: nat, indent: Text)
    requires Stays(e, depth, indent)
    ensures var q := [QUOTE] + (e + [QUOTE]);
            Reformat(q + rest, depth, indent) == q + Reformat(rest, depth, indent)
  {
    var r := Reformat(rest, depth, indent);
    assert InString(e + ([QUOTE] + rest), depth, indent) == e + InString([QUOTE] + rest, depth, indent);
    StringStarts(e + ([QUOTE] + rest), depth, indent);
    StringEnds(rest, depth, indent);
    hide *;
    Nested([QUOTE], e, [QUOTE], rest);
    Nested([QUOTE], e, [QUOTE], r);
  }

  lemma Nested(a: Text, b: Text, c: Text, d: Text)
    ensures (a + (b + c)) + d == a + (b + (c + d))
  {
  }

  lemma StringStarts(t: Text, depth: nat, indent: Text)
    ensures Reformat([QUOTE] + t, depth, indent) == [QUOTE] + InString(t, depth, indent)
  {
    assert ([QUOTE] + t)[1..] == t;
  }

  lemma StringEnds(t: Text, depth: nat, indent: Text)
    ensures InString([QUOTE] + t, depth, indent) == [QUOTE] + Reformat(t, depth, indent)
  {
    hide Reformat;
    assert ([QUOTE] + t)[1..] == t;
  }

  // ----- arrays and objects

  lemma SkipGap(lead: Text, t: Text)
    requires IsGap(lead) && t != [] && !Blank(t[0])
    ensures SkipBlank(lead + t) == t
  {
    if lead == [] {
      assert lead + t == t;
    } else {
      assert (lead + t)[1..] == lead[1..] + t;
      SkipGap(lead[1..], t);
    }
  }

  /** A comma and what is behind it become a comma and a line break. */
  lemma CommaBecomes(lead: Text, depth: nat, indent: Text)
    requires IsGap(lead)
    ensures Becomes([COMMA] + lead, [COMMA] + Break(indent, depth), depth, indent)
  {
    var b := Break(indent, depth);
    forall rest: Text ensures Reformat([COMMA] + rest, depth, indent) == ([COMMA] + b) + Reformat(rest, depth, indent) {
      assert ([COMMA] + rest)[1..] == rest;
      var r := Reformat(rest, depth, indent);
      assert [COMMA] + (b + r) == ([COMMA] + b) + r;
    }
    BlankDropped(lead, depth, indent);
    hide Reformat, Becomes, Break;
    BecomesThen([COMMA], [COMMA] + b, lead, [], depth, indent);
    assert ([COMMA] + b) + [] == [COMMA] + b;
  }

  lemma ColonBecomes(gap: Text, inner: Text, depth: nat, indent: Text)
    requires inner == [] <==> indent == []
    ensures Becomes(Colon(gap), Colon(inner), depth, indent)
  {
    var space: Text := if gap != [] then [SPACE] else [];
    var after: Text := if indent != [] then [SPACE] else [];
    assert Colon(gap) == [COLON] + space && Colon(inner) == [COLON] + after;
    assert IsGap(space);
    BlankDropped(space, depth, indent);
    ColonAlone(after, depth, indent);
    hide *;
    BecomesThen([COLON], [COLON] + after, space, [], depth, indent);
    assert ([COLON] + after) + [] == [COLON] + after;
  }

  lemma ColonAlone(after: Text, depth: nat, indent: Text)
    requires after == if indent == [] then [] else [SPACE]
    ensures Becomes([COLON], [COLON] + after, depth, indent)
  {
    forall rest: Text
      ensures Reformat([COLON] + rest, depth, indent) == ([COLON] + after) + Reformat(rest, depth, indent)
    {
      assert ([COLON] + rest)[1..] == rest;
      var r := Reformat(rest, depth, indent);
      assert [COLON] + (after + r) == ([COLON] + after) + r;
    }
  }

  ghost predicate AllBecome(parts: seq<Text>, parts': seq<Text>, depth: nat, indent: Text)
  {
    |parts| == |parts'| && forall i :: 0 <= i < |parts| ==> Becomes(parts[i], parts'[i], depth, indent)
  }

  lemma {:induction false} JoinBecomes(parts: seq<Text>, parts': seq<Text>, lead: Text, depth: nat, indent: Text)
    requires parts != [] && AllBecome(parts, parts', depth, indent) && IsGap(lead)
    ensures Becomes(Join(parts, [COMMA] + lead), Join(parts', [COMMA] + Break(indent, depth)), depth, indent)
    decreases |parts|
  {
    hide Becomes, Break;
    if |parts| > 1 {
      JoinBecomes(parts[1..], parts'[1..], lead, depth, indent);
      CommaBecomes(lead, depth, indent);
      var sep, sep' := [COMMA] + lead, [COMMA] + Break(indent, depth);
      BecomesThen(sep, sep', Join(parts[1..], sep), Join(parts'[1..], sep'), depth, indent);
      BecomesThen(parts[0], parts'[0], sep + Join(parts[1..], sep), sep' + Join(parts'[1..], sep'), depth, indent);
    }
  }

  /** A text that a value may start with. */
  predicate Begins(t: Text)
  {
    t != [] && !Blank(t[0]) && !IsClose(t[0])
  }

  lemma BracketsBecome(open: int, lead: Text, body: Text, tail: Text, close: int, body': Text, depth: nat, indent: Text)
    requires IsOpen(open) && IsClose(close) && IsGap(lead) && IsGap(tail)
    requires Begins(body) && Becomes(body, body', depth + 1, indent)
    ensures Becomes([open] + (lead + (body + (tail + [close]))),
                    [open] + (Break(indent, depth + 1) + (body' + (Break(indent, depth) + [close]))), depth, indent)
  {
    BlankDropped(tail, depth + 1, indent);
    hide Break;
    forall rest: Text
      ensures Reformat(([open] + (lead + (body + (tail + [close])))) + rest, depth, indent) ==
              ([open] + (Break(indent, depth + 1) + (body' + (Break(indent, depth) + [close])))) +
              Reformat(rest, depth, indent)
    {
      BracketsRead(open, lead, body, tail, close, body', depth, indent, rest);
    }
  }

  lemma BracketsRead(open: int, lead: Text, body: Text, tail: Text, close: int, body': Text, depth: nat, indent: Text,
                     rest: Text)
    requires IsOpen(open) && IsClose(close) && IsGap(lead) && Begins(body)
    requires Becomes(body, body', depth + 1, indent) && Becomes(tail, [], depth + 1, indent)
    ensures Reformat(([open] + (lead + (body + (tail + [close])))) + rest, depth, indent) ==
            ([open] + (Break(indent, depth + 1) + (body' + (Break(indent, depth) + [close])))) +
            Reformat(rest, depth, indent)
  {
    hide Break, Reformat;
    var b1, b0 := Break(indent, depth + 1), Break(indent, depth);
    var shut, r := [close] + rest, Reformat(rest, depth, indent);
    var inner := body + (tail + shut);
    assert inner[0] == body[0];
    SkipGap(lead, inner);
    BracketOpens(open, lead + inner, depth, indent);
    assert Reformat(inner, depth + 1, indent) == body' + Reformat(tail + shut, depth + 1, indent);
    assert Reformat(tail + shut, depth + 1, indent) == [] + Reformat(shut, depth + 1, indent);
    BracketCloses(close, rest, depth, indent);
    hide *;
    FiveNested([open], lead, body, tail, [close], rest);
    FiveNested([open], b1, body', b0, [close], r);
    assert [] + (b0 + ([close] + r)) == b0 + ([close] + r);
  }

  lemma FiveNested(a: Text, b: Text, c: Text, d: Text, e: Text, f: Text)
    ensures (a + (b + (c + (d + e)))) + f == a + (b + (c + (d + (e + f))))
  {
  }

  lemma BracketOpens(open: int, t: Text, depth: nat, indent: Text)
    requires IsOpen(open)
    ensures var u := SkipBlank(t);
            Reformat([open] + t, depth, indent) ==
            if u != [] && IsClose(u[0]) then [open, u[0]] + Reformat(u[1..], depth, indent)
            else [open] + (Break(indent, depth + 1) + Reformat(u, depth + 1, indent))
  {
    hide Break, SkipBlank;
    assert ([open] + t)[1..] == t;
  }

  lemma BracketCloses(close: int, t: Text, depth: nat, indent: Text)
    requires IsClose(close)
    ensures Reformat([close] + t, depth + 1, indent) == Break(indent, depth) + ([close] + Reformat(t, depth, indent))
  {
    hide Break;
    assert ([close] + t)[1..] == t;
  }

  lemma EmptyBecomes(open: int, close: int, depth: nat, indent: Text)
    requires IsOpen(open) && IsClose(close)
    ensures Becomes([open, close], [open, close], depth, indent)
  {
    hide Reformat;
    forall rest: Text
      ensures Reformat([open, close] + rest, depth, indent) == [open, close] + Reformat(rest, depth, indent)
    {
      var t := [close] + rest;
      assert [open, close] + rest == [open] + t && t[1..] == rest && SkipBlank(t) == t;
      BracketOpens(open, t, depth, indent);
    }
  }

  lemma BreakIsLine(depth: nat, indent: Text)
    ensures var inner, outer := Times(indent, depth + 1), Times(indent, depth);
            Line(inner, inner) == Break(indent, depth + 1) && Line(inner, outer) == Break(indent, depth)
  {
    TimesNothing(depth + 1);
  }

  lemma {:induction false} TimesNothing(n: nat)
    ensures Times([], n) == []
  {
    if n > 0 { TimesNothing(n - 1); }
  }

  lemma JoinBegins(parts: seq<Text>, sep: Text)
    requires parts != [] && Begins(parts[0])
    ensures Begins(Join(parts, sep))
  {
  }

  lemma WrappedBecomes(open: int, close: int, parts: seq<Text>, parts': seq<Text>, gap: Text, mind: Text, depth: nat,
                       indent: Text)
    requires IsOpen(open) && IsClose(close) && IsGap(gap) && IsGap(mind)
    requires AllBecome(parts, parts', depth + 1, indent) && (parts != [] ==> Begins(parts[0]))
    ensures Becomes(Wrapped(open, parts, close, gap, mind),
                    Wrapped(open, parts', close, Times(indent, depth + 1), Times(indent, depth)), depth, indent)
  {
    hide Becomes, Join, Break, Times;
    if parts == [] {
      EmptyBecomes(open, close, depth, indent);
    } else {
      var inner, outer := Times(indent, depth + 1), Times(indent, depth);
      WrappedShape(open, parts, close, gap, mind);
      WrappedShape(open, parts', close, inner, outer);
      BreakIsLine(depth, indent);
      LineGap(gap, gap);
      LineGap(gap, mind);
      hide Wrapped, Line;
      JoinBecomes(parts, parts', Line(gap, gap), depth + 1, indent);
      JoinBegins(parts, [COMMA] + Line(gap, gap));
      BracketsBecome(open, Line(gap, gap), Join(parts, [COMMA] + Line(gap, gap)), Line(gap, mind), close,
                     Join(parts', [COMMA] + Break(indent, depth + 1)), depth, indent);
    }
  }

  // ----- values

  lemma QuietBoth(a: Text, b: Text)
    requires Quiet(a) && Quiet(b)
    ensures Quiet(a + b)
  {
  }

  lemma QuietDigits(c: seq<int>)
    requires InBase(c, 10)
    ensures Quiet(Spelled(c))
  {
    hide Spelled;
  }

  lemma QuietLiteral(l: Literal)
    requires IsNumeral(l)
    ensures Quiet(Spell(l))
  {
    hide Spelled, InBase, Quiet;
    QuietDigits(l.ip); QuietDigits(l.fp); QuietDigits(l.ep);
    QuietMarks(l);
    if l.dot { QuietBoth([DOT], Spelled(l.fp)); }
    if l.e != 0 { QuietBoth([l.e] + (if l.sign == 0 then [] else [l.sign]), Spelled(l.ep)); }
    QuietBoth(SpellFraction(l), SpellExponent(l));
    QuietBoth(Spelled(l.ip), SpellFraction(l) + SpellExponent(l));
    QuietBoth(if l.neg then [MINUS] else [], Spelled(l.ip) + (SpellFraction(l) + SpellExponent(l)));
  }

  lemma QuietMarks(l: Literal)
    requires WellFormed(l)
    ensures Quiet([DOT]) && Quiet([MINUS]) && Quiet([])
    ensures l.e != 0 ==> Quiet([l.e] + if l.sign == 0 then [] else [l.sign])
  {
  }

  lemma QuietText(x: Number, expNeg: int, expPos: int)
    requires Valid(x)
    ensures var t := TextOf(x, expNeg, expPos); Quiet(t) && t != []
  {
    hide LiteralOf, Spell, Spelled;
    if Finite(x) {
      LiteralShape(x, expNeg, expPos);
      QuietLiteral(LiteralOf(x, expNeg, expPos));
      NumberStart(x, expNeg, expPos);
    }
  }

  lemma QuietHost(x: Number, st: Style)
    requires QuietNumbers(st)
    ensures Quiet(HostText(x, st)) && HostText(x, st) != []
  {
    hide TextOf, Mag;
    if IsInteger(x) {
      QuietText(x, -7, 21);
    }
  }

  lemma QuietBegins(t: Text)
    requires Quiet(t) && t != []
    ensures Begins(t)
  {
  }

  lemma PrintBegins(v: Json, gap: Text, st: Style)
    requires Printable(v) && QuietNumbers(st)
    ensures Begins(Print(v, gap, st))
  {
    hide HostText, TextOf, EscapedText, Join;
    match v
    case Plain(x) =>
      QuietHost(x, st);
      QuietBegins(HostText(x, st));
    case Big(x) =>
      QuietText(x, st.expNeg, st.expPos);
      QuietBegins(TextOf(x, st.expNeg, st.expPos));
    case _ =>
  }

  /** However a value is printed, reformatting the text gives the value printed with the indentation asked for. */
  lemma {:induction false} PrintBecomes(v: Json, gap: Text, st: Style, depth: nat, indent: Text)
    requires Printable(v) && QuietNumbers(st) && IsGap(gap) && IsGap(st.indent)
    ensures Becomes(Print(v, gap, st), Print(v, Times(indent, depth), st.(indent := indent)), depth, indent)
    decreases v
  {
    hide HostText, TextOf, EscapedText, Becomes, QuietNumbers, Quiet, Wrapped, Times, Begins, Quote;
    var st' := st.(indent := indent);
    match v
    case Null => QuietWord("null", depth, indent);
    case Bool(b) => QuietWord(if b then "true" else "false", depth, indent);
    case Str(s) => QuoteKept(s, depth, indent);
    case Plain(x) =>
      QuietHost(x, st);
      SameHost(x, st, indent);
      QuietKept(HostText(x, st), depth, indent);
    case Big(x) =>
      QuietText(x, st.expNeg, st.expPos);
      QuietKept(TextOf(x, st.expNeg, st.expPos), depth, indent);
    case Arr(vs) =>
      GapGrows(gap, st.indent);
      NextLevel(indent, depth);
      var p, p' := ItemTexts(vs, gap + st.indent, st), ItemTexts(vs, Times(indent, depth) + indent, st');
      forall i | 0 <= i < |vs| ensures Becomes(p[i], p'[i], depth + 1, indent) {
        PrintBecomes(vs[i], gap + st.indent, st, depth + 1, indent);
      }
      if vs != [] { PrintBegins(vs[0], gap + st.indent, st); }
      WrappedBecomes(OPEN_BRACKET, CLOSE_BRACKET, p, p', gap + st.indent, gap, depth, indent);
    case Obj(es) =>
      GapGrows(gap, st.indent);
      NextLevel(indent, depth);
      var p, p' := EntryTexts(es, gap + st.indent, st), EntryTexts(es, Times(indent, depth) + indent, st');
      forall i | 0 <= i < |es| ensures Becomes(p[i], p'[i], depth + 1, indent) {
        PrintBecomes(es[i].value, gap + st.indent, st, depth + 1, indent);
        EntryBecomes(es[i], gap + st.indent, st, depth + 1, indent);
      }
      if es != [] { EntryBegins(es[0], gap + st.indent, st); }
      WrappedBecomes(OPEN_BRACE, CLOSE_BRACE, p, p', gap + st.indent, gap, depth, indent);
  }

  lemma QuietWord(s: string, depth: nat, indent: Text)
    requires s == "null" || s == "true" || s == "false"
    ensures Becomes(Ascii(s), Ascii(s), depth, indent)
  {
    hide Becomes;
    QuietKept(Ascii(s), depth, indent);
  }

  lemma SameHost(x: Number, st: Style, indent: Text)
    ensures HostText(x, st.(indent := indent)) == HostText(x, st)
  {
  }

  lemma GapGrows(gap: Text, indent: Text)
    requires IsGap(gap) && IsGap(indent)
    ensures IsGap(gap + indent)
  {
  }

  lemma NextLevel(indent: Text, depth: nat)
    ensures Times(indent, depth) + indent == Times(indent, depth + 1)
  {
  }

  lemma EntryBecomes(e: Entry, gap: Text, st: Style, depth: nat, indent: Text)
    requires depth > 0 && IsText(e.key) && Printable(e.value)
    requires Becomes(Print(e.value, gap, st), Print(e.value, Times(indent, depth), st.(indent := indent)), depth,
                     indent)
    ensures var inner := Times(indent, depth);
            Becomes(Quote(e.key) + (Colon(gap) + Print(e.value, gap, st)),
                    Quote(e.key) + (Colon(inner) + Print(e.value, inner, st.(indent := indent))), depth, indent)
  {
    hide Becomes, Print, Quote, Colon, Times;
    var inner, st' := Times(indent, depth), st.(indent := indent);
    TimesEmpty(depth, indent);
    ColonBecomes(gap, inner, depth, indent);
    QuoteKept(e.key, depth, indent);
    BecomesThen(Colon(gap), Colon(inner), Print(e.value, gap, st), Print(e.value, inner, st'), depth, indent);
    BecomesThen(Quote(e.key), Quote(e.key), Colon(gap) + Print(e.value, gap, st),
                Colon(inner) + Print(e.value, inner, st'), depth, indent);
  }

  lemma TimesEmpty(depth: nat, indent: Text)
    requires depth > 0
    ensures Times(indent, depth) == [] <==> indent == []
  {
    TimesNothing(depth);
  }

  lemma EntryBegins(e: Entry, gap: Text, st: Style)
    requires IsText(e.key) && Printable(e.value)
    ensures Begins(Quote(e.key) + (Colon(gap) + Print(e.value, gap, st)))
  {
    hide Print, EscapedText;
  }

  /**
   The printed text of a value, with whatever white space for its indentation, is
   turned into the text printed with any other indentation by `Reformat` alone: into
   the compact one without an indentation, and from it into lines each of which
   starts with the indentation once for every bracket open around it.
   */
  lemma Reformatted(v: Json, st: Style, indent: Text)
    requires Printable(v) && QuietNumbers(st) && IsGap(st.indent)
    ensures Reformat(Print(v, [], st), 0, indent) == Print(v, [], st.(indent := indent))
  {
    hide Becomes, Print, QuietNumbers, Reformat;
    PrintBecomes(v, [], st, 0, indent);
    BecomesWhole(Print(v, [], st), Print(v, [], st.(indent := indent)), indent);
  }

  lemma BecomesWhole(p: Text, q: Text, indent: Text)
    requires Becomes(p, q, 0, indent)
    ensures Reformat(p, 0, indent) == q
  {
    var none: Text := [];
    assert p + none == p && q + none == q;
    assert Reformat(p + none, 0, indent) == q + Reformat(none, 0, indent);
  }

  // ----- what strings hold

  /** No control character, no soft hyphen, nothing that ends a line or is not shown. */
  predicate Visible(u: int)
  {
    && SPACE <= u && !(0x7f <= u <= 0x9f) && u != 0xad && !(0x600 <= u <= 0x604) && u != 0x70f
    && u != 0x17b4 && u != 0x17b5 && !(0x200c <= u <= 0x200f) && !(0x2028 <= u <= 0x202f)
    && !(0x2060 <= u <= 0x206f) && u != 0xfeff && u < 0xfff0
  }

  predicate AllVisible(t: Text)
  {
    forall i :: 0 <= i < |t| ==> Visible(t[i])
  }

  lemma EscapedVisible(u: int)
    requires 0 <= u < 0x10000
    ensures AllVisible(Escaped(u))
  {
    hide HexText;
    if Escapable(u) && Meta(u) == -1 {
      HexVisible(u);
      VisibleBoth([BACKSLASH, SMALL_U], HexText(u));
    }
  }

  lemma HexVisible(u: nat)
    requires u < 0x10000
    ensures AllVisible(HexText(u))
  {
    hide Val, HexText, HexDigits;
    HexMeaning(u);
  }

  lemma VisibleBoth(a: Text, b: Text)
    requires AllVisible(a) && AllVisible(b)
    ensures AllVisible(a + b)
  {
  }

  lemma {:induction false} EscapesVisible(s: Text)
    requires IsText(s)
    ensures AllVisible(EscapedText(s))
  {
    hide Escaped, AllVisible;
    if s == [] {
      assert AllVisible([]) by { NothingVisible(); }
    } else {
      EscapedVisible(s[0]);
      EscapesVisible(s[1..]);
      VisibleBoth(Escaped(s[0]), EscapedText(s[1..]));
    }
  }

  lemma NothingVisible()
    ensures AllVisible([]) && AllVisible([QUOTE])
  {
  }

  /** No quoted string holds a line break or any other control character. */
  lemma QuoteVisible(s: Text)
    requires IsText(s)
    ensures AllVisible(Quote(s))
  {
    hide EscapedText, AllVisible;
    EscapesVisible(s);
    NothingVisible();
    VisibleBoth(EscapedText(s), [QUOTE]);
    VisibleBoth([QUOTE], EscapedText(s) + [QUOTE]);
  }

  /** And a string of visible characters is written as it is, but for quotes and backslashes. */
  lemma PlainQuoted(s: Text)
    requires AllVisible(s) && QUOTE !in s && BACKSLASH !in s
    ensures IsText(s) && Quote(s) == [QUOTE] + s + [QUOTE]
  {
    PlainEscaped(s);
    assert [QUOTE] + (s + [QUOTE]) == [QUOTE] + s + [QUOTE];
  }

  lemma {:induction false} PlainEscaped(s: Text)
    requires AllVisible(s) && QUOTE !in s && BACKSLASH !in s
    ensures IsText(s) && EscapedText(s) == s
  {
    if s != [] {
      PlainEscaped(s[1..]);
      assert s == [s[0]] + s[1..];
    }
  }

  // ----- deeper lines

  /** A text with `gap` behind every line break. */
  function Indented(t: Text, gap: Text): Text
  {
    if t == [] then []
    else (if t[0] == NEWLINE then [NEWLINE] + gap else [t[0]]) + Indented(t[1..], gap)
  }

  lemma {:induction false} IndentedBoth(a: Text, b: Text, gap: Text)
    ensures Indented(a + b, gap) == Indented(a, gap) + Indented(b, gap)
  {
    if a == [] {
      assert a + b == b;
    } else {
      assert (a + b)[1..] == a[1..] + b;
      IndentedBoth(a[1..], b, gap);
      Grouped(if a[0] == NEWLINE then [NEWLINE] + gap else [a[0]], Indented(a[1..], gap), Indented(b, gap));
    }
  }

  lemma Grouped(a: Text, b: Text, c: Text)
    ensures a + (b + c) == (a + b) + c
  {
  }

  lemma {:induction false} OneLine(t: Text, gap: Text)
    requires NEWLINE !in t
    ensures Indented(t, gap) == t
  {
    if t != [] {
      OneLine(t[1..], gap);
      assert t == [t[0]] + t[1..];
    }
  }

  lemma LineIndented(inner: Text, outer: Text, gap: Text)
    requires NEWLINE !in outer
    ensures (gap + inner == [] <==> inner == []) ==> Indented(Line(inner, outer), gap) == Line(gap + inner, gap + outer)
  {
    if inner != [] {
      IndentedBoth([NEWLINE], outer, gap);
      OneLine(outer, gap);
      assert [NEWLINE][1..] == [] && Indented([NEWLINE], gap) == [NEWLINE] + gap;
      Grouped([NEWLINE], gap, outer);
    }
  }

  lemma {:induction false} JoinIndented(parts: seq<Text>, parts': seq<Text>, sep: Text, gap: Text)
    requires |parts| == |parts'| && forall i :: 0 <= i < |parts| ==> Indented(parts[i], gap) == parts'[i]
    ensures Indented(Join(parts, sep), gap) == Join(parts', Indented(sep, gap))
    decreases |parts|
  {
    if |parts| > 1 {
      JoinIndented(parts[1..], parts'[1..], sep, gap);
      IndentedBoth(parts[0], sep + Join(parts[1..], sep), gap);
      IndentedBoth(sep, Join(parts[1..], sep), gap);
    }
  }

  lemma WrappedIndented(open: int, parts: seq<Text>, parts': seq<Text>, close: int, inner: Text, outer: Text, gap: Text)
    requires open != NEWLINE && close != NEWLINE && inner != [] && NEWLINE !in inner && NEWLINE !in outer
    requires |parts| == |parts'| && forall i :: 0 <= i < |parts| ==> Indented(parts[i], gap) == parts'[i]
    ensures Indented(Wrapped(open, parts, close, inner, outer), gap) ==
            Wrapped(open, parts', close, gap + inner, gap + outer)
  {
    hide Join, Indented, Line;
    if parts == [] {
      OneLine([open, close], gap);
    } else {
      WrappedShape(open, parts, close, inner, outer);
      WrappedShape(open, parts', close, gap + inner, gap + outer);
      hide Wrapped;
      var l, m, j := Line(inner, inner), Line(inner, outer), Join(parts, [COMMA] + Line(inner, inner));
      LineIndented(inner, inner, gap);
      LineIndented(inner, outer, gap);
      OneLine([open], gap); OneLine([close], gap); OneLine([COMMA], gap);
      IndentedBoth([COMMA], l, gap);
      JoinIndented(parts, parts', [COMMA] + l, gap);
      IndentedBoth(m, [close], gap);
      IndentedBoth(j, m + [close], gap);
      IndentedBoth(l, j + (m + [close]), gap);
      IndentedBoth([open], l + (j + (m + [close])), gap);
    }
  }

  lemma QuietOneLine(t: Text)
    requires Quiet(t) || AllVisible(t)
    ensures NEWLINE !in t
  {
  }

  /** A value printed behind a gap is the value printed at the margin, with the gap behind every line break. */
  lemma {:induction false} GapIndents(v: Json, inner: Text, gap: Text, st: Style)
    requires Printable(v) && QuietNumbers(st) && st.indent != [] && NEWLINE !in st.indent && NEWLINE !in inner
    ensures Print(v, gap + inner, st) == Indented(Print(v, inner, st), gap)
    decreases v
  {
    hide HostText, TextOf, EscapedText, QuietNumbers, Quiet, AllVisible, Wrapped, Quote, Indented;
    match v
    case Null => OneLine(Ascii("null"), gap);
    case Bool(b) => OneLine(Ascii(if b then "true" else "false"), gap);
    case Str(s) =>
      QuoteVisible(s);
      QuietOneLine(Quote(s));
      OneLine(Quote(s), gap);
    case Plain(x) =>
      QuietHost(x, st);
      QuietOneLine(HostText(x, st));
      OneLine(HostText(x, st), gap);
    case Big(x) =>
      QuietText(x, st.expNeg, st.expPos);
      QuietOneLine(TextOf(x, st.expNeg, st.expPos));
      OneLine(TextOf(x, st.expNeg, st.expPos), gap);
    case Arr(vs) =>
      Grouped(gap, inner, st.indent);
      var next := inner + st.indent;
      var p, p' := ItemTexts(vs, next, st), ItemTexts(vs, gap + next, st);
      forall i | 0 <= i < |vs| ensures Indented(p[i], gap) == p'[i] {
        GapIndents(vs[i], next, gap, st);
      }
      WrappedIndented(OPEN_BRACKET, p, p', CLOSE_BRACKET, next, inner, gap);
    case Obj(es) =>
      Grouped(gap, inner, st.indent);
      var next := inner + st.indent;
      var p, p' := EntryTexts(es, next, st), EntryTexts(es, gap + next, st);
      forall i | 0 <= i < |es| ensures Indented(p[i], gap) == p'[i] {
        GapIndents(es[i].value, next, gap, st);
        EntryIndented(es[i], next, gap, st);
      }
      WrappedIndented(OPEN_BRACE, p, p', CLOSE_BRACE, next, inner, gap);
  }

  lemma EntryIndented(e: Entry, next: Text, gap: Text, st: Style)
    requires IsText(e.key) && Printable(e.value) && next != []
    requires Print(e.value, gap + next, st) == Indented(Print(e.value, next, st), gap)
    ensures Indented(Quote(e.key) + (Colon(next) + Print(e.value, next, st)), gap) ==
            Quote(e.key) + (Colon(gap + next) + Print(e.value, gap + next, st))
  {
    assert Colon(next) == Colon(gap + next) && NEWLINE !in Colon(next);
    hide Print, Quote, Indented, Colon, AllVisible;
    QuoteVisible(e.key);
    QuietOneLine(Quote(e.key));
    OneLine(Quote(e.key), gap);
    OneLine(Colon(next), gap);
    IndentedBoth(Colon(next), Print(e.value, next, st), gap);
    IndentedBoth(Quote(e.key), Colon(next) + Print(e.value, next, st), gap);
  }
}
