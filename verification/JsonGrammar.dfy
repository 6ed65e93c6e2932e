/**
 The JSON that the reader accepts, as a grammar: which texts stand for a value. It is
 the grammar of RFC 8259 with white space between the parts of a text, except that
 the reader is generous with white space, numbers and strings. The reader accepts
 exactly these texts, and returns the value they stand for.
 */
module JsonGrammar {
  import opened Wrappers
  import opened Arithmetic
  import opened Numerals
  import opened NumberText
  import opened Doubles
  import opened JsonCodec
  import opened JsonRoundTrip

  /** A string literal, from quote to quote, and what it stands for. */
  predicate IsString(t: Text, s: Text)
  {
    t != [] && StringAt(t, 0) == Ok(s, |t|)
  }

  /** A number literal, which starts with a digit or a minus sign. */
  ghost predicate IsNumber(t: Text, v: Json, g: Settings)
  {
    exists l :: IsNumeral(l) && (l.neg || l.ip != []) && t == Spell(l) && NumberOf(l, g) == Some(v)
  }

  /** The parts of an array or object, separated by commas, between its brackets. */
  ghost predicate Brackets(t: Text, open: int, parts: seq<Text>, close: int)
  {
    if parts == [] then exists w: Text :: IsGap(w) && t == [open] + (w + [close])
    else t == [open] + (Join(parts, [COMMA]) + [close])
  }

  ghost predicate DistinctKeys(es: seq<Entry>)
  {
    && (forall i :: 0 <= i < |es| ==> es[i].key != PROTO)
    && forall i, j :: 0 <= i < j < |es| ==> es[i].key != es[j].key
  }

  /** The text stands for the value, without white space around it. */
  ghost predicate IsBody(t: Text, v: Json, g: Settings)
    decreases v, 0
  {
    match v
    case Null => t == Ascii("null")
    case Bool(b) => t == if b then Ascii("true") else Ascii("false")
    case Str(s) => IsString(t, s)
    case Plain(_) => IsNumber(t, v, g)
    case Big(_) => IsNumber(t, v, g)
    case Arr(vs) =>
      exists parts: seq<Text> ::
        Brackets(t, OPEN_BRACKET, parts, CLOSE_BRACKET) && |parts| == |vs| &&
        forall i :: 0 <= i < |vs| ==> IsValue(parts[i], vs[i], g)
    case Obj(es) =>
      DistinctKeys(es) &&
      exists parts: seq<Text> ::
        Brackets(t, OPEN_BRACE, parts, CLOSE_BRACE) && |parts| == |es| &&
        forall i :: 0 <= i < |es| ==> IsMember(parts[i], es[i], g)
  }

  /** And with white space around it. */
  ghost predicate IsValue(t: Text, v: Json, g: Settings)
    decreases v, 1
  {
    exists a: Text, core: Text, b: Text :: IsGap(a) && IsGap(b) && IsBody(core, v, g) && t == a + (core + b)
  }

  /** A key, a colon and a value. */
  ghost predicate IsMember(t: Text, e: Entry, g: Settings)
    decreases e, 2
  {
    exists a: Text, k: Text, b: Text, c: Text ::
      IsGap(a) && IsString(k, e.key) && IsGap(b) && IsValue(c, e.value, g) && t == a + (k + (b + ([COLON] + c)))
  }

  // ----- strings wherever they stand

  lemma {:induction false} HexLocal(t: Text, q: nat, u: Text, i: nat, n: nat, acc: int)
    requires Stands(t, q, u)
    requires HexRun(u, i, n, acc).1 < |u| || HexRun(t, q + i, n, acc).1 < q + |u|
    ensures HexRun(t, q + i, n, acc) == (HexRun(u, i, n, acc).0, q + HexRun(u, i, n, acc).1)
    decreases n
  {
    hide HexIndex;
    if n > 0 {
      HexEnds(u, i, n, acc);
      HexEnds(t, q + i, n, acc);
      assert i + 1 < |u|;
      assert t[q + (i + 1)] == t[q..q + |u|][i + 1];
      assert CharAt(t, q + i + 1) == CharAt(u, i + 1);
      if HexIndex(CharAt(u, i + 1)) >= 0 {
        HexLocal(t, q, u, i + 1, n - 1, acc * 16 + HexIndex(CharAt(u, i + 1)));
      }
    }
  }

  lemma HexEnds(t: Text, j: int, n: nat, acc: int)
    requires 0 <= j && n > 0
    ensures HexRun(t, j, n, acc).1 >= j + 1
  {
    hide HexIndex;
  }

  lemma BodyCases(t: Text, q: int)
    requires 0 <= q
    ensures var u, e, x := CharAt(t, q), CharAt(t, q + 1), HexRun(t, q + 1, 4, 0);
            StringBody(t, q) ==
            if u == END then Fail(BadString)
            else if u == QUOTE then Ok([], q + 1)
            else if u != BACKSLASH then Prepend(u, StringBody(t, q + 1))
            else if e == SMALL_U then Prepend(x.0, StringBody(t, x.1 + 1))
            else if Escapee(e) == -1 then Fail(BadString)
            else Prepend(Escapee(e), StringBody(t, q + 2))
  {
    hide HexRun, Escapee, CharAt;
  }

  lemma Within(t: Text, q: nat, u: Text, i: nat)
    requires Stands(t, q, u) && i < |u|
    ensures CharAt(t, q + i) == CharAt(u, i) == u[i]
  {
    assert t[q + i] == t[q..q + |u|][i];
  }

  lemma {:induction false} BodyLocal(t: Text, q: nat, u: Text, i: nat)
    requires Stands(t, q, u)
    requires StringBody(u, i).Ok? || (StringBody(t, q + i).Ok? && StringBody(t, q + i).next <= q + |u|)
    ensures StringBody(u, i).Ok? && StringBody(t, q + i) == Ok(StringBody(u, i).value, q + StringBody(u, i).next)
    decreases if i < |u| then |u| - i else 0
  {
    hide HexRun, Escapee, StringBody, CharAt, Stands;
    BodyCases(u, i);
    BodyCases(t, q + i);
    Within(t, q, u, i);
    if u[i] == BACKSLASH {
      HexEnds(u, i + 1, 4, 0);
      HexEnds(t, q + i + 1, 4, 0);
      Within(t, q, u, i + 1);
      if u[i + 1] == SMALL_U {
        HexLocal(t, q, u, i + 1, 4, 0);
        BodyLocal(t, q, u, HexRun(u, i + 1, 4, 0).1 + 1);
      } else {
        BodyLocal(t, q, u, i + 2);
      }
    } else if u[i] != QUOTE {
      BodyLocal(t, q, u, i + 1);
    }
  }

  /** A string literal is read wherever it stands. */
  lemma StringStands(t: Text, q: nat, u: Text, s: Text)
    requires Stands(t, q, u) && IsString(u, s)
    ensures StringAt(t, q) == Ok(s, q + |u|) && CharAt(t, q) == QUOTE && u[0] == QUOTE
  {
    hide StringBody;
    FirstOf(t, q, u);
    BodyLocal(t, q, u, 1);
  }

  /** And what is read as a string is a literal. */
  lemma StringFound(t: Text, q: nat)
    requires q <= |t| && StringAt(t, q).Ok?
    ensures var n := StringAt(t, q).next; q < n <= |t| && IsString(t[q..n], StringAt(t, q).value)
  {
    hide StringBody;
    var n := StringAt(t, q).next;
    var u := t[q..n];
    assert Stands(t, q, u);
    FirstOf(t, q, u);
    BodyLocal(t, q, u, 1);
  }

  // ----- every text of the grammar is read

  /** Where a value, a string or a closing bracket can be told from what may follow a part. */
  predicate StartsValue(u: int)
  {
    u == QUOTE || u == OPEN_BRACKET || u == OPEN_BRACE || u == MINUS || IsDigit(u) ||
    u == 't' as int || u == 'f' as int || u == 'n' as int
  }

  lemma NumberStarts(t: Text, v: Json, g: Settings)
    requires IsNumber(t, v, g)
    ensures t != [] && (t[0] == MINUS || IsDigit(t[0]))
  {
    hide NumberOf, SpellFraction, SpellExponent, Spelled;
    var l :| IsNumeral(l) && (l.neg || l.ip != []) && t == Spell(l) && NumberOf(l, g) == Some(v);
    if !l.neg { assert Spell(l)[0] == Spelled(l.ip)[0] == ZERO + l.ip[0]; }
  }

  lemma BodyStarts(t: Text, v: Json, g: Settings)
    requires IsBody(t, v, g)
    ensures t != [] && StartsValue(t[0])
  {
    hide IsNumber, Join, StringBody;
    if v.Plain? || v.Big? { NumberStarts(t, v, g); }
  }

  lemma LeafReads(t: Text, p: nat, u: Text, v: Json, g: Settings)
    requires Stands(t, p, u) && IsBody(u, v, g) && Ends(t, p + |u|) && !v.Arr? && !v.Obj?
    ensures ValueAt(t, p, g) == Ok(v, p + |u|)
  {
    hide ValueAt, StringAt, NumberAt, Spell, IsNumeral, NumberOf, Scan, Match, Ends, Stands;
    BodyStarts(u, v, g);
    FirstOf(t, p, u);
    Dispatch(t, p, g);
    match v
    case Null => WordRead(t, p, Ascii("null"));
    case Bool(b) => WordRead(t, p, if b then Ascii("true") else Ascii("false"));
    case Str(s) => StringStands(t, p, u, s);
    case _ => NumberStands(t, p, u, v, g);
  }

  lemma NumberStands(t: Text, p: nat, u: Text, v: Json, g: Settings)
    requires Stands(t, p, u) && IsNumber(u, v, g) && Ends(t, p + |u|)
    ensures NumberAt(t, p, g) == Ok(v, p + |u|) && (CharAt(t, p) == MINUS || IsDigit(CharAt(t, p)))
  {
    hide Spell, NumberOf, Scan;
    NumberStarts(u, v, g);
    FirstOf(t, p, u);
    var l :| IsNumeral(l) && (l.neg || l.ip != []) && u == Spell(l) && NumberOf(l, g) == Some(v);
    LiteralScanned(t, p, l);
  }

  /** Behind a part comes a comma or the closing bracket. */
  predicate Follows(next: Text, close: int)
  {
    && (close == CLOSE_BRACKET || close == CLOSE_BRACE)
    && next != [] && (next[0] == COMMA || next[0] == close)
  }

  lemma GapEnds(t: Text, p: nat, gap: Text, next: Text, close: int)
    requires Stands(t, p, gap + next) && IsGap(gap) && Follows(next, close)
    ensures White(t, p) == p + |gap| && CharAt(t, p + |gap|) == next[0] && Ends(t, p)
  {
    Split(t, p, gap, next);
    FirstOf(t, p + |gap|, next);
    GapSkipped(t, p, gap);
    if gap != [] { FirstOf(t, p, gap); }
  }

  lemma GapBefore(t: Text, p: nat, gap: Text, core: Text)
    requires Stands(t, p, gap + core) && IsGap(gap) && core != [] && !Blank(core[0])
    ensures White(t, p) == p + |gap| && CharAt(t, p + |gap|) == core[0] && Stands(t, p + |gap|, core)
  {
    Split(t, p, gap, core);
    FirstOf(t, p + |gap|, core);
    GapSkipped(t, p, gap);
  }

  lemma {:induction false} PartReads(t: Text, p: nat, part: Text, v: Json, g: Settings, next: Text, close: int)
    returns (n: nat)
    requires Stands(t, p, part + next) && IsValue(part, v, g) && Follows(next, close)
    ensures var q, w := White(t, p), p + |part|;
            && p <= q < n <= w < |t| && StartsValue(CharAt(t, q))
            && ValueAt(t, p, g) == ValueAt(t, q, g) == Ok(v, n)
            && White(t, n) == w && CharAt(t, w) == next[0]
    decreases v, 3, 0
  {
    hide ValueAt, IsBody, White, Stands, Blank, Ends, IsGap;
    var a: Text, core: Text, b: Text :| IsGap(a) && IsGap(b) && IsBody(core, v, g) && part == a + (core + b);
    BodyStarts(core, v, g);
    NotBlank(core[0]);
    Regroup(a, core, b, next);
    GapBefore(t, p, a, core + (b + next));
    var q := p + |a|;
    Split(t, q, core, b + next);
    GapEnds(t, q + |core|, b, next, close);
    BodyReads(t, q, core, v, g);
    n := q + |core|;
    InText(t, p, part + next);
    ValueSkips(t, p, q, g);
  }

  lemma NotBlank(u: int)
    requires StartsValue(u)
    ensures !Blank(u) && u != END && u != CLOSE_BRACKET && u != CLOSE_BRACE
  {
  }

  lemma Regroup(a: Text, core: Text, b: Text, next: Text)
    ensures (a + (core + b)) + next == a + (core + (b + next))
    ensures core != [] ==> (core + (b + next))[0] == core[0]
  {
  }

  lemma InText(t: Text, p: nat, s: Text)
    requires Stands(t, p, s)
    ensures p + |s| <= |t|
  {
  }

  lemma {:induction false} PartsRead(t: Text, p: nat, parts: seq<Text>, vs: seq<Json>, k: nat, g: Settings)
    requires k < |vs| == |parts| && forall i :: 0 <= i < |vs| ==> IsValue(parts[i], vs[i], g)
    requires Stands(t, p, Rest(parts, k, [COMMA], [CLOSE_BRACKET]))
    ensures var q := White(t, p);
            && p <= q < |t| && StartsValue(CharAt(t, q))
            && Elements(t, q, g) == Ok(vs[k..], p + |Rest(parts, k, [COMMA], [CLOSE_BRACKET])|)
    decreases Arr(vs), 1, |vs| - k
  {
    hide *;
    RestFrom(parts, k, [COMMA], [CLOSE_BRACKET]);
    var last := k + 1 == |parts|;
    var next := if last then [CLOSE_BRACKET] else [COMMA] + Rest(parts, k + 1, [COMMA], [CLOSE_BRACKET]);
    MayFollow(next, CLOSE_BRACKET);
    var n := PartReads(t, p, parts[k], vs[k], g, next, CLOSE_BRACKET);
    NotBlank(CharAt(t, White(t, p)));
    var w := p + |parts[k]|;
    ElementsStep(t, White(t, p), vs[k], n, g);
    if !last {
      Split(t, p, parts[k], next);
      Split(t, w, [COMMA], Rest(parts, k + 1, [COMMA], [CLOSE_BRACKET]));
      PartsRead(t, w + 1, parts, vs, k + 1, g);
    }
    FromThere(vs, k);
  }

  lemma FromThere<T>(s: seq<T>, k: nat)
    requires k < |s|
    ensures s[k..] == [s[k]] + s[k + 1..] && (k + 1 == |s| ==> s[k..] == [s[k]])
  {
  }

  lemma MayFollow(next: Text, close: int)
    requires close == CLOSE_BRACKET || close == CLOSE_BRACE
    requires next != [] && (next[0] == COMMA || next[0] == close)
    ensures Follows(next, close)
  {
  }

  /** The first element, and those behind its comma. */
  lemma ElementsStep(t: Text, q: nat, v: Json, n: nat, g: Settings)
    requires q <= |t| && n <= |t| && CharAt(t, q) != END && ValueAt(t, q, g) == Ok(v, n)
    ensures var w := White(t, n);
            && (CharAt(t, w) == CLOSE_BRACKET ==> Elements(t, q, g) == Ok([v], w + 1))
            && (CharAt(t, w) == COMMA ==>
                  var r := Elements(t, White(t, w + 1), g); r.Ok? ==> Elements(t, q, g) == Ok([v] + r.value, r.next))
  {
    hide ValueAt, White, More;
    MoreIs(t, n, CLOSE_BRACKET);
    assert [v] + [] == [v];
  }

  lemma {:induction false} MemberReads(t: Text, p: nat, part: Text, e: Entry, seen: seq<Text>, g: Settings, next: Text)
    requires Stands(t, p, part + next) && IsMember(part, e, g) && Follows(next, CLOSE_BRACE)
    requires e.key != PROTO && e.key !in seen
    ensures var q, w := White(t, p), p + |part|;
            && p <= q < w < |t| && CharAt(t, q) == QUOTE && CharAt(t, w) == next[0]
            && MemberAt(t, q, seen, g) ==
               if next[0] == COMMA then Ok((e, true), White(t, w + 1)) else Ok((e, false), w + 1)
    decreases e, 4, 0
  {
    hide *;
    var a, k, b, c := MemberParts(part, e, g);
    MemberText(a, k, b, c, next);
    KeyStarts(k, e.key);
    GapBefore(t, p, a, k + (b + ([COLON] + (c + next))));
    var q := p + |a|;
    Split(t, q, k, b + ([COLON] + (c + next)));
    StringStands(t, q, k, e.key);
    GapBefore(t, q + |k|, b, [COLON] + (c + next));
    var m := q + |k| + |b|;
    Split(t, m, [COLON], c + next);
    var n := PartReads(t, m + 1, c, e.value, g, next, CLOSE_BRACE);
    MemberStep(t, q, e, q + |k|, n, seen, g);
    FollowsIs(next, CLOSE_BRACE);
  }

  lemma FollowsIs(next: Text, close: int)
    requires Follows(next, close)
    ensures next != [] && (next[0] == COMMA || next[0] == close) && COMMA != close
  {
  }

  lemma MemberParts(part: Text, e: Entry, g: Settings) returns (a: Text, k: Text, b: Text, c: Text)
    requires IsMember(part, e, g)
    ensures IsGap(a) && IsString(k, e.key) && IsGap(b) && IsValue(c, e.value, g)
    ensures part == a + (k + (b + ([COLON] + c))) && |part| == |a| + |k| + |b| + 1 + |c|
  {
    hide IsGap, IsString, IsValue;
    a, k, b, c :|
      IsGap(a) && IsString(k, e.key) && IsGap(b) && IsValue(c, e.value, g) && part == a + (k + (b + ([COLON] + c)));
  }

  /** A member whose key and value are found. */
  lemma MemberStep(t: Text, q: nat, e: Entry, n: nat, m: nat, seen: seq<Text>, g: Settings)
    requires q <= |t| && n <= |t| && StringAt(t, q) == Ok(e.key, n) && CharAt(t, White(t, n)) == COLON
    requires e.key != PROTO && e.key !in seen && White(t, n) < |t| && m <= |t|
    requires ValueAt(t, White(t, n) + 1, g) == Ok(e.value, m)
    ensures var w := White(t, m);
            && (CharAt(t, w) == CLOSE_BRACE ==> MemberAt(t, q, seen, g) == Ok((e, false), w + 1))
            && (CharAt(t, w) == COMMA ==> MemberAt(t, q, seen, g) == Ok((e, true), White(t, w + 1)))
  {
    hide ValueAt, White, More, StringAt;
    MoreIs(t, m, CLOSE_BRACE);
  }

  lemma MoreIs(t: Text, n: nat, close: int)
    requires n <= |t| && close != END
    ensures var w := White(t, n);
            && (CharAt(t, w) == close ==> More(t, n, close) == Ok(false, w + 1))
            && (CharAt(t, w) == COMMA != close ==> More(t, n, close) == Ok(true, White(t, w + 1)))
  {
    hide White;
  }

  lemma KeyStarts(k: Text, key: Text)
    requires IsString(k, key)
    ensures k != [] && k[0] == QUOTE && !Blank(QUOTE) && !Blank(COLON)
  {
    hide StringBody;
  }

  lemma MemberText(a: Text, k: Text, b: Text, c: Text, next: Text)
    ensures (a + (k + (b + ([COLON] + c)))) + next == a + (k + (b + ([COLON] + (c + next))))
    ensures k != [] ==> (k + (b + ([COLON] + (c + next))))[0] == k[0]
  {
  }

  lemma {:induction false} MembersRead(t: Text, p: nat, parts: seq<Text>, es: seq<Entry>, k: nat, seen: seq<Text>,
                                       g: Settings)
    requires k < |es| == |parts| && forall i :: 0 <= i < |es| ==> IsMember(parts[i], es[i], g)
    requires DistinctKeys(es) && |seen| == k && forall i :: 0 <= i < k ==> seen[i] == es[i].key
    requires Stands(t, p, Rest(parts, k, [COMMA], [CLOSE_BRACE]))
    ensures var q := White(t, p);
            && p <= q < |t| && CharAt(t, q) == QUOTE
            && Members(t, q, seen, g) == Ok(es[k..], p + |Rest(parts, k, [COMMA], [CLOSE_BRACE])|)
    decreases Obj(es), 1, |es| - k
  {
    hide *;
    RestFrom(parts, k, [COMMA], [CLOSE_BRACE]);
    var last := k + 1 == |parts|;
    var next := if last then [CLOSE_BRACE] else [COMMA] + Rest(parts, k + 1, [COMMA], [CLOSE_BRACE]);
    MayFollow(next, CLOSE_BRACE);
    KeyIsNew(es, k, seen);
    MemberReads(t, p, parts[k], es[k], seen, g, next);
    var w := p + |parts[k]|;
    MembersStep(t, White(t, p), seen, g);
    if !last {
      Split(t, p, parts[k], next);
      Split(t, w, [COMMA], Rest(parts, k + 1, [COMMA], [CLOSE_BRACE]));
      MembersRead(t, w + 1, parts, es, k + 1, seen + [es[k].key], g);
    }
    FromThere(es, k);
  }

  lemma KeyIsNew(es: seq<Entry>, k: nat, seen: seq<Text>)
    requires DistinctKeys(es) && |seen| == k < |es| && forall i :: 0 <= i < k ==> seen[i] == es[i].key
    ensures es[k].key != PROTO && es[k].key !in seen
    ensures var more := seen + [es[k].key]; |more| == k + 1 && forall i :: 0 <= i < k + 1 ==> more[i] == es[i].key
    ensures COMMA != CLOSE_BRACE
  {
  }

  /** The first member, and those behind its comma. */
  lemma MembersStep(t: Text, q: nat, seen: seq<Text>, g: Settings)
    requires q <= |t| && CharAt(t, q) == QUOTE && MemberAt(t, q, seen, g).Ok?
    ensures var r := MemberAt(t, q, seen, g);
            var e := r.value.0;
            if !r.value.1 then Members(t, q, seen, g) == Ok([e], r.next)
            else var s := Members(t, r.next, seen + [e.key], g);
                 s.Ok? ==> Members(t, q, seen, g) == Ok([e] + s.value, s.next)
  {
    hide MemberAt;
    if MemberAt(t, q, seen, g).Ok? {
      assert [MemberAt(t, q, seen, g).value.0] + [] == [MemberAt(t, q, seen, g).value.0];
    }
  }

  /** A text of the grammar is read to its end wherever it stands. */
  lemma {:induction false} BodyReads(t: Text, p: nat, u: Text, v: Json, g: Settings)
    requires Stands(t, p, u) && IsBody(u, v, g) && Ends(t, p + |u|)
    ensures ValueAt(t, p, g) == Ok(v, p + |u|)
    decreases v, 2, 0
  {
    hide *;
    match v
    case Arr(vs) =>
      var parts := ArrayParts(u, vs, g);
      Opens(t, p, u, OPEN_BRACKET, parts, CLOSE_BRACKET, g);
      if vs != [] {
        PartsRead(t, p + 1, parts, vs, 0, g);
        NotBlank(CharAt(t, White(t, p + 1)));
      }
      ArrayIs(t, p, vs, g);
    case Obj(es) =>
      var parts := ObjectParts(u, es, g);
      Opens(t, p, u, OPEN_BRACE, parts, CLOSE_BRACE, g);
      if es != [] {
        MembersRead(t, p + 1, parts, es, 0, [], g);
      }
      ObjectIs(t, p, es, g);
    case _ => LeafReads(t, p, u, v, g);
  }

  lemma ArrayParts(u: Text, vs: seq<Json>, g: Settings) returns (parts: seq<Text>)
    requires IsBody(u, Arr(vs), g)
    ensures Brackets(u, OPEN_BRACKET, parts, CLOSE_BRACKET) && |parts| == |vs|
    ensures forall i :: 0 <= i < |vs| ==> IsValue(parts[i], vs[i], g)
  {
    hide Brackets, IsValue;
    parts :| Brackets(u, OPEN_BRACKET, parts, CLOSE_BRACKET) && |parts| == |vs| &&
      forall i :: 0 <= i < |vs| ==> IsValue(parts[i], vs[i], g);
  }

  lemma ObjectParts(u: Text, es: seq<Entry>, g: Settings) returns (parts: seq<Text>)
    requires IsBody(u, Obj(es), g)
    ensures Brackets(u, OPEN_BRACE, parts, CLOSE_BRACE) && |parts| == |es| && DistinctKeys(es)
    ensures forall i :: 0 <= i < |es| ==> IsMember(parts[i], es[i], g)
  {
    hide Brackets, IsMember, DistinctKeys;
    parts :| Brackets(u, OPEN_BRACE, parts, CLOSE_BRACE) && |parts| == |es| &&
      forall i :: 0 <= i < |es| ==> IsMember(parts[i], es[i], g);
  }

  /** An array whose elements are found, or that ends at once. */
  lemma ArrayIs(t: Text, p: nat, vs: seq<Json>, g: Settings)
    requires p < |t|
    ensures var q := White(t, p + 1);
            if CharAt(t, q) == CLOSE_BRACKET then ArrayAt(t, p, g) == Ok(Arr([]), q + 1)
            else Elements(t, q, g).Ok? ==> ArrayAt(t, p, g) == Ok(Arr(Elements(t, q, g).value), Elements(t, q, g).next)
    ensures vs[0..] == vs
  {
    hide White, Elements;
  }

  lemma ObjectIs(t: Text, p: nat, es: seq<Entry>, g: Settings)
    requires p < |t|
    ensures var q := White(t, p + 1);
            if CharAt(t, q) == CLOSE_BRACE then ObjectAt(t, p, g) == Ok(Obj([]), q + 1)
            else Members(t, q, [], g).Ok? ==>
                   ObjectAt(t, p, g) == Ok(Obj(Members(t, q, [], g).value), Members(t, q, [], g).next)
    ensures es[0..] == es && QUOTE != CLOSE_BRACE
  {
    hide White, Members;
  }

  /** The opening bracket, and the closing one if there is nothing between them. */
  lemma Opens(t: Text, p: nat, u: Text, open: int, parts: seq<Text>, close: int, g: Settings)
    requires Stands(t, p, u) && Brackets(u, open, parts, close)
    requires (open == OPEN_BRACKET && close == CLOSE_BRACKET) || (open == OPEN_BRACE && close == CLOSE_BRACE)
    ensures CharAt(t, p) == open && p < |t|
    ensures open == OPEN_BRACKET ==> ValueAt(t, p, g) == ArrayAt(t, p, g)
    ensures open == OPEN_BRACE ==> ValueAt(t, p, g) == ObjectAt(t, p, g)
    ensures if parts == [] then p + |u| == White(t, p + 1) + 1 <= |t| && CharAt(t, White(t, p + 1)) == close
            else Stands(t, p + 1, Rest(parts, 0, [COMMA], [close])) &&
                 p + |u| == p + 1 + |Rest(parts, 0, [COMMA], [close])|
  {
    hide ValueAt, White, Join, ArrayAt, ObjectAt;
    FirstOf(t, p, u);
    Dispatch(t, p, g);
    if parts == [] {
      var w: Text :| IsGap(w) && u == [open] + (w + [close]);
      Split(t, p, [open], w + [close]);
      GapEnds(t, p + 1, w, [close], close);
    } else {
      assert parts[0..] == parts;
      Split(t, p, [open], Join(parts, [COMMA]) + [close]);
    }
  }

  // ----- and nothing else is

  lemma GapFound(t: Text, p: nat)
    requires p <= |t|
    ensures p <= White(t, p) <= |t| && IsGap(t[p..White(t, p)])
  {
    var q := White(t, p);
    forall k | 0 <= k < q - p ensures Blank(t[p..q][k]) {
      assert Blank(CharAt(t, p + k));
    }
  }

  lemma Pieces(t: Text, a: nat, b: nat, c: nat)
    requires a <= b <= c <= |t|
    ensures t[a..c] == t[a..b] + t[b..c]
  {
  }

  lemma UnitAt(t: Text, w: nat, u: int)
    requires w <= |t| && CharAt(t, w) == u != END
    ensures w < |t| && t[w..w + 1] == [u]
  {
  }

  /** The text from `q` to `w` stands for a value if what is read in it does and the rest is white space. */
  lemma SpacedFound(t: Text, q: nat, v: Json, n: nat, g: Settings)
    requires q <= |t| && White(t, q) <= n <= |t| && IsBody(t[White(t, q)..n], v, g)
    ensures n <= White(t, n) <= |t| && IsValue(t[q..White(t, n)], v, g)
  {
    hide White, IsBody, IsGap;
    var w0, w := White(t, q), White(t, n);
    GapFound(t, q);
    GapFound(t, n);
    Pieces(t, q, w0, w);
    Pieces(t, w0, n, w);
    assert t[q..w] == t[q..w0] + (t[w0..n] + t[n..w]);
  }

  /** White space in front of a value belongs to it. */
  lemma Shifted(gap: Text, t: Text, v: Json, g: Settings)
    requires IsGap(gap) && IsValue(t, v, g)
    ensures IsValue(gap + t, v, g)
  {
    hide IsBody;
    var a: Text, core: Text, b: Text :| IsGap(a) && IsGap(b) && IsBody(core, v, g) && t == a + (core + b);
    assert IsGap(gap + a);
    assert gap + (a + (core + b)) == (gap + a) + (core + b);
  }

  lemma ShiftedMember(gap: Text, t: Text, e: Entry, g: Settings)
    requires IsGap(gap) && IsMember(t, e, g)
    ensures IsMember(gap + t, e, g)
  {
    hide *;
    var a, k, b, c := MemberParts(t, e, g);
    GapBoth(gap, a);
    MemberIs(gap + a, k, b, c, e, g);
    assert gap + (a + (k + (b + ([COLON] + c)))) == (gap + a) + (k + (b + ([COLON] + c)));
  }

  lemma GapBoth(a: Text, b: Text)
    requires IsGap(a) && IsGap(b)
    ensures IsGap(a + b)
  {
  }

  /** One more part in front, and the white space behind its comma put to the next one. */
  function Joined(part: Text, gap: Text, parts: seq<Text>): seq<Text>
    requires parts != []
  {
    [part, gap + parts[0]] + parts[1..]
  }

  lemma JoinedText(part: Text, gap: Text, parts: seq<Text>, close: Text)
    requires parts != []
    ensures Join(Joined(part, gap, parts), [COMMA]) + close ==
            part + ([COMMA] + (gap + (Join(parts, [COMMA]) + close)))
  {
    var more := Joined(part, gap, parts)[1..];
    assert more == [gap + parts[0]] + parts[1..] && more[1..] == parts[1..];
    var j := Join(parts, [COMMA]);
    assert Join(more, [COMMA]) == gap + j;
    assert Join(Joined(part, gap, parts), [COMMA]) == part + ([COMMA] + (gap + j));
    hide Join;
    assert (part + ([COMMA] + (gap + j))) + close == part + ([COMMA] + (gap + (j + close)));
  }

  /** The text of the parts from `q` on, with the comma at `w`. */
  lemma CommaText(t: Text, q: nat, w: nat, parts: seq<Text>, n: nat, close: int)
    requires q <= w < |t| && t[w] == COMMA && parts != []
    requires White(t, w + 1) <= n <= |t| && t[White(t, w + 1)..n] == Join(parts, [COMMA]) + [close]
    ensures var gap := t[w + 1..White(t, w + 1)];
            IsGap(gap) && t[q..n] == Join(Joined(t[q..w], gap, parts), [COMMA]) + [close]
  {
    hide White, Join, IsGap;
    GapFound(t, w + 1);
    var r := White(t, w + 1);
    Pieces(t, q, w, n);
    Pieces(t, w, w + 1, n);
    Pieces(t, w + 1, r, n);
    assert t[w..w + 1] == [COMMA];
    JoinedText(t[q..w], t[w + 1..r], parts, [close]);
  }

  lemma JoinOne(part: Text)
    ensures Join([part], [COMMA]) == part
  {
  }

  /** What `Elements` is made of. */
  lemma ElementsParts(t: Text, q: nat, g: Settings) returns (v: Json, n: nat)
    requires q <= |t| && Elements(t, q, g).Ok?
    ensures ValueAt(t, q, g) == Ok(v, n) && q < n <= |t|
    ensures var w, r := White(t, n), Elements(t, q, g);
            && (CharAt(t, w) == CLOSE_BRACKET || CharAt(t, w) == COMMA)
            && if CharAt(t, w) == CLOSE_BRACKET then r == Ok([v], w + 1)
               else var s := Elements(t, White(t, w + 1), g);
                    w < |t| && s.Ok? && r == Ok([v] + s.value, s.next)
  {
    hide ValueAt, White;
    v, n := ValueAt(t, q, g).value, ValueAt(t, q, g).next;
    assert [v] + [] == [v];
  }

  lemma {:induction false} ElementsFound(t: Text, q: nat, g: Settings) returns (parts: seq<Text>)
    requires q <= |t| && Elements(t, q, g).Ok?
    ensures var r := Elements(t, q, g);
            && |parts| == |r.value| > 0 && q <= r.next <= |t|
            && t[q..r.next] == Join(parts, [COMMA]) + [CLOSE_BRACKET]
            && forall i :: 0 <= i < |parts| ==> IsValue(parts[i], r.value[i], g)
    decreases |t| - q, 3
  {
    hide ValueAt, White, Elements, IsValue, IsBody, Join, IsGap;
    var v, n := ElementsParts(t, q, g);
    BodyFound(t, q, g);
    SpacedFound(t, q, v, n, g);
    var w := White(t, n);
    var part := t[q..w];
    UnitAt(t, w, CharAt(t, w));
    if CharAt(t, w) == CLOSE_BRACKET {
      parts := [part];
      JoinOne(part);
      Pieces(t, q, w, w + 1);
    } else {
      var s := Elements(t, White(t, w + 1), g);
      var more := ElementsFound(t, White(t, w + 1), g);
      CommaText(t, q, w, more, s.next, CLOSE_BRACKET);
      var gap := t[w + 1..White(t, w + 1)];
      Shifted(gap, more[0], s.value[0], g);
      parts := Joined(part, gap, more);
    }
  }

  lemma {:induction false} MemberFound(t: Text, q: nat, seen: seq<Text>, g: Settings) returns (w: nat)
    requires q <= |t| && MemberAt(t, q, seen, g).Ok?
    ensures var r := MemberAt(t, q, seen, g);
            var e := r.value.0;
            && e.key != PROTO && e.key !in seen
            && q <= w < |t| && IsMember(t[q..w], e, g)
            && if r.value.1 then t[w] == COMMA && r.next == White(t, w + 1) else t[w] == CLOSE_BRACE && r.next == w + 1
    decreases |t| - q, 2
  {
    hide ValueAt, White, StringAt, IsBody, IsString, IsGap, IsValue, IsMember;
    var e := MemberAt(t, q, seen, g).value.0;
    var n := StringAt(t, q).next;
    var c := White(t, n);
    StringFound(t, q);
    GapFound(t, n);
    UnitAt(t, c, COLON);
    var m := ValueAt(t, c + 1, g).next;
    BodyFound(t, c + 1, g);
    SpacedFound(t, c + 1, e.value, m, g);
    w := White(t, m);
    MoreIs(t, m, CLOSE_BRACE);
    UnitAt(t, w, CharAt(t, w));
    Pieces(t, q, n, w);
    Pieces(t, n, c, w);
    Pieces(t, c, c + 1, w);
    NoGap();
    MemberIs([], t[q..n], t[n..c], t[c + 1..w], e, g);
    var m' := t[q..n] + (t[n..c] + ([COLON] + t[c + 1..w]));
    assert [] + m' == m';
  }

  lemma MemberIs(a: Text, k: Text, b: Text, c: Text, e: Entry, g: Settings)
    requires IsGap(a) && IsString(k, e.key) && IsGap(b) && IsValue(c, e.value, g)
    ensures IsMember(a + (k + (b + ([COLON] + c))), e, g)
  {
    hide IsString, IsValue, IsGap;
  }

  lemma NoGap()
    ensures IsGap([])
  {
  }

  lemma MembersParts(t: Text, q: nat, seen: seq<Text>, g: Settings)
    requires q <= |t| && Members(t, q, seen, g).Ok?
    ensures MemberAt(t, q, seen, g).Ok?
    ensures var r, m := Members(t, q, seen, g), MemberAt(t, q, seen, g);
            var e := m.value.0;
            if !m.value.1 then r == Ok([e], m.next)
            else var s := Members(t, m.next, seen + [e.key], g); s.Ok? && r == Ok([e] + s.value, s.next)
  {
    hide MemberAt;
    assert [MemberAt(t, q, seen, g).value.0] + [] == [MemberAt(t, q, seen, g).value.0];
  }

  /** Keys that are distinct, ordinary, and none of those seen. */
  ghost predicate FreshKeys(es: seq<Entry>, seen: seq<Text>)
  {
    DistinctKeys(es) && forall i :: 0 <= i < |es| ==> es[i].key !in seen
  }

  lemma FreshStep(e: Entry, es: seq<Entry>, seen: seq<Text>)
    requires e.key != PROTO && e.key !in seen && FreshKeys(es, seen + [e.key])
    ensures FreshKeys([e] + es, seen)
  {
    assert e.key in seen + [e.key];
    forall i | 0 <= i < |es| ensures es[i].key != e.key && es[i].key !in seen {
      assert es[i].key !in seen + [e.key];
    }
  }

  lemma {:induction false} MembersFound(t: Text, q: nat, seen: seq<Text>, g: Settings) returns (parts: seq<Text>)
    requires q <= |t| && Members(t, q, seen, g).Ok?
    ensures var r := Members(t, q, seen, g);
            && |parts| == |r.value| > 0 && q <= r.next <= |t| && FreshKeys(r.value, seen)
            && t[q..r.next] == Join(parts, [COMMA]) + [CLOSE_BRACE]
            && forall i :: 0 <= i < |parts| ==> IsMember(parts[i], r.value[i], g)
    decreases |t| - q, 3
  {
    hide White, Members, MemberAt, IsMember, Join, IsGap, FreshKeys;
    MembersParts(t, q, seen, g);
    var m := MemberAt(t, q, seen, g);
    var e := m.value.0;
    var w := MemberFound(t, q, seen, g);
    var part := t[q..w];
    if !m.value.1 {
      parts := [part];
      JoinOne(part);
      Pieces(t, q, w, w + 1);
      assert FreshKeys([e], seen) by { OneFresh(e, seen); }
    } else {
      var s := Members(t, m.next, seen + [e.key], g);
      var more := MembersFound(t, m.next, seen + [e.key], g);
      CommaText(t, q, w, more, s.next, CLOSE_BRACE);
      var gap := t[w + 1..White(t, w + 1)];
      ShiftedMember(gap, more[0], s.value[0], g);
      parts := Joined(part, gap, more);
      FreshStep(e, s.value, seen);
    }
  }

  lemma OneFresh(e: Entry, seen: seq<Text>)
    requires e.key != PROTO && e.key !in seen
    ensures FreshKeys([e], seen)
  {
  }

  /** What is read stands for the value. */
  lemma {:induction false} BodyFound(t: Text, p: nat, g: Settings)
    requires p <= |t| && ValueAt(t, p, g).Ok?
    ensures var w, r := White(t, p), ValueAt(t, p, g); p <= w < r.next <= |t| && IsBody(t[w..r.next], r.value, g)
    decreases |t| - p, 1
  {
    hide White, ArrayAt, ObjectAt, StringAt, NumberAt, WordAt, IsString, IsNumber, Brackets, IsValue, IsMember, IsBody;
    var w := White(t, p);
    var u := CharAt(t, w);
    if u == OPEN_BRACE {
      ObjectFound(t, w, g);
    } else if u == OPEN_BRACKET {
      ArrayFound(t, w, g);
    } else if u == QUOTE {
      StringFound(t, w);
      StringBodyIs(t[w..StringAt(t, w).next], StringAt(t, w).value, g);
    } else if u == MINUS || IsDigit(u) {
      NumberIs(t, w, g);
    } else {
      WordIs(t, w, g);
    }
  }

  lemma StringBodyIs(t: Text, s: Text, g: Settings)
    requires IsString(t, s)
    ensures IsBody(t, Str(s), g)
  {
  }

  lemma NumberIs(t: Text, w: nat, g: Settings)
    requires w <= |t| && NumberAt(t, w, g).Ok? && (CharAt(t, w) == MINUS || IsDigit(CharAt(t, w)))
    ensures var r := NumberAt(t, w, g); w < r.next <= |t| && IsBody(t[w..r.next], r.value, g)
  {
    hide Scan, Spell, NumberOf, WellFormed;
    ScanSound(t, w);
    var (l, q) := Scan(t, w);
    NumberKind(l, g);
    assert t[w..q][0] == t[w];
    FirstUnit(l);
    hide IsNumeral;
    if !l.neg { DigitFirst(l); }
    assert IsNumber(t[w..q], NumberOf(l, g).value, g);
  }

  lemma NumberKind(l: Literal, g: Settings)
    requires WellFormed(l) && NumberOf(l, g).Some?
    ensures IsNumeral(l) && (NumberOf(l, g).value.Plain? || NumberOf(l, g).value.Big?)
  {
    hide ReadLiteral, Unrounded, Nearby, Overflows, AboveInteger;
  }

  lemma DigitFirst(l: Literal)
    requires WellFormed(l) && !l.neg && Spell(l) != [] && IsDigit(Spell(l)[0])
    ensures l.ip != []
  {
    hide Spelled;
  }

  lemma {:induction false} MatchIs(t: Text, p: nat, word: Text)
    requires p <= |t| && (forall i :: 0 <= i < |word| ==> word[i] != END) && Match(t, p, word).Ok?
    ensures p + |word| <= |t| && t[p..p + |word|] == word
    decreases |word|
  {
    if word != [] {
      MatchIs(t, p + 1, word[1..]);
      assert t[p..p + |word|] == [t[p]] + t[p + 1..p + 1 + |word[1..]|];
    }
  }

  lemma WordIs(t: Text, w: nat, g: Settings)
    requires w <= |t| && WordAt(t, w).Ok?
    ensures var r := WordAt(t, w); w < r.next <= |t| && IsBody(t[w..r.next], r.value, g)
  {
    hide Match;
    var u := CharAt(t, w);
    var word := Ascii(if u == 't' as int then "true" else if u == 'f' as int then "false" else "null");
    MatchIs(t, w, word);
  }

  /** The first part with the white space in front of it. */
  function Prefixed(gap: Text, parts: seq<Text>): seq<Text>
    requires parts != []
  {
    [gap + parts[0]] + parts[1..]
  }

  lemma PartsBetween(t: Text, w: nat, parts: seq<Text>, n: nat, open: int, close: int)
    requires w < n <= |t| && t[w] == open && parts != []
    requires White(t, w + 1) <= n && t[White(t, w + 1)..n] == Join(parts, [COMMA]) + [close]
    ensures var gap := t[w + 1..White(t, w + 1)];
            IsGap(gap) && Brackets(t[w..n], open, Prefixed(gap, parts), close)
  {
    hide White, IsGap;
    GapFound(t, w + 1);
    var q := White(t, w + 1);
    var gap := t[w + 1..q];
    Pieces(t, w, w + 1, n);
    Pieces(t, w + 1, q, n);
    assert t[w..w + 1] == [open];
    assert Prefixed(gap, parts)[1..] == parts[1..];
    assert Join(Prefixed(gap, parts), [COMMA]) == gap + Join(parts, [COMMA]);
    hide Join;
    assert gap + (Join(parts, [COMMA]) + [close]) == (gap + Join(parts, [COMMA])) + [close];
  }

  lemma NothingBetween(t: Text, w: nat, open: int, close: int)
    requires w < |t| && t[w] == open && CharAt(t, White(t, w + 1)) == close != END
    ensures White(t, w + 1) < |t| && Brackets(t[w..White(t, w + 1) + 1], open, [], close)
  {
    hide *;
    GapFound(t, w + 1);
    var q := White(t, w + 1);
    UnitAt(t, q, close);
    Pieces(t, w, w + 1, q + 1);
    Pieces(t, w + 1, q, q + 1);
    assert t[w..w + 1] == [open];
    EmptyBrackets(open, t[w + 1..q], close);
  }

  lemma EmptyBrackets(open: int, gap: Text, close: int)
    requires IsGap(gap)
    ensures Brackets([open] + (gap + [close]), open, [], close)
  {
    hide IsGap;
  }

  lemma ArrayBody(u: Text, parts: seq<Text>, vs: seq<Json>, g: Settings)
    requires Brackets(u, OPEN_BRACKET, parts, CLOSE_BRACKET) && |parts| == |vs|
    requires forall i :: 0 <= i < |vs| ==> IsValue(parts[i], vs[i], g)
    ensures IsBody(u, Arr(vs), g)
  {
    hide Brackets, IsValue;
  }

  lemma ObjectBody(u: Text, parts: seq<Text>, es: seq<Entry>, g: Settings)
    requires Brackets(u, OPEN_BRACE, parts, CLOSE_BRACE) && |parts| == |es| && DistinctKeys(es)
    requires forall i :: 0 <= i < |es| ==> IsMember(parts[i], es[i], g)
    ensures IsBody(u, Obj(es), g)
  {
    hide Brackets, IsMember, DistinctKeys;
  }

  lemma {:induction false} ArrayFound(t: Text, w: nat, g: Settings)
    requires w < |t| && t[w] == OPEN_BRACKET && ArrayAt(t, w, g).Ok?
    ensures var r := ArrayAt(t, w, g); w < r.next <= |t| && IsBody(t[w..r.next], r.value, g)
    decreases |t| - w, 0
  {
    hide White, Elements, IsValue, IsBody, Join, IsGap, Brackets;
    var q, r := White(t, w + 1), ArrayAt(t, w, g);
    if CharAt(t, q) == CLOSE_BRACKET {
      NothingBetween(t, w, OPEN_BRACKET, CLOSE_BRACKET);
      ArrayBody(t[w..r.next], [], [], g);
    } else {
      var parts := ElementsFound(t, q, g);
      var vs, gap := Elements(t, q, g).value, t[w + 1..q];
      PartsBetween(t, w, parts, r.next, OPEN_BRACKET, CLOSE_BRACKET);
      Shifted(gap, parts[0], vs[0], g);
      ArrayBody(t[w..r.next], Prefixed(gap, parts), vs, g);
    }
  }

  lemma {:induction false} ObjectFound(t: Text, w: nat, g: Settings)
    requires w < |t| && t[w] == OPEN_BRACE && ObjectAt(t, w, g).Ok?
    ensures var r := ObjectAt(t, w, g); w < r.next <= |t| && IsBody(t[w..r.next], r.value, g)
    decreases |t| - w, 0
  {
    hide White, Members, IsMember, IsBody, Join, IsGap, Brackets;
    var q, r := White(t, w + 1), ObjectAt(t, w, g);
    if CharAt(t, q) == CLOSE_BRACE {
      NothingBetween(t, w, OPEN_BRACE, CLOSE_BRACE);
      ObjectBody(t[w..r.next], [], [], g);
    } else {
      var parts := MembersFound(t, q, [], g);
      var es, gap := Members(t, q, [], g).value, t[w + 1..q];
      PartsBetween(t, w, parts, r.next, OPEN_BRACE, CLOSE_BRACE);
      ShiftedMember(gap, parts[0], es[0], g);
      ObjectBody(t[w..r.next], Prefixed(gap, parts), es, g);
    }
  }

  // ----- the whole text

  /**
   `parse` accepts exactly the texts that stand for a value, white space around it
   allowed, and returns that value.
   */
  lemma ParseIff(t: Text, v: Json, g: Settings)
    requires IsText(t)
    ensures Parse(t, g) == Ok(v, |t|) <==> IsValue(t, v, g)
  {
    hide ValueAt, White, IsBody, IsValue, IsGap;
    FromStart(t, g);
    if IsValue(t, v, g) {
      WholeRead(t, v, g);
    }
    if Parse(t, g) == Ok(v, |t|) {
      BodyFound(t, 0, g);
      var n := ValueAt(t, 0, g).next;
      SpacedFound(t, 0, v, n, g);
      assert t[0..|t|] == t;
    }
  }

  /** The reader starts with a space in front of the text. */
  lemma FromStart(t: Text, g: Settings)
    ensures ValueAt(t, -1, g) == ValueAt(t, 0, g)
  {
    hide ArrayAt, ObjectAt, StringAt, NumberAt, WordAt;
    assert White(t, -1) == White(t, 0);
  }

  lemma WholeRead(t: Text, v: Json, g: Settings)
    requires IsText(t) && IsValue(t, v, g)
    ensures Parse(t, g) == Ok(v, |t|)
  {
    hide *;
    var a, core, b := ValueParts(t, v, g);
    BodyStarts(core, v, g);
    NotBlank(core[0]);
    FromStart(t, g);
    Whole(t);
    var q, n := |a|, |a| + |core|;
    assert (core + b)[0] == core[0];
    GapBefore(t, 0, a, core + b);
    Split(t, q, core, b);
    BlankEnd(t, n, b);
    BodyReads(t, q, core, v, g);
    ValueSkips(t, 0, q, g);
    ParseEnds(t, v, n, g);
  }

  lemma ValueParts(t: Text, v: Json, g: Settings) returns (a: Text, core: Text, b: Text)
    requires IsValue(t, v, g)
    ensures IsGap(a) && IsGap(b) && IsBody(core, v, g) && t == a + (core + b) && |t| == |a| + |core| + |b|
  {
    hide IsGap, IsBody;
    a, core, b :| IsGap(a) && IsGap(b) && IsBody(core, v, g) && t == a + (core + b);
  }

  lemma ParseEnds(t: Text, v: Json, n: int, g: Settings)
    requires ValueAt(t, -1, g) == Ok(v, n) && -1 <= n <= |t| && CharAt(t, White(t, n)) == END
    ensures Parse(t, g) == Ok(v, White(t, n))
  {
    hide ValueAt, White;
  }

  lemma Whole(t: Text)
    ensures Stands(t, 0, t)
  {
  }

  lemma BlankEnd(t: Text, n: nat, b: Text)
    requires Stands(t, n, b) && n + |b| == |t| && IsGap(b)
    ensures White(t, n) == |t| && CharAt(t, |t|) == END && Ends(t, n)
  {
    GapSkipped(t, n, b);
    if b != [] { FirstOf(t, n, b); }
  }
}
