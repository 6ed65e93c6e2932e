/**
 JSON values, what the reader makes of a text, and what the printer writes. The
 classes of `JsonReader` and `JsonPrinter` are proved to compute these functions.
 */
module JsonCodec {
  import opened Wrappers
  import opened Digits
  import opened Numbers
  import opened Arithmetic
  import opened Numerals
  import opened NumberText
  import opened Bases
  import opened Doubles

  /**
   `Plain` is a number of the host, `Big` a BigNumber. The entries of an object are
   in the order in which it lists them.
   */
  datatype Json =
    | Null
    | Bool(b: bool)
    | Str(t: Text)
    | Plain(x: Number)
    | Big(x: Number)
    | Arr(items: seq<Json>)
    | Obj(entries: seq<Entry>)

  datatype Entry = Entry(key: Text, value: Json)

  /**
   What the reader throws. `PrototypeKey` is no error of the source: it says that the
   key `__proto__` was met, whose assignment changes the prototype of an object, and
   what the source does from there on is not modelled.
   */
  datatype ParseError =
    | Expected(unit: int)
    | Unexpected
    | BadNumber
    | BadString
    | BadArray
    | BadObject
    | DuplicateKey(key: Text)
    | PrototypeKey
    | SyntaxError

  /** What a function of the reader finds at a position, and where the next character is then. */
  datatype Parsed<T> = Ok(value: T, next: int) | Fail(error: ParseError)

  const END := -1
  const SPACE := ' ' as int
  const NEWLINE := '\n' as int
  const QUOTE := '"' as int
  const BACKSLASH := '\\' as int
  const COMMA := ',' as int
  const COLON := ':' as int
  const OPEN_BRACKET := '[' as int
  const CLOSE_BRACKET := ']' as int
  const OPEN_BRACE := '{' as int
  const CLOSE_BRACE := '}' as int
  const SMALL_U := 'u' as int

  /** The key that is no ordinary key. */
  const PROTO: Text := Ascii("__proto__")

  predicate IsText(t: Text)
  {
    forall i :: 0 <= i < |t| ==> 0 <= t[i] < 0x10000
  }

  // ----- the reader

  /** The current character, the space that the reader starts with, or the end. */
  function CharAt(t: Text, p: int): int
    requires p >= -1
  {
    if p == -1 then SPACE else if p < |t| then t[p] else END
  }

  predicate Blank(u: int)
  {
    0 <= u <= SPACE
  }

  function White(t: Text, p: int): (q: int)
    requires -1 <= p <= |t|
    ensures p <= q <= |t| && 0 <= q && !Blank(CharAt(t, q))
    ensures forall k :: p <= k < q ==> Blank(CharAt(t, k))
    decreases |t| - p
  {
    if Blank(CharAt(t, p)) then White(t, p + 1) else p
  }

  function Match(t: Text, p: int, word: Text): (r: Parsed<()>)
    requires 0 <= p <= |t| && forall i :: 0 <= i < |word| ==> word[i] != END
    ensures r.Ok? ==> r.next == p + |word| <= |t|
    decreases |word|
  {
    if word == [] then Ok((), p)
    else if CharAt(t, p) != word[0] then Fail(Expected(word[0]))
    else Match(t, p + 1, word[1..])
  }

  /** `true`, `false` or `null`. */
  function WordAt(t: Text, p: int): (r: Parsed<Json>)
    requires 0 <= p <= |t|
    ensures r.Ok? ==> p < r.next <= |t|
  {
    var u := CharAt(t, p);
    if u == 't' as int then Named(Match(t, p, Ascii("true")), Bool(true))
    else if u == 'f' as int then Named(Match(t, p, Ascii("false")), Bool(false))
    else if u == 'n' as int then Named(Match(t, p, Ascii("null")), Null)
    else Fail(Unexpected)
  }

  function Named(r: Parsed<()>, v: Json): Parsed<Json>
  {
    match r
    case Ok(_, n) => Ok(v, n)
    case Fail(e) => Fail(e)
  }

  /** The exact decimal that a literal denotes. */
  function Unrounded(l: Literal): Number
    requires WellFormed(l)
  {
    DigitsNat(l);
    var s := if l.neg then -1 else 1;
    if Val(l.ip + l.fp, 10) == 0 then Zero(s) else Exact(s, Val(l.ip + l.fp, 10), |l.fp| - ExponentOf(l))
  }

  lemma UnroundedValid(l: Literal)
    requires WellFormed(l)
    ensures Valid(Unrounded(l)) && Finite(Unrounded(l)) && Unrounded(l).s == if l.neg then -1 else 1
  {
    hide Val, Exact, ExponentOf;
    DigitsNat(l);
    if Val(l.ip + l.fp, 10) > 0 {
      ExactMeaning(if l.neg then -1 else 1, Val(l.ip + l.fp, 10), |l.fp| - ExponentOf(l));
    }
  }

  /** The value of a number literal: decided by its double, and a big number when that exceeds 2^53. */
  function NumberOf(l: Literal, g: Settings): Option<Json>
    requires WellFormed(l)
  {
    UnroundedValid(l);
    var d := Nearby(Unrounded(l));
    if !IsNumeral(l) || Overflows(d) then None
    else if AboveInteger(d) then Some(Big(ReadLiteral(l, g)))
    else Some(Plain(AsNumber(Unrounded(l).s, d)))
  }

  /** What is found at a position is well formed, and it is not empty if it is a number. */
  lemma NumberFound(t: Text, p: nat, g: Settings)
    requires p <= |t|
    ensures var (l, q) := Scan(t, p); WellFormed(l) && (NumberOf(l, g).Some? ==> p < q)
  {
    hide Scan, Spell, Val, ReadLiteral, Unrounded, Nearby, WellFormed;
    ScanSound(t, p);
    var (l, q) := Scan(t, p);
    if IsNumeral(l) {
      FirstUnit(l);
    }
  }

  function NumberAt(t: Text, p: int, g: Settings): (r: Parsed<Json>)
    requires 0 <= p <= |t|
    ensures r.Ok? ==> p < r.next <= |t|
  {
    NumberFound(t, p, g);
    var (l, q) := Scan(t, p);
    match NumberOf(l, g)
    case None => Fail(BadNumber)
    case Some(v) => Ok(v, q)
  }

  /** The value of a hexadecimal digit, or -1. */
  function HexIndex(u: int): int
  {
    var d := DigitIndex(Lower(u));
    if d < 16 then d else -1
  }

  /** Up to `n` hexadecimal digits behind position `j`; stops at the first character that is none. */
  function HexRun(t: Text, j: int, n: nat, acc: int): (r: (int, int))
    requires 0 <= j
    ensures j <= r.1
    decreases n
  {
    if n == 0 then (acc, j)
    else if HexIndex(CharAt(t, j + 1)) < 0 then (acc, j + 1)
    else HexRun(t, j + 1, n - 1, acc * 16 + HexIndex(CharAt(t, j + 1)))
  }

  /** What a backslash and this character stand for; -1 if they stand for nothing. */
  function Escapee(u: int): int
  {
    if u == QUOTE || u == BACKSLASH || u == '/' as int then u
    else if u == 'b' as int then 8
    else if u == 'f' as int then 12
    else if u == 'n' as int then 10
    else if u == 'r' as int then 13
    else if u == 't' as int then 9
    else -1
  }

  function Prepend<T>(x: T, r: Parsed<seq<T>>): Parsed<seq<T>>
  {
    match r
    case Ok(s, n) => Ok([x] + s, n)
    case Fail(e) => Fail(e)
  }

  /** The rest of a string, from position `q`, and the position behind its closing quote. */
  function StringBody(t: Text, q: int): (r: Parsed<Text>)
    requires 0 <= q
    ensures r.Ok? ==> q < r.next <= |t|
    decreases if q < |t| then |t| - q else 0
  {
    var u := CharAt(t, q);
    if u == END then Fail(BadString)
    else if u == QUOTE then Ok([], q + 1)
    else if u != BACKSLASH then Prepend(u, StringBody(t, q + 1))
    else
      var e := CharAt(t, q + 1);
      if e == SMALL_U then
        var (h, j) := HexRun(t, q + 1, 4, 0);
        Prepend(h, StringBody(t, j + 1))
      else if Escapee(e) == -1 then Fail(BadString)
      else Prepend(Escapee(e), StringBody(t, q + 2))
  }

  function StringAt(t: Text, p: int): (r: Parsed<Text>)
    requires 0 <= p <= |t|
    ensures r.Ok? ==> p < r.next <= |t|
  {
    if CharAt(t, p) == QUOTE then StringBody(t, p + 1) else Fail(BadString)
  }

  /** What follows an element: the closing character, or a comma and then more. */
  function More(t: Text, n: int, close: int): (r: Parsed<bool>)
    requires 0 <= n <= |t| && close != END
    ensures r.Ok? ==> n < r.next <= |t|
  {
    var w := White(t, n);
    if CharAt(t, w) == close then Ok(false, w + 1)
    else if CharAt(t, w) != COMMA then Fail(Expected(COMMA))
    else Ok(true, White(t, w + 1))
  }

  /** The element of an array at position `q`, and whether there are more. */
  function ElementAt(t: Text, q: int, g: Settings): (r: Parsed<(Json, bool)>)
    requires 0 <= q <= |t|
    ensures r.Ok? ==> q < r.next <= |t|
    decreases |t| - q, 2
  {
    match ValueAt(t, q, g)
    case Fail(e) => Fail(e)
    case Ok(v, n) =>
      match More(t, n, CLOSE_BRACKET)
      case Fail(e) => Fail(e)
      case Ok(more, m) => Ok((v, more), m)
  }

  /** The elements of an array from position `q` on, through the closing bracket. */
  function Elements(t: Text, q: int, g: Settings): (r: Parsed<seq<Json>>)
    requires 0 <= q <= |t|
    ensures r.Ok? ==> q < r.next <= |t|
    decreases |t| - q, 3
  {
    if CharAt(t, q) == END then Fail(BadArray)
    else
      match ElementAt(t, q, g)
      case Fail(e) => Fail(e)
      case Ok((v, more), n) => Prepend(v, if more then Elements(t, n, g) else Ok([], n))
  }

  /** The member of an object at position `q`, and whether there are more; `seen` are the keys before. */
  function MemberAt(t: Text, q: int, seen: seq<Text>, g: Settings): (r: Parsed<(Entry, bool)>)
    requires 0 <= q <= |t|
    ensures r.Ok? ==> q < r.next <= |t|
    decreases |t| - q, 2
  {
    match StringAt(t, q)
    case Fail(e) => Fail(e)
    case Ok(key, n) =>
      var c := White(t, n);
      if CharAt(t, c) != COLON then Fail(Expected(COLON))
      else if key == PROTO then Fail(PrototypeKey)
      else if key in seen then Fail(DuplicateKey(key))
      else
        match ValueAt(t, c + 1, g)
        case Fail(e) => Fail(e)
        case Ok(v, m) =>
          match More(t, m, CLOSE_BRACE)
          case Fail(e) => Fail(e)
          case Ok(more, k) => Ok((Entry(key, v), more), k)
  }

  /** The members of an object from position `q` on, through the closing brace. */
  function Members(t: Text, q: int, seen: seq<Text>, g: Settings): (r: Parsed<seq<Entry>>)
    requires 0 <= q <= |t|
    ensures r.Ok? ==> q < r.next <= |t|
    decreases |t| - q, 3
  {
    if CharAt(t, q) == END then Fail(BadObject)
    else
      match MemberAt(t, q, seen, g)
      case Fail(e) => Fail(e)
      case Ok((entry, more), n) =>
        Prepend(entry, if more then Members(t, n, seen + [entry.key], g) else Ok([], n))
  }

  function ArrayAt(t: Text, p: int, g: Settings): (r: Parsed<Json>)
    requires 0 <= p < |t|
    ensures r.Ok? ==> p < r.next <= |t|
    decreases |t| - p, 0
  {
    var q := White(t, p + 1);
    if CharAt(t, q) == CLOSE_BRACKET then Ok(Arr([]), q + 1)
    else
      match Elements(t, q, g)
      case Fail(e) => Fail(e)
      case Ok(vs, n) => Ok(Arr(vs), n)
  }

  function ObjectAt(t: Text, p: int, g: Settings): (r: Parsed<Json>)
    requires 0 <= p < |t|
    ensures r.Ok? ==> p < r.next <= |t|
    decreases |t| - p, 0
  {
    var q := White(t, p + 1);
    if CharAt(t, q) == CLOSE_BRACE then Ok(Obj([]), q + 1)
    else
      match Members(t, q, [], g)
      case Fail(e) => Fail(e)
      case Ok(es, n) => Ok(Obj(es), n)
  }

  function ValueAt(t: Text, p: int, g: Settings): (r: Parsed<Json>)
    requires -1 <= p <= |t|
    ensures r.Ok? ==> p < r.next <= |t|
    decreases |t| - p, 1
  {
    var w := White(t, p);
    var u := CharAt(t, w);
    if u == OPEN_BRACE then ObjectAt(t, w, g)
    else if u == OPEN_BRACKET then ArrayAt(t, w, g)
    else if u == QUOTE then
      match StringAt(t, w)
      case Fail(e) => Fail(e)
      case Ok(s, n) => Ok(Str(s), n)
    else if u == MINUS || IsDigit(u) then NumberAt(t, w, g)
    else WordAt(t, w)
  }

  /** What `parse` returns for a whole text. */
  function Parse(t: Text, g: Settings): Parsed<Json>
  {
    match ValueAt(t, -1, g)
    case Fail(e) => Fail(e)
    case Ok(v, n) =>
      var w := White(t, n);
      if CharAt(t, w) != END then Fail(SyntaxError) else Ok(v, w)
  }

  // ----- the printer

  /**
   The settings a text is printed with: the limits of plain notation for big
   numbers, the indentation, and the host's text for doubles that are no integers
   of 53 bits.
   */
  datatype Style = Style(expNeg: int, expPos: int, indent: Text, shortest: Number -> Text)

  predicate IsInteger(x: Number)
  {
    Valid(x) && Finite(x) && Places(x) <= 0 && MagOf(x, 0) <= FULL
  }

  /** The text of a number of the host; integers are written out in full. */
  function HostText(x: Number, st: Style): Text
  {
    if !Finite(x) then Ascii("null")
    else if IsInteger(x) then TextOf(x, -7, 21)
    else st.shortest(x)
  }

  /** The characters that `quote` escapes. */
  predicate Escapable(u: int)
  {
    || u == QUOTE || u == BACKSLASH
    || 0x0 <= u <= 0x1f || 0x7f <= u <= 0x9f || u == 0xad || 0x600 <= u <= 0x604 || u == 0x70f
    || u == 0x17b4 || u == 0x17b5 || 0x200c <= u <= 0x200f || 0x2028 <= u <= 0x202f
    || 0x2060 <= u <= 0x206f || u == 0xfeff || 0xfff0 <= u <= 0xffff
  }

  /** The letter of a short escape, or -1. */
  function Meta(u: int): int
  {
    if u == QUOTE || u == BACKSLASH then u
    else if u == 8 then 'b' as int
    else if u == 9 then 't' as int
    else if u == 10 then 'n' as int
    else if u == 12 then 'f' as int
    else if u == 13 then 'r' as int
    else -1
  }

  /** The last four characters of "0000" and the hexadecimal text. */
  function HexText(u: nat): Text
  {
    var s := Ascii("0000") + Chars(BaseDigits(u, 16));
    s[|s| - 4..]
  }

  function Escaped(u: int): Text
    requires 0 <= u
  {
    if !Escapable(u) then [u]
    else if Meta(u) != -1 then [BACKSLASH, Meta(u)]
    else [BACKSLASH, SMALL_U] + HexText(u)
  }

  function EscapedText(s: Text): Text
    requires IsText(s)
  {
    if s == [] then [] else Escaped(s[0]) + EscapedText(s[1..])
  }

  function Quote(s: Text): Text
    requires IsText(s)
  {
    [QUOTE] + (EscapedText(s) + [QUOTE])
  }

  function Join(parts: seq<Text>, sep: Text): Text
  {
    if parts == [] then [] else if |parts| == 1 then parts[0] else parts[0] + (sep + Join(parts[1..], sep))
  }

  /** The parts of an array or object between its brackets, one to a line if there is a gap. */
  function Wrapped(open: int, parts: seq<Text>, close: int, gap: Text, mind: Text): Text
  {
    if parts == [] then [open, close]
    else if gap != [] then
      [open, NEWLINE] + gap + Join(parts, [COMMA, NEWLINE] + gap) + [NEWLINE] + mind + [close]
    else [open] + Join(parts, [COMMA]) + [close]
  }

  function Colon(gap: Text): Text
  {
    if gap != [] then [COLON, SPACE] else [COLON]
  }

  /** Strings are made of code units, and big numbers are in normal form. */
  predicate Printable(v: Json)
  {
    match v
    case Str(s) => IsText(s)
    case Big(x) => Valid(x)
    case Arr(vs) => forall i :: 0 <= i < |vs| ==> Printable(vs[i])
    case Obj(es) => forall i :: 0 <= i < |es| ==> IsText(es[i].key) && Printable(es[i].value)
    case _ => true
  }

  function Print(v: Json, gap: Text, st: Style): Text
    requires Printable(v)
    decreases v
  {
    match v
    case Null => Ascii("null")
    case Bool(b) => if b then Ascii("true") else Ascii("false")
    case Str(s) => Quote(s)
    case Plain(x) => HostText(x, st)
    case Big(x) => TextOf(x, st.expNeg, st.expPos)
    case Arr(vs) =>
      Wrapped(OPEN_BRACKET, ItemTexts(vs, gap + st.indent, st), CLOSE_BRACKET, gap + st.indent, gap)
    case Obj(es) =>
      Wrapped(OPEN_BRACE, EntryTexts(es, gap + st.indent, st), CLOSE_BRACE, gap + st.indent, gap)
  }

  function ItemTexts(vs: seq<Json>, gap: Text, st: Style): (r: seq<Text>)
    requires forall i :: 0 <= i < |vs| ==> Printable(vs[i])
    ensures |r| == |vs| && forall i :: 0 <= i < |vs| ==> r[i] == Print(vs[i], gap, st)
    decreases vs
  {
    seq(|vs|, i requires 0 <= i < |vs| => Print(vs[i], gap, st))
  }

  function EntryTexts(es: seq<Entry>, gap: Text, st: Style): (r: seq<Text>)
    requires forall i :: 0 <= i < |es| ==> IsText(es[i].key) && Printable(es[i].value)
    ensures |r| == |es|
    ensures forall i :: 0 <= i < |es| ==> r[i] == Quote(es[i].key) + (Colon(gap) + Print(es[i].value, gap, st))
    decreases es
  {
    seq(|es|, i requires 0 <= i < |es| => Quote(es[i].key) + (Colon(gap) + Print(es[i].value, gap, st)))
  }
}
