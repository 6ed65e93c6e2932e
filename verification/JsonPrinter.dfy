/**
 The printer: `quote`, `str` and `stringify`, with the gap that `str` lengthens on
 the way into an array or object and restores on the way out.
 */
module JsonPrinter {
  import opened Numbers
  import opened Numerals
  import opened NumberText
  import opened Engine
  import opened JsonCodec

  lemma {:induction false} NothingEscaped(s: Text)
    requires IsText(s) && forall k :: 0 <= k < |s| ==> !Escapable(s[k])
    ensures EscapedText(s) == s
  {
    if s != [] {
      NothingEscaped(s[1..]);
      assert s == [s[0]] + s[1..];
    }
  }

  /** `quote`: the characters that need it replaced by escapes, if there are any. */
  method QuoteText(s: Text) returns (r: Text)
    requires IsText(s)
    ensures r == Quote(s)
  {
    hide Escaped, Escapable;
    var first := IndexOf(s, u => Escapable(u));
    if first == -1 {
      NothingEscaped(s);
      return [QUOTE] + (s + [QUOTE]);
    }
    r := [];
    var i := 0;
    assert s[0..] == s && [] + EscapedText(s) == EscapedText(s);
    while i < |s|
      invariant 0 <= i <= |s| && IsText(s[i..]) && EscapedText(s) == r + EscapedText(s[i..])
    {
      assert s[i..][1..] == s[i + 1..];
      r := r + Escaped(s[i]);
      i := i + 1;
    }
    assert r + [] == r;
    r := [QUOTE] + (r + [QUOTE]);
  }

  /** `partial.join(sep)`. */
  method JoinParts(parts: seq<Text>, sep: Text) returns (r: Text)
    ensures r == Join(parts, sep)
  {
    if parts == [] {
      return [];
    }
    r := parts[0];
    var i := 1;
    while i < |parts|
      invariant 1 <= i <= |parts| && r == Join(parts[..i], sep)
    {
      r := r + (sep + parts[i]);
      JoinOne(parts[..i], parts[i], sep);
      assert parts[..i] + [parts[i]] == parts[..i + 1];
      i := i + 1;
    }
    assert parts[..i] == parts;
  }

  lemma {:induction false} JoinOne(parts: seq<Text>, last: Text, sep: Text)
    requires parts != []
    ensures Join(parts + [last], sep) == Join(parts, sep) + (sep + last)
  {
    if |parts| == 1 {
      assert (parts + [last])[1..] == [last];
    } else {
      JoinOne(parts[1..], last, sep);
      assert (parts + [last])[1..] == parts[1..] + [last];
    }
  }

  class Printer {
    const lib: Library
    const indent: Text
    const shortest: Number -> Text
    var gap: Text

    function InUse(): Style
      reads lib
    {
      Style(lib.toExpNeg, lib.toExpPos, indent, shortest)
    }

    constructor (lib: Library, indent: Text, shortest: Number -> Text)
      ensures this.lib == lib && this.indent == indent && this.shortest == shortest && gap == []
    {
      this.lib, this.indent, this.shortest, gap := lib, indent, shortest, [];
    }

    /** The parts put between brackets. */
    method Wrap(start: int, partial: seq<Text>, end: int, mind: Text) returns (v: Text)
      ensures v == Wrapped(start, partial, end, gap, mind)
    {
      if partial == [] {
        return [start, end];
      }
      if gap != [] {
        v := JoinParts(partial, [COMMA, NEWLINE] + gap);
        return [start, NEWLINE] + gap + v + [NEWLINE] + mind + [end];
      }
      v := JoinParts(partial, [COMMA]);
      return [start] + v + [end];
    }

    /** `str`, called with the value itself. */
    method Str(value: Json) returns (v: Text)
      requires Printable(value)
      modifies `gap
      ensures gap == old(gap) && v == Print(value, gap, InUse())
      decreases value
    {
      hide Quote, TextOf, HostText, Wrapped, Colon;
      var mind := gap;
      match value
      case Null => v := Ascii("null");
      case Bool(b) => v := if b then Ascii("true") else Ascii("false");
      case Str(s) => v := QuoteText(s);
      case Plain(x) => v := HostText(x, InUse());
      case Big(x) =>
        var n := new BigNumber(x);
        v := ToText(lib, n);
      case Arr(items) =>
        gap := gap + indent;
        var partial := [];
        var i := 0;
        while i < |items|
          invariant 0 <= i == |partial| <= |items| && gap == mind + indent
          invariant forall k :: 0 <= k < i ==> partial[k] == Print(items[k], gap, InUse())
        {
          var part := Str(items[i]);
          partial := partial + [part];
          i := i + 1;
        }
        v := Wrap(OPEN_BRACKET, partial, CLOSE_BRACKET, mind);
        assert partial == ItemTexts(items, gap, InUse());
        gap := mind;
      case Obj(entries) =>
        gap := gap + indent;
        var partial := [];
        var i := 0;
        while i < |entries|
          invariant 0 <= i == |partial| <= |entries| && gap == mind + indent
          invariant forall k :: 0 <= k < i ==>
            partial[k] == Quote(entries[k].key) + (Colon(gap) + Print(entries[k].value, gap, InUse()))
        {
          var part := Str(entries[i].value);
          var key := QuoteText(entries[i].key);
          partial := partial + [key + (Colon(gap) + part)];
          i := i + 1;
        }
        v := Wrap(OPEN_BRACE, partial, CLOSE_BRACE, mind);
        assert partial == EntryTexts(entries, gap, InUse());
        gap := mind;
    }
  }

  /** The third argument of `stringify`: a number of spaces, a text, or anything else. */
  datatype Space = Spaces(n: int) | Indent(t: Text) | NoSpace

  function IndentOf(space: Space): (t: Text)
    ensures space.Spaces? ==> |t| == Max(0, space.n) && forall i :: 0 <= i < |t| ==> t[i] == SPACE
    ensures !space.Spaces? ==> t == if space.Indent? then space.t else []
  {
    match space
    case Spaces(n) => if n <= 0 then [] else seq(n, _ => SPACE)
    case Indent(t) => t
    case NoSpace => []
  }

  /** `stringify` without a replacer. */
  method Stringify(lib: Library, value: Json, space: Space, shortest: Number -> Text) returns (t: Text)
    requires Printable(value)
    ensures t == Print(value, [], Style(lib.toExpNeg, lib.toExpPos, IndentOf(space), shortest))
  {
    var indent := [];
    if space.Spaces? {
      var i := 0;
      while i < space.n
        invariant 0 <= i && (i <= space.n || i == 0) && indent == seq(i, _ => SPACE)
      {
        indent := indent + [SPACE];
        i := i + 1;
      }
    } else if space.Indent? {
      indent := space.t;
    }
    assert indent == IndentOf(space);
    var printer := new Printer(lib, indent, shortest);
    t := printer.Str(value);
  }
}
