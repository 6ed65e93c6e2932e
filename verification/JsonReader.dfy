/**
 The recursive-descent reader: one cursor, moved by every function. Each method
 leaves the cursor where the function of `JsonCodec` with its name says, and fails
 where and how that function fails.
 */
module JsonReader {
  import opened Wrappers
  import opened Numbers
  import opened Arithmetic
  import opened Numerals
  import opened NumberText
  import opened Doubles
  import opened Engine
  import opened JsonCodec

  /** What a call gives its caller: a value, or the error thrown. */
  datatype Outcome<T> = Done(value: T) | Threw(error: ParseError)

  class Reader {
    const text: Text
    var at: int
    var ch: int
    const lib: Library

    /** The cursor is on position `at - 1`. */
    ghost predicate Valid()
      reads this
    {
      0 <= at && ch == CharAt(text, at - 1)
    }

    /** The outcome is what was expected, and after a success the cursor is in place. */
    ghost predicate Agrees<T>(r: Outcome<T>, s: Parsed<T>)
      reads this
    {
      match s
      case Ok(v, n) => r == Done(v) && Valid() && at == n + 1 && n <= |text|
      case Fail(e) => r == Threw(e)
    }

    constructor (lib: Library, source: Text)
      ensures Valid() && text == source && at == 0 && this.lib == lib
    {
      this.lib := lib;
      text := source;
      at, ch := 0, SPACE;
    }

    method Next()
      requires Valid()
      modifies `at, `ch
      ensures Valid() && at == old(at) + 1
    {
      ch := if at < |text| then text[at] else END;
      at := at + 1;
    }

    /** `next` with a character that must be the current one; false if an error is thrown. */
    method Expect(c: int) returns (ok: bool)
      requires Valid()
      modifies `at, `ch
      ensures Valid() && (ok <==> old(ch) == c) && at == if ok then old(at) + 1 else old(at)
    {
      ok := c == ch;
      if ok {
        Next();
      }
    }

    method SkipWhite()
      requires Valid() && at <= |text| + 1
      modifies `at, `ch
      ensures Valid() && at == White(text, old(at) - 1) + 1
    {
      while Blank(ch)
        invariant Valid() && at <= |text| + 1
        invariant White(text, at - 1) == White(text, old(at) - 1)
        decreases |text| + 1 - at
      {
        Next();
      }
    }

    /** One of the loops of `number` over digits: the digits read, the cursor behind them. */
    method ReadDigits() returns (s: Text)
      requires Valid() && 1 <= at <= |text| + 1
      modifies `at, `ch
      ensures Valid() && at == DigitRun(text, old(at) - 1) + 1 && s == text[old(at) - 1..at - 1]
    {
      s := [];
      while IsDigit(ch)
        invariant Valid() && old(at) <= at <= |text| + 1
        invariant DigitRun(text, at - 1) == DigitRun(text, old(at) - 1)
        invariant s == text[old(at) - 1..at - 1]
        decreases |text| + 1 - at
      {
        s := s + [ch];
        OneMore(text, old(at) - 1, at - 1);
        Next();
      }
    }

    /** The sign, the point or the letter of a literal, if it is there. */
    method ReadOptional(p: int -> bool) returns (s: Text)
      requires Valid() && 1 <= at <= |text| + 1 && !p(END)
      modifies `at, `ch
      ensures Valid() && at == old(at) + (if p(old(ch)) then 1 else 0) && at <= |text| + 1
      ensures s == text[old(at) - 1..at - 1]
    {
      s := [];
      if p(ch) {
        s := [ch];
        Next();
        assert text[old(at) - 1..at - 1] == s;
      }
    }

    method ReadFraction() returns (s: Text)
      requires Valid() && 1 <= at <= |text| + 1
      modifies `at, `ch
      ensures Valid() && at == ScanFraction(text, old(at) - 1).2 + 1 && s == text[old(at) - 1..at - 1]
    {
      hide DigitRun;
      s := ReadOptional(u => u == DOT);
      if s != [] {
        ghost var a := at - 1;
        var f := ReadDigits();
        Adjacent(text, old(at) - 1, a, at - 1);
        s := s + f;
      }
    }

    /** The sign and the digits of an exponent. */
    method ReadPower() returns (s: Text)
      requires Valid() && 1 <= at <= |text| + 1
      modifies `at, `ch
      ensures IsSign(old(ch)) ==> old(at) <= |text|
      ensures Valid() && at == DigitRun(text, if IsSign(old(ch)) then old(at) else old(at) - 1) + 1
      ensures s == text[old(at) - 1..at - 1]
    {
      assert !IsSign(END);
      hide DigitRun, IsSign;
      s := ReadOptional(u => IsSign(u));
      ghost var b := at - 1;
      var x := ReadDigits();
      Adjacent(text, old(at) - 1, b, at - 1);
      s := s + x;
    }

    method ReadExponent() returns (s: Text)
      requires Valid() && 1 <= at <= |text| + 1
      modifies `at, `ch
      ensures Valid() && at == ScanExponent(text, old(at) - 1).3 + 1 && s == text[old(at) - 1..at - 1]
    {
      assert !IsE(END) && !IsSign(END);
      hide DigitRun, DigitsIn, IsE, IsSign;
      s := ReadOptional(u => IsE(u));
      if s != [] {
        var x := ReadPower();
        Adjacent(text, old(at) - 1, old(at), at - 1);
        s := s + x;
      }
    }

    /** The characters of a literal, collected by `number`. */
    method Collect() returns (s: Text)
      requires Valid() && 1 <= at <= |text| + 1
      modifies `at, `ch
      ensures Valid() && at == Scan(text, old(at) - 1).1 + 1 && s == text[old(at) - 1..at - 1]
    {
      hide DigitRun, ScanFraction, ScanExponent, Scan;
      ghost var t, p := text, at - 1;
      ScanParts(t, p);
      s := ReadOptional(u => u == MINUS);
      ghost var a := at - 1;
      var i := ReadDigits();
      ghost var b := at - 1;
      var f := ReadFraction();
      ghost var c := at - 1;
      var x := ReadExponent();
      Sliced(t, p, a, b, c, at - 1);
      s := s + (i + (f + x));
    }

    method ReadNumber() returns (r: Outcome<Json>)
      requires Valid() && 1 <= at <= |text| + 1
      modifies `at, `ch
      ensures Agrees(r, NumberAt(text, old(at) - 1, lib.Config()))
    {
      hide Scan, NumberOf, WellFormed, IsNumeral, ReadLiteral, Unrounded, Nearby, AboveInteger, Overflows;
      ghost var p := at - 1;
      var s := Collect();
      ghost var l := Scan(text, p).0;
      CollectedLiteral(text, p);
      var d := ToNumber(s);
      if d.None? || Overflows(d.value.1) {
        OutcomeOf(l, lib.Config());
        return Threw(BadNumber);
      }
      OutcomeOf(l, lib.Config());
      if AboveInteger(d.value.1) {
        var x := FromText(lib, s);
        return Done(Big(x.Value()));
      }
      return Done(Plain(AsNumber(d.value.0, d.value.1)));
    }

    method ReadString() returns (r: Outcome<Text>)
      requires Valid() && 1 <= at <= |text| + 1
      modifies `at, `ch
      ensures Agrees(r, StringAt(text, old(at) - 1))
    {
      hide HexRun, Escapee, Prepend;
      var s := [];
      if ch == QUOTE {
        ghost var start := StringBody(text, at);
        ContinuedEnds(start, 0);
        Next();
        while ch != END
          invariant Valid() && 1 <= at
          invariant start == Continued(s, StringBody(text, at - 1))
          decreases if at <= |text| then |text| + 1 - at else 0
        {
          ghost var q := at - 1;
          if ch == QUOTE {
            ContinuedEnds(Ok(s, 0), at);
            Next();
            return Done(s);
          }
          if ch == BACKSLASH {
            Next();
            if ch == SMALL_U {
              var uffff := ReadHex();
              ContinuedStep(s, uffff, StringBody(text, at));
              s := s + [uffff];
            } else if Escapee(ch) != -1 {
              ContinuedStep(s, Escapee(ch), StringBody(text, at));
              s := s + [Escapee(ch)];
            } else {
              break;
            }
          } else {
            ContinuedStep(s, ch, StringBody(text, at));
            s := s + [ch];
          }
          Next();
        }
      }
      return Threw(BadString);
    }

    /** The loop over the hexadecimal digits of a unicode escape. */
    method ReadHex() returns (uffff: int)
      requires Valid() && 1 <= at
      modifies `at, `ch
      ensures Valid() && at >= old(at) && (uffff, at - 1) == HexRun(text, old(at) - 1, 4, 0)
    {
      hide HexIndex;
      uffff := 0;
      var i := 0;
      while i < 4
        invariant 0 <= i <= 4 && Valid() && old(at) <= at
        invariant HexRun(text, at - 1, 4 - i, uffff) == HexRun(text, old(at) - 1, 4, 0)
      {
        Next();
        var hex := HexIndex(ch);
        if hex < 0 {
          break;
        }
        uffff := uffff * 16 + hex;
        i := i + 1;
      }
    }

    /** `next` with each of these characters in turn. */
    method ReadName(word: Text) returns (r: Outcome<()>)
      requires Valid() && 1 <= at <= |text| + 1 && forall i :: 0 <= i < |word| ==> word[i] != END
      modifies `at, `ch
      ensures Agrees(r, Match(text, old(at) - 1, word))
    {
      var i := 0;
      while i < |word|
        invariant 0 <= i <= |word| && Valid() && 1 <= at <= |text| + 1
        invariant Match(text, at - 1, word[i..]) == Match(text, old(at) - 1, word)
      {
        var ok := Expect(word[i]);
        if !ok {
          return Threw(Expected(word[i]));
        }
        assert word[i..][1..] == word[i + 1..];
        i := i + 1;
      }
      return Done(());
    }

    method ReadWord() returns (r: Outcome<Json>)
      requires Valid() && 1 <= at <= |text| + 1
      modifies `at, `ch
      ensures Agrees(r, WordAt(text, old(at) - 1))
    {
      hide Match;
      var n;
      if ch == 't' as int {
        n := ReadName(Ascii("true"));
        return if n.Threw? then Threw(n.error) else Done(Bool(true));
      } else if ch == 'f' as int {
        n := ReadName(Ascii("false"));
        return if n.Threw? then Threw(n.error) else Done(Bool(false));
      } else if ch == 'n' as int {
        n := ReadName(Ascii("null"));
        return if n.Threw? then Threw(n.error) else Done(Null);
      }
      return Threw(Unexpected);
    }

    /** Behind an element: the closing character, or a comma and then more. */
    method ReadMore(close: int) returns (r: Outcome<bool>)
      requires Valid() && 1 <= at <= |text| + 1 && close != END
      modifies `at, `ch
      ensures Agrees(r, More(text, old(at) - 1, close))
    {
      hide White;
      SkipWhite();
      if ch == close {
        Next();
        return Done(false);
      }
      var ok := Expect(COMMA);
      if !ok {
        return Threw(Expected(COMMA));
      }
      SkipWhite();
      return Done(true);
    }

    method ReadElement() returns (r: Outcome<(Json, bool)>)
      requires Valid() && 1 <= at <= |text| + 1
      modifies `at, `ch
      ensures Agrees(r, ElementAt(text, old(at) - 1, lib.Config()))
      decreases |text| + 1 - at, 2
    {
      hide ValueAt, More;
      var v := ReadValue();
      if v.Threw? {
        return Threw(v.error);
      }
      var more := ReadMore(CLOSE_BRACKET);
      return if more.Threw? then Threw(more.error) else Done((v.value, more.value));
    }

    method ReadArray() returns (r: Outcome<Json>)
      requires Valid() && 1 <= at <= |text| && ch == OPEN_BRACKET
      modifies `at, `ch
      ensures Agrees(r, ArrayAt(text, old(at) - 1, lib.Config()))
      decreases |text| + 1 - at, 0
    {
      hide White, ElementAt;
      var items := [];
      Next();
      SkipWhite();
      if ch == CLOSE_BRACKET {
        Next();
        return Done(Arr([]));
      }
      ghost var start := Elements(text, at - 1, lib.Config());
      ContinuedEnds(start, 0);
      while ch != END
        invariant Valid() && old(at) < at <= |text| + 1
        invariant start == Continued(items, Elements(text, at - 1, lib.Config()))
        decreases |text| + 1 - at
      {
        var v := ReadElement();
        if v.Threw? {
          return Threw(v.error);
        }
        ContinuedStep(items, v.value.0, if v.value.1 then Elements(text, at - 1, lib.Config()) else Ok([], at - 1));
        items := items + [v.value.0];
        if !v.value.1 {
          ContinuedEnds(Ok(items, 0), at - 1);
          return Done(Arr(items));
        }
      }
      return Threw(BadArray);
    }

    method ReadMember(keys: seq<Text>) returns (r: Outcome<(Entry, bool)>)
      requires Valid() && 1 <= at <= |text| + 1
      modifies `at, `ch
      ensures Agrees(r, MemberAt(text, old(at) - 1, keys, lib.Config()))
      decreases |text| + 1 - at, 2
    {
      hide ValueAt, More, White, StringAt;
      var key := ReadString();
      if key.Threw? {
        return Threw(key.error);
      }
      SkipWhite();
      var ok := Expect(COLON);
      if !ok {
        return Threw(Expected(COLON));
      }
      if key.value == PROTO {
        return Threw(PrototypeKey);
      }
      if key.value in keys {
        return Threw(DuplicateKey(key.value));
      }
      var v := ReadValue();
      if v.Threw? {
        return Threw(v.error);
      }
      var more := ReadMore(CLOSE_BRACE);
      return if more.Threw? then Threw(more.error) else Done((Entry(key.value, v.value), more.value));
    }

    method ReadObject() returns (r: Outcome<Json>)
      requires Valid() && 1 <= at <= |text| && ch == OPEN_BRACE
      modifies `at, `ch
      ensures Agrees(r, ObjectAt(text, old(at) - 1, lib.Config()))
      decreases |text| + 1 - at, 0
    {
      hide White, MemberAt;
      var entries: seq<Entry>, keys := [], [];
      Next();
      SkipWhite();
      if ch == CLOSE_BRACE {
        Next();
        return Done(Obj([]));
      }
      ghost var start := Members(text, at - 1, [], lib.Config());
      ContinuedEnds(start, 0);
      while ch != END
        invariant Valid() && old(at) < at <= |text| + 1
        invariant start == Continued(entries, Members(text, at - 1, keys, lib.Config()))
        decreases |text| + 1 - at
      {
        var m := ReadMember(keys);
        if m.Threw? {
          return Threw(m.error);
        }
        ghost var more := keys + [m.value.0.key];
        ContinuedStep(entries, m.value.0,
                      if m.value.1 then Members(text, at - 1, more, lib.Config()) else Ok([], at - 1));
        entries, keys := entries + [m.value.0], keys + [m.value.0.key];
        if !m.value.1 {
          ContinuedEnds(Ok(entries, 0), at - 1);
          return Done(Obj(entries));
        }
      }
      return Threw(BadObject);
    }

    method ReadValue() returns (r: Outcome<Json>)
      requires Valid() && at <= |text| + 1
      modifies `at, `ch
      ensures Agrees(r, ValueAt(text, old(at) - 1, lib.Config()))
      decreases |text| + 1 - at, 1
    {
      hide White, ArrayAt, ObjectAt, StringAt, NumberAt, WordAt;
      SkipWhite();
      if ch == OPEN_BRACE {
        r := ReadObject();
      } else if ch == OPEN_BRACKET {
        r := ReadArray();
      } else if ch == QUOTE {
        var s := ReadString();
        r := if s.Threw? then Threw(s.error) else Done(Str(s.value));
      } else if ch == MINUS || IsDigit(ch) {
        r := ReadNumber();
      } else {
        r := ReadWord();
      }
    }
  }

  /** `parse` without a reviver. */
  method ParseText(lib: Library, source: Text) returns (r: Outcome<Json>)
    ensures match Parse(source, lib.Config())
            case Ok(v, _) => r == Done(v)
            case Fail(e) => r == Threw(e)
  {
    hide White, ValueAt;
    var reader := new Reader(lib, source);
    r := reader.ReadValue();
    if r.Threw? {
      return;
    }
    reader.SkipWhite();
    if reader.ch != END {
      return Threw(SyntaxError);
    }
  }

  /** The host's conversion of a string to a number: its sign and its double, nothing for NaN. */
  function ToNumber(s: Text): Option<(int, Double)>
  {
    var (l, j) := Scan(s, 0);
    ScanSound(s, 0);
    UnroundedValid(l);
    if j == |s| && IsNumeral(l) then Some((Unrounded(l).s, Nearby(Unrounded(l)))) else None
  }

  /** What the literal found at `p` spells is read as that literal. */
  lemma CollectedLiteral(t: Text, p: nat)
    requires p <= |t|
    ensures var (l, q) := Scan(t, p); WellFormed(l) && Scan(t[p..q], 0) == (l, q - p)
  {
    hide Scan, Spell, WellFormed;
    var (l, q) := Scan(t, p);
    ScanSound(t, p);
    ScanSpell([], l, []);
    assert [] + (Spell(l) + []) == Spell(l);
  }

  lemma OutcomeOf(l: Literal, g: Settings)
    requires WellFormed(l)
    ensures var v := NumberOf(l, g);
            UnroundedValidHere(l) &&
            var d := Nearby(Unrounded(l));
            (v.None? <==> !IsNumeral(l) || Overflows(d)) &&
            (v.Some? ==> v.value == if AboveInteger(d) then Big(ReadLiteral(l, g))
                                    else Plain(AsNumber(Unrounded(l).s, d)))
  {
    UnroundedValid(l);
  }

  ghost predicate UnroundedValidHere(l: Literal)
    requires WellFormed(l)
  {
    Numbers.Valid(Unrounded(l)) && Finite(Unrounded(l))
  }

  /** What has been read so far, and what follows it. */
  function Continued<T>(s: seq<T>, r: Parsed<seq<T>>): Parsed<seq<T>>
  {
    match r
    case Ok(v, n) => Ok(s + v, n)
    case Fail(e) => Fail(e)
  }

  lemma ContinuedStep<T>(s: seq<T>, x: T, r: Parsed<seq<T>>)
    ensures Continued(s, Prepend(x, r)) == Continued(s + [x], r)
  {
    if r.Ok? {
      assert s + ([x] + r.value) == s + [x] + r.value;
    }
  }

  lemma ContinuedEnds<T>(r: Parsed<seq<T>>, n: int)
    ensures Continued([], r) == r
    ensures r.Ok? ==> Continued(r.value, Ok([], n)) == Ok(r.value, n)
  {
    if r.Ok? {
      assert [] + r.value == r.value == r.value + [];
    }
  }

  lemma OneMore(t: Text, i: int, j: int)
    requires 0 <= i <= j < |t|
    ensures t[i..j + 1] == t[i..j] + [t[j]]
  {
  }

  lemma Adjacent(t: Text, i: int, j: int, k: int)
    requires 0 <= i <= j <= k <= |t|
    ensures t[i..j] + t[j..k] == t[i..k]
  {
  }

  /** Where the parts of a literal end. */
  lemma ScanParts(t: Text, p: nat)
    requires p <= |t|
    ensures var a := if CharAt(t, p) == MINUS then p + 1 else p;
            Scan(t, p).1 == ScanExponent(t, ScanFraction(t, DigitRun(t, a)).2).3
  {
  }
}
