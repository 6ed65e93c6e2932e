/**
 The laws of the JSON codec: printing and reading undo each other, what is read is
 in the form in which it is printed, and the whole text is consumed.
 */
module JsonLaws {
  import opened Digits
  import opened Numbers
  import opened Arithmetic
  import opened Laws
  import opened Powers
  import opened Numerals
  import opened NumberText
  import opened Bases
  import opened Doubles
  import opened JsonCodec
  import opened JsonRoundTrip

  /**
   For every portable value and every indentation by white space: the reader takes
   the printed text for the value its numbers settle to, or rejects it, and does the
   latter only for a number beyond the doubles.
   */
  lemma ParsePrint(v: Json, st: Style, g: Settings)
    requires Portable(v, g) && IsGap(st.indent) && (g.hi.AtMost? ==> g.hi.n > 0)
    ensures Printable(v)
    ensures var t := Print(v, [], st);
            Parse(t, g) == if Readable(v, g) then Ok(Settle(v, g), |t|) else Fail(BadNumber)
  {
    hide ValueAt, Print, Portable, Printable, Readable, Settle;
    PortablePrintable(v, g);
    var t := Print(v, [], st);
    assert t[0..|t|] == t;
    Starts(v, [], st, g);
    ReadsBack(t, 0, v, [], st, g);
    WhiteIs(t, -1, 0);
    ValueSkips(t, -1, 0, g);
    WhiteIs(t, |t|, |t|);
  }

  // ----- values that come back as they were

  predicate SettledNumber(x: Number)
  {
    Valid(x) && Finite(x) && AboveInteger(Nearby(x)) && !Overflows(Nearby(x))
  }

  /** Integers of the host, but for minus zero, and big numbers that no double stands for. */
  predicate Settled(v: Json)
  {
    match v
    case Plain(x) => IsInteger(x) && x != Zero(-1)
    case Big(x) => SettledNumber(x)
    case Arr(vs) => forall i :: 0 <= i < |vs| ==> Settled(vs[i])
    case Obj(es) => forall i :: 0 <= i < |es| ==> Settled(es[i].value)
    case _ => true
  }

  lemma {:induction false} SettledSame(v: Json, g: Settings)
    requires Portable(v, g) && Settled(v)
    ensures Readable(v, g) && Settle(v, g) == v
    decreases v
  {
    hide AboveInteger, Overflows, Nearby, IsInteger, InRange, IsText, Valid;
    match v
    case Plain(x) => MinusZeroOnly(x);
    case Arr(vs) =>
      forall i | 0 <= i < |vs| ensures Readable(vs[i], g) && Settle(vs[i], g) == vs[i] { SettledSame(vs[i], g); }
      assert SettleItems(vs, g) == vs;
    case Obj(es) =>
      forall i | 0 <= i < |es| ensures Readable(es[i].value, g) && Settle(es[i].value, g) == es[i].value {
        SettledSame(es[i].value, g);
      }
      assert SettleEntries(es, g) == es;
    case _ =>
  }

  lemma MinusZeroOnly(x: Number)
    requires IsInteger(x) && x != Zero(-1)
    ensures Kept(x) == x
  {
    hide Val, Mag;
  }

  /** And no other values settle to themselves. */
  lemma {:induction false} SameSettled(v: Json, g: Settings)
    requires Portable(v, g) && Readable(v, g) && Settle(v, g) == v
    ensures Settled(v)
    decreases v
  {
    hide AboveInteger, Overflows, Nearby, IsInteger, InRange, IsText, Valid, AsNumber;
    match v
    case Arr(vs) =>
      forall i | 0 <= i < |vs| ensures Settled(vs[i]) {
        assert SettleItems(vs, g)[i] == vs[i];
        SameSettled(vs[i], g);
      }
    case Obj(es) =>
      forall i | 0 <= i < |es| ensures Settled(es[i].value) {
        assert SettleEntries(es, g)[i] == es[i];
        SameSettled(es[i].value, g);
      }
    case _ =>
  }

  /**
   `parse(stringify(v, null, space))` is `v` exactly if `v` is settled, for every
   finite tree of null, booleans, strings, arrays, objects without repeated keys,
   integers of the host up to 2^53 and finite big numbers: if it has no minus zero of
   the host and its big numbers are beyond 2^53 + 1 and within the doubles.
   */
  lemma RoundTrip(v: Json, st: Style, g: Settings)
    requires Portable(v, g) && IsGap(st.indent) && (g.hi.AtMost? ==> g.hi.n > 0)
    ensures Printable(v)
    ensures Parse(Print(v, [], st), g) == Ok(v, |Print(v, [], st)|) <==> Settled(v)
  {
    hide Print, Parse, Portable, Readable, Settle, Settled, Printable;
    ParsePrint(v, st, g);
    if Settled(v) {
      SettledSame(v, g);
    } else if Readable(v, g) && Settle(v, g) == v {
      SameSettled(v, g);
    }
  }

  /** Which finite numbers those are, in exact terms. */
  lemma SettledIff(x: Number)
    requires Valid(x) && Finite(x)
    ensures var k := Max(0, Places(x));
            SettledNumber(x) <==>
              Pow10(k) * (FULL + 1) < MagOf(x, k) < Pow10(k) * (Pow(2, MAX_BITS) - Pow(2, 970))
  {
    hide ToDouble, AboveInteger, Overflows, Pow;
    var k := Max(0, Places(x));
    MagPositive(x, k);
    AboveIff(MagOf(x, k), Pow10(k));
    OverflowIff(MagOf(x, k), Pow10(k));
  }

  /** The one integer beyond 2^53 that is lost: it is printed exactly and read as 2^53. */
  lemma NextIntegerIsLost(st: Style, g: Settings)
    requires CoversDoubles(g) && IsGap(st.indent)
    ensures var v := Big(Exact(1, FULL + 1, 0));
            Printable(v) && var t := Print(v, [], st); Parse(t, g) == Ok(Plain(Exact(1, FULL, 0)), |t|)
  {
    hide Print, Parse, ToDouble, AboveInteger, Overflows, Pow, Exact, AsNumber, Val;
    var x := Exact(1, FULL + 1, 0);
    ExactMeaning(1, FULL + 1, 0);
    LostInRange(g);
    LostNearby();
    AboveIff(FULL + 1, 1);
    OverflowIff(FULL + 1, 1);
    LimitLarge();
    LostDouble();
    ParsePrint(Big(x), st, g);
  }

  lemma LostNearby()
    ensures var x := Exact(1, FULL + 1, 0); Valid(x) && Finite(x) && Nearby(x) == ToDouble(FULL + 1, 1)
  {
    hide ToDouble, Exact, Val;
    var x := Exact(1, FULL + 1, 0);
    ExactMeaning(1, FULL + 1, 0);
    PowStep(10, 0);
    assert Max(0, Places(x)) == 0;
  }

  lemma LostInRange(g: Settings)
    requires CoversDoubles(g)
    ensures var x := Exact(1, FULL + 1, 0); Valid(x) && InRange(x, g)
  {
    hide Pow, Exact;
    ExactMeaning(1, FULL + 1, 0);
    ExponentMeaning(1, FULL + 1, 0);
    var e := Exact(1, FULL + 1, 0).e;
    SmallPowers();
    if e < 15 { PowMono(10, e + 1, 15); }
    if e > 27 { PowMono(10, 28, e); }
    LargePower();
  }

  lemma LargePower()
    ensures FULL + 1 < Pow10(28)
  {
    assert Pow(10, 7) == 10_000_000;
    PowAdd(10, 7, 7);
    PowAdd(10, 14, 14);
  }

  lemma LostDouble()
    ensures AsNumber(1, ToDouble(FULL + 1, 1)) == Exact(1, FULL, 0)
  {
    hide Exact;
    TopInteger();
    IntegerIsDouble(1, FULL);
    assert Up(FULL + 1, 1, 0) == Up(FULL + 1, 2, 1) == Double(Nearest(FULL + 1, 2), 1);
    DivModUnique(HALF, 2, 1);
  }

  // ----- what the reader returns

  /** All doubles have exponents within the range of the settings. */
  predicate CoversDoubles(g: Settings)
  {
    !Over(308, g.hi) && g.lo <= 15
  }

  /** The numbers of the host in a value are integers, none of them minus zero. */
  predicate HostIntegers(v: Json)
  {
    match v
    case Plain(x) => IsInteger(x) && x != Zero(-1)
    case Arr(vs) => forall i :: 0 <= i < |vs| ==> HostIntegers(vs[i])
    case Obj(es) => forall i :: 0 <= i < |es| ==> HostIntegers(es[i].value)
    case _ => true
  }

  /** What the reader makes sure of in every value it returns. */
  ghost predicate Canonical(v: Json, g: Settings)
  {
    match v
    case Str(s) => IsText(s)
    case Plain(x) => Valid(x) && Finite(x)
    case Big(x) => SettledNumber(x) && InRange(x, g)
    case Arr(vs) => forall i :: 0 <= i < |vs| ==> Canonical(vs[i], g)
    case Obj(es) =>
      && (forall i :: 0 <= i < |es| ==> IsText(es[i].key) && es[i].key != PROTO && Canonical(es[i].value, g))
      && (forall i, j :: 0 <= i < j < |es| ==> es[i].key != es[j].key)
    case _ => true
  }

  lemma {:induction false} CanonicalPortable(v: Json, g: Settings)
    requires Canonical(v, g) && HostIntegers(v)
    ensures Portable(v, g) && Settled(v)
    decreases v
  {
    hide AboveInteger, Overflows, Nearby, IsInteger, InRange, IsText, Valid;
    match v
    case Arr(vs) =>
      forall i | 0 <= i < |vs| ensures Portable(vs[i], g) && Settled(vs[i]) {
        CanonicalPortable(vs[i], g);
      }
    case Obj(es) =>
      forall i | 0 <= i < |es| ensures Portable(es[i].value, g) && Settled(es[i].value) {
        CanonicalPortable(es[i].value, g);
      }
    case _ =>
  }

  /** The thresholds as powers of ten. */
  lemma DoubleExponents()
    ensures Pow10(15) <= FULL && Pow(2, MAX_BITS) <= Pow10(309)
  {
    hide Pow;
    SmallPowers();
    ElevenTimes(Pow(2, 93), Pow10(28));
    assert Pow(2, MAX_BITS) == Pow(2, 1) * Pow(2, 1023) by { PowAdd(2, 1, 1023); }
    assert Pow10(309) == Pow10(1) * Pow10(308) by { PowAdd(10, 1, 308); }
    PowOfPow(2, 93, 11);
    PowOfPow(10, 28, 11);
    PowStep(2, 0); PowStep(10, 0);
    MulMono(2, 10, Pow(2, 1023));
  }

  lemma SmallPowers()
    ensures Pow(2, 93) <= Pow10(28) && Pow10(15) <= FULL
  {
    assert Pow(2, 10) == 1024 && Pow(2, 1) == 2;
    PowAdd(2, 10, 10);
    PowAdd(2, 20, 10);
    PowAdd(2, 30, 1);
    PowAdd(2, 31, 31);
    PowAdd(2, 62, 31);
    assert Pow(10, 7) == 10_000_000;
    PowAdd(10, 7, 7);
    PowAdd(10, 14, 14);
    PowStep(10, 14);
  }

  lemma ElevenTimes(x: nat, y: nat)
    requires x <= y
    ensures Pow(x, 11) <= Pow(y, 11)
  {
    PowerMono(x, y, 11);
  }

  lemma {:induction false} PowerMono(x: nat, y: nat, n: nat)
    requires x <= y
    ensures Pow(x, n) <= Pow(y, n)
  {
    if n > 0 {
      PowerMono(x, y, n - 1);
      MulMono(x, y, Pow(x, n - 1));
      MulMono(Pow(x, n - 1), Pow(y, n - 1), y);
    }
  }

  /** A big number that the reader makes lies between 10^15 and 10^309. */
  lemma SettledRange(x: Number)
    requires SettledNumber(x)
    ensures 15 <= x.e <= 308 && !IsZero(x)
  {
    hide Pow, AboveInteger, Overflows, Nearby, Mag;
    SettledIff(x);
    DoubleExponents();
    var k := Max(0, Places(x));
    MagPositive(x, k);
    MulStrict(0, FULL + 1, Pow10(k));
    NumberBound(x, k);
    hide *;
    ExponentRange(x.e, k, MagOf(x, k), Pow(2, MAX_BITS) - Pow(2, 970));
  }

  lemma ExponentRange(e: int, k: nat, m: int, top: int)
    requires e + k >= 0 && Pow10(e + k) <= m < Pow10(e + k + 1)
    requires Pow10(k) * (FULL + 1) < m < Pow10(k) * top
    requires Pow10(15) <= FULL && top <= Pow10(309)
    ensures 15 <= e <= 308
  {
    hide Pow;
    PowAdd(10, k, 15);
    PowAdd(10, k, 309);
    MulMono(Pow10(15), FULL + 1, Pow10(k));
    MulMono(top, Pow10(309), Pow10(k));
    if e < 15 { PowMono(10, e + k + 1, k + 15); }
    if e > 308 { PowMono(10, k + 309, e + k); }
  }

  lemma {:induction false} HexBound(t: Text, j: int, n: nat, acc: nat)
    requires 0 <= j
    ensures 0 <= HexRun(t, j, n, acc).0 < (acc + 1) * Pow(16, n)
    decreases n
  {
    hide HexIndex;
    var h := HexIndex(CharAt(t, j + 1));
    assert h < 16 by { HexSmall(CharAt(t, j + 1)); }
    if n > 0 {
      PowStep(16, n - 1);
      if h >= 0 {
        HexBound(t, j + 1, n - 1, acc * 16 + h);
        MulMono(acc * 16 + h + 1, (acc + 1) * 16, Pow(16, n - 1));
        MulAssoc3(acc + 1, 16, Pow(16, n - 1));
      } else {
        MulMono(1, Pow(16, n), acc + 1);
      }
    }
  }

  lemma HexSmall(u: int)
    ensures HexIndex(u) < 16
  {
  }

  lemma {:induction false} BodyIsText(t: Text, q: int)
    requires IsText(t) && 0 <= q && StringBody(t, q).Ok?
    ensures IsText(StringBody(t, q).value)
    decreases if q < |t| then |t| - q else 0
  {
    hide HexRun, Escapee;
    var u, e := CharAt(t, q), CharAt(t, q + 1);
    if u != QUOTE && u != BACKSLASH {
      BodyIsText(t, q + 1);
    } else if u == BACKSLASH && e == SMALL_U {
      HexBound(t, q + 1, 4, 0);
      assert Pow(16, 4) == 0x10000;
      BodyIsText(t, HexRun(t, q + 1, 4, 0).1 + 1);
    } else if u == BACKSLASH {
      EscapeeSmall(e);
      BodyIsText(t, q + 2);
    }
  }

  lemma EscapeeSmall(u: int)
    ensures -1 <= Escapee(u) < 0x10000
  {
  }

  /** A number that is read is one of the host or lies beyond its integers. */
  lemma NumberCanonical(l: Literal, g: Settings)
    requires WellFormed(l) && CoversDoubles(g) && NumberOf(l, g).Some?
    ensures Canonical(NumberOf(l, g).value, g)
  {
    hide Pow, Val, Exact, ToDouble, AboveInteger, Overflows, AsNumber, ExponentOf;
    UnroundedValid(l);
    var x := Unrounded(l);
    AsNumberValid(x.s, Nearby(x));
    if AboveInteger(Nearby(x)) {
      SettledRange(x);
    }
  }

  /** Everything the reader returns is canonical. */
  lemma {:induction false} ReaderCanonical(t: Text, p: int, g: Settings)
    requires IsText(t) && CoversDoubles(g) && -1 <= p <= |t| && ValueAt(t, p, g).Ok?
    ensures Canonical(ValueAt(t, p, g).value, g)
    decreases |t| - p, 1
  {
    hide White, Match, StringBody, Scan, NumberOf, Elements, Members, SettledNumber, InRange, IsText, IsDigit;
    var w := White(t, p);
    var u := CharAt(t, w);
    if u == OPEN_BRACE {
      var q := White(t, w + 1);
      if CharAt(t, q) != CLOSE_BRACE {
        MembersCanonical(t, q, [], g);
      }
    } else if u == OPEN_BRACKET {
      var q := White(t, w + 1);
      if CharAt(t, q) != CLOSE_BRACKET {
        ElementsCanonical(t, q, g);
      }
    } else if u == QUOTE {
      BodyIsText(t, w + 1);
    } else if u == MINUS || IsDigit(u) {
      NumberFound(t, w, g);
      NumberCanonical(Scan(t, w).0, g);
    }
  }

  lemma {:induction false} ElementsCanonical(t: Text, q: int, g: Settings)
    requires IsText(t) && CoversDoubles(g) && 0 <= q <= |t| && Elements(t, q, g).Ok?
    ensures forall i :: 0 <= i < |Elements(t, q, g).value| ==> Canonical(Elements(t, q, g).value[i], g)
    decreases |t| - q, 3
  {
    hide White, ValueAt, More, Canonical, IsText;
    ReaderCanonical(t, q, g);
    var r := ElementAt(t, q, g);
    if r.value.1 {
      ElementsCanonical(t, r.next, g);
    }
  }

  lemma {:induction false} MembersCanonical(t: Text, q: int, seen: seq<Text>, g: Settings)
    requires IsText(t) && CoversDoubles(g) && 0 <= q <= |t| && Members(t, q, seen, g).Ok?
    ensures var es := Members(t, q, seen, g).value;
            && (forall i :: 0 <= i < |es| ==> IsText(es[i].key) && es[i].key != PROTO && es[i].key !in seen)
            && (forall i :: 0 <= i < |es| ==> Canonical(es[i].value, g))
            && (forall i, j :: 0 <= i < j < |es| ==> es[i].key != es[j].key)
    decreases |t| - q, 3
  {
    hide White, ValueAt, More, StringBody, Canonical, IsText;
    MemberCanonical(t, q, seen, g);
    var r := MemberAt(t, q, seen, g);
    if r.value.1 {
      var key := r.value.0.key;
      MembersCanonical(t, r.next, seen + [key], g);
      assert key in seen + [key];
    }
  }

  lemma {:induction false} MemberCanonical(t: Text, q: int, seen: seq<Text>, g: Settings)
    requires IsText(t) && CoversDoubles(g) && 0 <= q <= |t| && MemberAt(t, q, seen, g).Ok?
    ensures var e := MemberAt(t, q, seen, g).value.0;
            IsText(e.key) && e.key != PROTO && e.key !in seen && Canonical(e.value, g)
    decreases |t| - q, 2
  {
    hide White, ValueAt, More, StringBody, Canonical, IsText;
    BodyIsText(t, q + 1);
    ReaderCanonical(t, White(t, StringAt(t, q).next) + 1, g);
  }

  /**
   A text that is read, printed in any style and read again gives the same value,
   as long as the numbers of the host in it are integers.
   */
  lemma Reparse(t: Text, st: Style, g: Settings)
    requires IsText(t) && CoversDoubles(g) && IsGap(st.indent) && Parse(t, g).Ok? && HostIntegers(Parse(t, g).value)
    ensures Printable(Parse(t, g).value)
    ensures var t' := Print(Parse(t, g).value, [], st); Parse(t', g) == Ok(Parse(t, g).value, |t'|)
  {
    hide ValueAt, White, Print, Canonical, HostIntegers, Portable, Settled, Printable;
    ReaderCanonical(t, -1, g);
    CanonicalPortable(Parse(t, g).value, g);
    RoundTrip(Parse(t, g).value, st, g);
  }

  /** A text is accepted iff it is a value with nothing but white space around it, up to its very end. */
  lemma ParseWhole(t: Text, g: Settings)
    requires IsText(t)
    ensures Parse(t, g).Ok? <==>
              ValueAt(t, -1, g).Ok? && forall k :: ValueAt(t, -1, g).next <= k < |t| ==> Blank(t[k])
    ensures Parse(t, g).Ok? ==> Parse(t, g).next == |t| && Parse(t, g).value == ValueAt(t, -1, g).value
  {
    hide ValueAt;
    if ValueAt(t, -1, g).Ok? {
      var n := ValueAt(t, -1, g).next;
      var w := White(t, n);
      if exists k :: n <= k < |t| && !Blank(t[k]) {
        var k :| n <= k < |t| && !Blank(t[k]);
        assert CharAt(t, k) == t[k];
        assert w <= k && CharAt(t, w) == t[w];
      }
    }
  }
}
