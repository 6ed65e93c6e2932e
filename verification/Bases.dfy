/**
 Integers in other bases: `convert` and the two places that call it, the
 constructor and `toString` with a base.
 */
module Bases {
  import opened Wrappers
  import opened Digits
  import opened Numbers
  import opened Rounding
  import opened Arithmetic
  import opened Laws
  import opened Numerals
  import opened NumberText
  import opened Engine

  // ----- digits of any base up to 36

  const SMALL_A := 'a' as int

  /** `DIGITS.charAt(d)`. */
  function DigitChar(d: int): int
  {
    if d < 10 then ZERO + d else SMALL_A + d - 10
  }

  /** `DIGITS.indexOf(u)`. */
  function DigitIndex(u: int): int
  {
    if IsDigit(u) then u - ZERO else if SMALL_A <= u < SMALL_A + 26 then u - SMALL_A + 10 else -1
  }

  function Lower(u: int): int
  {
    if 'A' as int <= u <= 'Z' as int then u + 32 else u
  }

  function LowerText(t: Text): (r: Text)
    ensures |r| == |t| && forall i :: 0 <= i < |t| ==> r[i] == Lower(t[i])
  {
    seq(|t|, i requires 0 <= i < |t| => Lower(t[i]))
  }

  function Chars(c: seq<int>): (t: Text)
    ensures |t| == |c| && forall i :: 0 <= i < |c| ==> t[i] == DigitChar(c[i])
  {
    seq(|c|, i requires 0 <= i < |c| => DigitChar(c[i]))
  }

  function Indices(t: Text): (c: seq<int>)
    ensures |c| == |t| && forall i :: 0 <= i < |t| ==> c[i] == DigitIndex(t[i])
  {
    seq(|t|, i requires 0 <= i < |t| => DigitIndex(t[i]))
  }

  lemma CharsBack(c: seq<int>)
    requires InBase(c, 36)
    ensures Indices(LowerText(Chars(c))) == c
  {
  }

  // ----- the growing array, least significant digit first

  function Little(arr: seq<int>, b: nat): int
  {
    if arr == [] then 0 else arr[0] + b * Little(arr[1..], b)
  }

  function Reversed(s: seq<int>): (r: seq<int>)
    ensures |r| == |s| && forall i :: 0 <= i < |s| ==> r[i] == s[|s| - 1 - i]
  {
    seq(|s|, i requires 0 <= i < |s| => s[|s| - 1 - i])
  }

  lemma {:induction false} LittleReversed(arr: seq<int>, b: nat)
    ensures Val(Reversed(arr), b) == Little(arr, b)
  {
    if arr != [] {
      LittleReversed(arr[1..], b);
      assert Reversed(arr)[..|arr| - 1] == Reversed(arr[1..]);
    }
  }

  lemma {:induction false} LittleUpdate(arr: seq<int>, j: nat, d: int, b: nat)
    requires j < |arr|
    ensures Little(arr[j := d], b) == Little(arr, b) + (d - arr[j]) * Pow(b, j)
  {
    if j == 0 {
      assert arr[0 := d][1..] == arr[1..];
    } else {
      var t := arr[1..];
      LittleUpdate(t, j - 1, d, b);
      assert arr[j := d][1..] == t[j - 1 := d];
      PowStep(b, j - 1);
      UpdateAlgebra(b, Little(t, b), d - arr[j], Pow(b, j - 1));
    }
  }

  lemma UpdateAlgebra(b: int, v: int, d: int, p: int)
    ensures b * (v + d * p) == b * v + d * (b * p)
  {
    assert b * (v + d * p) == b * v + b * (d * p);
    MulAssoc3(b, d, p);
    MulAssoc3(d, b, p);
  }

  lemma {:induction false} LittleAppendZero(arr: seq<int>, b: nat)
    ensures Little(arr + [0], b) == Little(arr, b)
  {
    if arr == [] {
      assert [0][1..] == [];
    } else {
      LittleAppendZero(arr[1..], b);
      assert (arr + [0])[1..] == arr[1..] + [0];
    }
  }

  function Scaled(arr: seq<int>, k: int): (r: seq<int>)
    ensures |r| == |arr| && forall i :: 0 <= i < |arr| ==> r[i] == arr[i] * k
  {
    seq(|arr|, i requires 0 <= i < |arr| => arr[i] * k)
  }

  lemma {:induction false} LittleScaled(arr: seq<int>, k: int, b: nat)
    ensures Little(Scaled(arr, k), b) == Little(arr, b) * k
  {
    if arr != [] {
      LittleScaled(arr[1..], k, b);
      assert Scaled(arr, k)[1..] == Scaled(arr[1..], k);
      assert (arr[0] + b * Little(arr[1..], b)) * k == arr[0] * k + b * Little(arr[1..], b) * k;
      MulAssoc3(b, Little(arr[1..], b), k);
    }
  }

  /** A carry from one place to the next, which may have to be created. */
  lemma CarryUp(arr: seq<int>, j: nat, b: nat)
    requires b > 0 && j + 1 < |arr|
    ensures Little(arr[j := arr[j] % b][j + 1 := arr[j + 1] + arr[j] / b], b) == Little(arr, b)
  {
    var a, q, r := arr[j := arr[j] % b], arr[j] / b, arr[j] % b;
    LittleUpdate(arr, j, r, b);
    LittleUpdate(a, j + 1, arr[j + 1] + q, b);
    PowStep(b, j);
    assert arr[j] == b * q + r;
    assert q * (b * Pow(b, j)) == b * q * Pow(b, j) by { MulAssoc3(b, q, Pow(b, j)); MulAssoc3(q, b, Pow(b, j)); }
    assert (r - arr[j]) * Pow(b, j) == -(b * q * Pow(b, j)) by { assert r - arr[j] == -(b * q); Neg(b * q, Pow(b, j)); }
  }

  /** No leading zero, but for a single one. */
  predicate Trimmed(arr: seq<int>)
  {
    arr != [] && (|arr| > 1 ==> arr[|arr| - 1] != 0)
  }

  /** Every place times `k`. */
  method ScaleBy(arr0: seq<int>, k: int) returns (arr: seq<int>)
    ensures arr == Scaled(arr0, k)
  {
    arr := arr0;
    var j := 0;
    while j < |arr|
      invariant 0 <= j <= |arr| == |arr0|
      invariant forall i :: 0 <= i < |arr| ==> arr[i] == if i < j then arr0[i] * k else arr0[i]
    {
      arr := arr[j := arr[j] * k];
      j := j + 1;
    }
  }

  /** The places from `j` on still to be carried: the first may be as large as `most`, the others `most - slack`. */
  ghost predicate Carrying(arr: seq<int>, j: nat, b: nat, most: int, slack: int)
  {
    && j <= |arr| && Trimmed(arr)
    && (forall i :: 0 <= i < j ==> 0 <= arr[i] < b)
    && (j < |arr| ==> 0 <= arr[j] <= most)
    && (forall i :: j < i < |arr| ==> 0 <= arr[i] <= most - slack)
  }

  /** The carries passed on, the array growing where they need room. */
  method PassCarries(arr0: seq<int>, bIn: nat, b: nat) returns (arr: seq<int>)
    requires 2 <= bIn && 2 <= b && Carrying(arr0, 0, b, b * bIn - 1, bIn - 1)
    ensures InBase(arr, b) && Trimmed(arr) && Little(arr, b) == Little(arr0, b)
  {
    hide Little, Pow;
    arr := arr0;
    var j := 0;
    while j < |arr|
      invariant Carrying(arr, j, b, b * bIn - 1, bIn - 1) && Little(arr, b) == Little(arr0, b)
      decreases |arr| - j, if j < |arr| then arr[j] else 0
    {
      if arr[j] > b - 1 {
        CarryBound(arr[j], bIn, b);
        if j + 1 == |arr| {
          LittleAppendZero(arr, b);
          CarryUp(arr + [0], j, b);
          arr := (arr + [0])[j := arr[j] % b][j + 1 := 0 + arr[j] / b];
        } else {
          CarryUp(arr, j, b);
          arr := arr[j := arr[j] % b][j + 1 := arr[j + 1] + arr[j] / b];
        }
      }
      j := j + 1;
    }
  }

  lemma CarryBound(x: int, bIn: nat, b: nat)
    requires b >= 2 && bIn >= 2 && b <= x <= b * bIn - 1
    ensures 1 <= x / b <= bIn - 1 && x / b < x && 0 <= x % b < b
  {
    var q, r := x / b, x % b;
    assert x == b * q + r;
    if q >= bIn { MulMono(bIn, q, b); }
    if q < 1 { MulMono(q, 0, b); }
    MulMono(2, b, q);
  }

  /** One digit taken in: everything times `bIn`, the digit added at the bottom, and the carries passed on. */
  method TakeDigit(arr0: seq<int>, d: int, bIn: nat, b: nat) returns (arr: seq<int>)
    requires 2 <= bIn && 2 <= b && 0 <= d < bIn
    requires InBase(arr0, b) && Trimmed(arr0)
    ensures InBase(arr, b) && Trimmed(arr)
    ensures Little(arr, b) == Little(arr0, b) * bIn + d
  {
    hide Little, Pow;
    arr := ScaleBy(arr0, bIn);
    LittleScaled(arr0, bIn, b);
    LittleUpdate(arr, 0, arr[0] + d, b);
    PowStep(b, 0);
    ScaledBounds(arr0, bIn, b);
    arr := PassCarries(arr[0 := arr[0] + d], bIn, b);
  }

  lemma ScaledBounds(arr: seq<int>, bIn: nat, b: nat)
    requires 2 <= bIn && 2 <= b && InBase(arr, b) && Trimmed(arr)
    ensures Trimmed(Scaled(arr, bIn))
    ensures forall i :: 0 <= i < |arr| ==> 0 <= Scaled(arr, bIn)[i] <= b * bIn - bIn
  {
    forall i | 0 <= i < |arr|
      ensures 0 <= Scaled(arr, bIn)[i] <= b * bIn - bIn && (arr[i] > 0 ==> Scaled(arr, bIn)[i] > 0)
    {
      MulMono(arr[i], b - 1, bIn);
      MulMono(0, arr[i], bIn);
      assert (b - 1) * bIn == b * bIn - bIn;
      if arr[i] > 0 { MulMono(1, arr[i], bIn); }
    }
  }

  /** `strToArr`: the digits, most significant first, in base `b` of the number that `c` is in base `bIn`. */
  method ToArray(c: seq<int>, bIn: nat, b: nat) returns (arr: seq<int>)
    requires 2 <= bIn && 2 <= b && InBase(c, bIn)
    ensures InBase(arr, b) && arr != [] && (|arr| > 1 ==> arr[0] != 0)
    ensures Val(arr, b) == Val(c, bIn)
  {
    hide Little, Pow, Val;
    arr := [0];
    var i := 0;
    ArrayStart(c, bIn, b);
    while i < |c|
      invariant 0 <= i <= |c| && InBase(arr, b) && Trimmed(arr)
      invariant Little(arr, b) == Val(c[..i], bIn)
    {
      arr := TakeDigit(arr, c[i], bIn, b);
      assert c[..i + 1][..i] == c[..i];
      ValStep(c[..i + 1], bIn);
      i := i + 1;
    }
    assert c[..i] == c;
    LittleReversed(arr, b);
    arr := Reversed(arr);
  }

  lemma ArrayStart(c: seq<int>, bIn: nat, b: nat)
    ensures Little([0], b) == 0 == Val(c[..0], bIn)
  {
    assert [0][1..] == [] && c[..0] == [];
  }

  // ----- whole numbers as text in base b

  function BaseDigits(n: nat, b: nat): (c: seq<int>)
    requires b >= 2
    ensures InBase(c, b) && c != [] && Val(c, b) == n && (n > 0 ==> c[0] != 0)
  {
    if n == 0 then (ValOne(0, b); [0]) else DigitsOf(n, b)
  }

  /** `convert` for an integer: the text of the same number in another base. */
  method Convert(nStr: Text, bOut: nat, bIn: nat) returns (r: Text)
    requires 2 <= bIn <= 36 && 2 <= bOut <= 36 && InBase(Indices(LowerText(nStr)), bIn)
    ensures Val(Indices(LowerText(nStr)), bIn) >= 0
    ensures r == Chars(BaseDigits(Val(Indices(LowerText(nStr)), bIn), bOut))
  {
    hide Val, BaseDigits, Indices;
    var c := Indices(LowerText(nStr));
    ValBound(c, bIn);
    var arr := ToArray(c, bIn, bOut);
    ArrayDigits(arr, bOut);
    r := [];
    var i := 0;
    while i < |arr|
      invariant 0 <= i <= |arr| && r == Chars(arr[..i])
    {
      r := r + [DigitChar(arr[i])];
      i := i + 1;
      assert arr[..i][..i - 1] == arr[..i - 1];
    }
    assert arr[..i] == arr;
  }

  lemma ArrayDigits(arr: seq<int>, b: nat)
    requires b >= 2 && InBase(arr, b) && arr != [] && (|arr| > 1 ==> arr[0] != 0)
    ensures Val(arr, b) >= 0 && BaseDigits(Val(arr, b), b) == arr
  {
    hide Val;
    ValBound(arr, b);
    if arr == [0] {
      ValOne(0, b);
    } else {
      ValLead(arr, b);
      DigitsUnique(arr, b);
    }
  }

  predicate Whole(x: Number)
  {
    Finite(x) && Places(x) <= 0
  }

  /** What `toString` with a base writes for an integer. */
  function BaseText(x: Number, b: nat): Text
    requires Valid(x) && Whole(x) && b >= 2
  {
    MagPositive(x, 0);
    (if x.s < 0 && !IsZero(x) then [MINUS] else []) + Chars(BaseDigits(MagOf(x, 0), b))
  }

  method ToTextBase(x: BigNumber, b: nat) returns (str: Text)
    requires Valid(x.Value()) && Whole(x.Value()) && 2 <= b <= 36
    ensures str == BaseText(x.Value(), b)
  {
    hide Val, Pow, BaseDigits, Spelled, InBase, Chars, Indices, LowerText, NormalDigits, Places, MagOf, Zeros;
    ghost var v := x.Value();
    WholeText(v, b);
    if x.c == [0] {
      return Spelled(x.c);
    }
    str := Trailing(x.c, x.e + 1 - |x.c|);
    str := Convert(str, b, 10);
    if x.s < 0 {
      str := [MINUS] + str;
    }
  }

  /** The plain decimal text of an integer, and what its conversion has to give. */
  lemma WholeText(x: Number, b: nat)
    requires Valid(x) && Whole(x) && b >= 2
    ensures x.e + 1 >= |x.c|
    ensures var d := Indices(LowerText(Spelled(x.c + Zeros(x.e + 1 - |x.c|))));
            InBase(d, 10) && Val(d, 10) == MagOf(x, 0) >= 0
    ensures x.c == [0] ==> BaseText(x, b) == Spelled(x.c)
    ensures x.c != [0] ==> BaseText(x, b) == (if x.s < 0 then [MINUS] else []) + Chars(BaseDigits(MagOf(x, 0), b))
  {
    hide Val, Pow, BaseDigits, Spelled, Chars, Indices, LowerText, MagOf;
    WholeDigits(x);
    MagPositive(x, 0);
    DecimalDigits(x.c + Zeros(x.e + 1 - |x.c|), b);
    ZeroText(b);
    assert [] + Spelled([0]) == Spelled([0]);
  }

  lemma ZeroText(b: nat)
    requires b >= 2
    ensures Spelled([0]) == Chars(BaseDigits(0, b)) && Spelled([0]) == [ZERO]
  {
  }

  /** The decimal digits of an integer, zeros at the end included. */
  lemma WholeDigits(x: Number)
    requires Valid(x) && Whole(x)
    ensures x.e + 1 >= |x.c|
    ensures InBase(x.c + Zeros(x.e + 1 - |x.c|), 10) && Val(x.c + Zeros(x.e + 1 - |x.c|), 10) == MagOf(x, 0)
    ensures IsZero(x) ==> MagOf(x, 0) == 0
  {
    hide Val, Pow;
    TrailingZeros(x.c, x.e + 1 - |x.c|, 10);
    MagPositive(x, 0);
  }

  lemma DecimalDigits(c: seq<int>, b: nat)
    requires InBase(c, 10)
    ensures Indices(LowerText(Spelled(c))) == c
  {
  }

  /** A text without a point at its end. */
  function Undotted(t: Text): Text
  {
    if t != [] && t[|t| - 1] == DOT then t[..|t| - 1] else t
  }

  predicate IsBaseNumeral(t: Text, b: nat)
  {
    t != [] && InBase(Indices(LowerText(t)), b)
  }

  /**
   The number that the constructor makes of a text and a base, for whole numbers and
   the special values; nothing if the text is none of these.
   */
  function ReadBase(t: Text, b: nat, g: Settings): Option<Number>
    requires g.dp >= 0 && b >= 2
  {
    if b == 10 then
      var r := ReadText(t, g);
      ReadValid(t, g);
      if r.None? then None else Some(RoundTo(r.value, g.dp, g.mode))
    else
      var n := Unplussed(Trim(t));
      var u, s := Undotted(Unminused(n)), SignAt(n);
      if IsBaseNumeral(u, b) then
        ValBound(Indices(LowerText(u)), b);
        var v := Val(Indices(LowerText(u)), b);
        Some(if v == 0 then Zero(s) else Clamp(Exact(s, v, 0), g))
      else if u == Ascii("Infinity") then Some(Infinity(s))
      else if u == Ascii("NaN") then Some(NAN)
      else None
  }

  lemma ReadValid(t: Text, g: Settings)
    ensures ReadText(t, g).Some? ==> Valid(ReadText(t, g).value)
  {
    hide Numeral, ReadLiteral, Trim, Unplussed, Unminused;
    var n := Unplussed(Trim(t));
    if Numeral(t).Some? {
      LiteralValid(Numeral(t).value, g);
    } else if Numeral(Unminused(n)).Some? {
      LiteralValid(Numeral(Unminused(n)).value.(neg := SignAt(n) < 0), g);
    }
  }

  lemma LiteralValid(l: Literal, g: Settings)
    requires WellFormed(l)
    ensures Valid(ReadLiteral(l, g))
  {
    hide Val, Exact, ExponentOf;
    DigitsNat(l);
    var v := Val(l.ip + l.fp, 10);
    if v > 0 {
      ExactMeaning(if l.neg then -1 else 1, v, |l.fp| - ExponentOf(l));
    }
  }

  /** The constructor with a base. */
  method FromTextBase(lib: Library, n0: Text, b: nat) returns (x: BigNumber?)
    requires 2 <= b <= 36 && lib.Ready() && lib.decimalPlaces >= 0
    modifies lib`roundingMode
    ensures lib.roundingMode == old(lib.roundingMode)
    ensures x == null <==> ReadBase(n0, b, old(lib.Config())) == None
    ensures x != null ==> fresh(x) && ReadBase(n0, b, old(lib.Config())) == Some(x.Value())
  {
    hide Val, Pow, ReadText, RoundTo, Exact, InBase, BaseDigits, Indices, LowerText, Chars, Trim, Unplussed, Unminused,
      Undotted, IsBaseNumeral, Ascii;
    if b == 10 {
      ReadValid(n0, lib.Config());
      x := FromText(lib, n0);
      if x != null {
        x := lib.SetMode(x, lib.decimalPlaces, lib.roundingMode);
      }
      return;
    }
    var n := Unplussed(Trim(n0));
    var s := SignAt(n);
    n := Undotted(Unminused(n));
    if !IsBaseNumeral(n, b) {
      if n == Ascii("Infinity") {
        x := new BigNumber(Infinity(s));
      } else if n == Ascii("NaN") {
        x := new BigNumber(NAN);
      } else {
        x := null;
      }
      return;
    }
    BaseNumeralDigits(n, b);
    ghost var v := Val(Indices(LowerText(n)), b);
    n := Convert(n, 10, b);
    ReadWhole(v, lib.Config());
    x := FromText(lib, n);
    x.s := s;
    ClampSign(v, s, lib.Config());
  }

  lemma BaseNumeralDigits(t: Text, b: nat)
    requires IsBaseNumeral(t, b) && b > 0
    ensures InBase(Indices(LowerText(t)), b) && Val(Indices(LowerText(t)), b) >= 0
  {
    ValBound(Indices(LowerText(t)), b);
  }

  lemma ClampSign(v: nat, s: int, g: Settings)
    requires s == 1 || s == -1
    ensures Clamp(Exact(1, v, 0), g).(s := s) == (if v == 0 then Zero(s) else Clamp(Exact(s, v, 0), g))
  {
    hide DigitsOf, Strip;
  }

  /** Decimal digits on their own are read as the integer they denote. */
  lemma ReadWhole(v: nat, g: Settings)
    requires g.lo < 0 && (g.hi.AtMost? ==> g.hi.n > 0)
    ensures ReadText(Chars(BaseDigits(v, 10)), g) == Some(Clamp(Exact(1, v, 0), g))
  {
    hide Val, Pow, Exact, ReadLiteral, Spell, Numeral, BaseDigits;
    var c := BaseDigits(v, 10);
    PlainText(c);
    PlainValue(false, c, g);
    NumeralSpell(Literal(false, c, false, [], 0, 0, []));
  }

  lemma PlainText(c: seq<int>)
    requires InBase(c, 10)
    ensures Spell(Literal(false, c, false, [], 0, 0, [])) == Chars(c)
    ensures Spell(Literal(true, c, false, [], 0, 0, [])) == [MINUS] + Chars(c)
  {
    assert Spelled(c) == Chars(c);
  }

  lemma PlainValue(neg: bool, c: seq<int>, g: Settings)
    requires InBase(c, 10) && c != [] && g.lo < 0 && (g.hi.AtMost? ==> g.hi.n > 0)
    ensures var l, s := Literal(neg, c, false, [], 0, 0, []), if neg then -1 else 1;
            IsNumeral(l) && Val(c, 10) >= 0 && ReadLiteral(l, g) == Clamp(Exact(s, Val(c, 10), 0), g)
  {
    hide Val, Pow;
    ValBound(c, 10);
    assert c + [] == c;
    NoExponent(Literal(neg, c, false, [], 0, 0, []));
    ExactZero(if neg then -1 else 1, 0);
  }

  // ----- printing and reading in any base undo each other

  lemma RoundWhole(x: Number, dp: nat, mode: Mode)
    requires Valid(x) && Finite(x) && Places(x) <= dp
    ensures RoundTo(x, dp, mode) == x
  {
    hide Val, Pow, Exact;
    PowStep(10, 0);
    ScaledMagNat(x, dp);
    assert ScaledMag(x, dp) == MagOf(x, dp);
    ExactOf(x, dp);
    WholeUnit(mode, x.s < 0, MagOf(x, dp));
  }

  lemma WholeUnit(mode: Mode, neg: bool, n: nat)
    ensures RoundMag(mode, neg, n, 1) == n
  {
    DivModUnique(n, 1, 0);
  }

  lemma BaseNumeral(n: nat, b: nat)
    requires 2 <= b <= 36
    ensures var t := Chars(BaseDigits(n, b));
            && Undotted(t) == t && Clean(t) && t != [] && t[0] != MINUS
            && Indices(LowerText(t)) == BaseDigits(n, b)
  {
    hide Val, DigitsOf;
    CharsBack(BaseDigits(n, b));
  }

  /** A number without the sign that a zero may have. */
  function Kept(x: Number): Number
  {
    if IsZero(x) then Zero(1) else x
  }

  /** The sign and the magnitude of an integer in range give it back. */
  lemma WholeValue(x: Number, g: Settings)
    requires Valid(x) && Whole(x) && InRange(x, g) && g.lo < 0 && (g.hi.AtMost? ==> g.hi.n > 0)
    ensures var s, m := if x.s < 0 && !IsZero(x) then -1 else 1, MagOf(x, 0);
            && m >= 0 && (m == 0 <==> IsZero(x))
            && Kept(x) == (if m == 0 then Zero(s) else Clamp(Exact(s, m, 0), g))
            && Kept(x) == Clamp(Exact(s, m, 0), g)
  {
    hide Val, Pow, Exact, MagOf;
    MagPositive(x, 0);
    if IsZero(x) {
      ExactZero(1, 0);
    } else {
      ExactOf(x, 0);
    }
  }

  /** Nothing to be taken off in front or behind. */
  predicate Clean(t: Text)
  {
    Trim(t) == t && Unplussed(t) == t
  }

  lemma BaseParts(x: Number, b: nat)
    requires Valid(x) && Whole(x) && 2 <= b <= 36
    ensures var t, neg := BaseText(x, b), x.s < 0 && !IsZero(x);
            && MagOf(x, 0) >= 0
            && t == (if neg then [MINUS] else []) + Chars(BaseDigits(MagOf(x, 0), b))
            && Clean(t) && SignAt(t) == (if neg then -1 else 1)
            && Undotted(Unminused(t)) == Chars(BaseDigits(MagOf(x, 0), b))
  {
    hide Val, Pow, BaseDigits, Chars, Indices, LowerText, Undotted, MagOf, Clean;
    MagPositive(x, 0);
    var d := Chars(BaseDigits(MagOf(x, 0), b));
    BaseNumeral(MagOf(x, 0), b);
    MinusText(d);
    assert [] + d == d;
  }

  lemma MinusText(t: Text)
    requires Undotted(t) == t && t != [] && t[0] != MINUS && Clean(t)
    ensures Clean([MINUS] + t) && Unminused([MINUS] + t) == t && ([MINUS] + t)[0] == MINUS
  {
    assert !IsSpace(t[|t| - 1]) && ([MINUS] + t)[|t|] == t[|t| - 1];
  }

  /**
   For every whole number in range and every base from 2 to 36: the constructor,
   given the text that `toString` writes in that base and the base, returns the
   number; only the sign of a zero is lost.
   */
  lemma BaseRoundTrip(x: Number, b: nat, g: Settings)
    requires Valid(x) && Whole(x) && InRange(x, g) && 2 <= b <= 36
    requires g.dp >= 0 && g.lo < 0 && (g.hi.AtMost? ==> g.hi.n > 0)
    ensures ReadBase(BaseText(x, b), b, g) == Some(Kept(x))
  {
    hide Val, Pow, Exact, BaseDigits, BaseText, Chars, Indices, LowerText, Undotted, Unminused, ReadText, RoundTo,
      InBase, Clamp, MagOf, Kept, InRange;
    if b == 10 {
      TenRoundTrip(x, g);
      KeptRounded(x, g);
    } else {
      WholeValue(x, g);
      BaseParts(x, b);
      BaseNumeral(MagOf(x, 0), b);
    }
  }

  lemma KeptRounded(x: Number, g: Settings)
    requires Valid(x) && Whole(x) && g.dp >= 0
    ensures Valid(Kept(x)) && RoundTo(Kept(x), g.dp, g.mode) == Kept(x)
  {
    hide Val, Pow, RoundTo;
    RoundWhole(Kept(x), g.dp, g.mode);
  }

  lemma TenRoundTrip(x: Number, g: Settings)
    requires Valid(x) && Whole(x) && InRange(x, g)
    requires g.lo < 0 && (g.hi.AtMost? ==> g.hi.n > 0)
    ensures ReadText(BaseText(x, 10), g) == Some(Kept(x))
  {
    hide Val, Pow, Exact, ReadLiteral, Spell, Spelled, Scan, BaseDigits, BaseText, Chars, Clamp, MagOf, Kept, InRange,
      Undotted, Unminused, InBase, Numeral;
    WholeValue(x, g);
    BaseParts(x, 10);
    var neg, c := x.s < 0 && !IsZero(x), BaseDigits(MagOf(x, 0), 10);
    var l := Literal(neg, c, false, [], 0, 0, []);
    PlainText(c);
    PlainValue(neg, c, g);
    NumeralSpell(l);
    assert [] + Chars(c) == Chars(c);
  }
}
