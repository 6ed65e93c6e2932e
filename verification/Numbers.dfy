/**
 The values the big-number engine computes with, and what each one denotes.

 A number is a sign `s`, an exponent `e` and digits `c`; it denotes
 s * c[0].c[1]c[2]... * 10^e. The JavaScript objects hold null in `c` for the
 infinities and NaN and null in `s` for NaN; here null digits are the empty
 sequence, a null sign is 0 and a null exponent is 0.

 Denotations are kept in the integers: `At(x, k)` is x * 10^k, defined as soon as
 x has no more than `k` decimal places.
 */
module Numbers {
  import opened Digits

  datatype Number = Number(s: int, e: int, c: seq<int>)

  predicate NormalDigits(c: seq<int>)
  {
    && c != []
    && InBase(c, 10)
    && (c == [0] || (c[0] != 0 && c[|c| - 1] != 0))
  }

  /** The digits of a number that is not zero. */
  predicate Operand(c: seq<int>)
  {
    NormalDigits(c) && c != [0]
  }

  /** What every operation requires of its operands and re-establishes for its result. */
  predicate Valid(x: Number)
  {
    && (x.s == 1 || x.s == -1 || (x.s == 0 && x.c == []))
    && (x.c == [] ==> x.e == 0)
    && (x.c != [] ==> NormalDigits(x.c))
    && (x.c == [0] ==> x.e == 0)
  }

  predicate Finite(x: Number) { x.c != [] }
  predicate IsZero(x: Number) { x.c == [0] }
  predicate IsNaN(x: Number) { x.s == 0 }
  predicate Nonzero(x: Number) { Finite(x) && !IsZero(x) }

  const NAN := Number(0, 0, [])
  const ONE := Number(1, 0, [1])

  function Infinity(s: int): Number { Number(s, 0, []) }
  function Zero(s: int): Number { Number(s, 0, [0]) }

  function Max(i: int, j: int): int { if i >= j then i else j }
  function Abs(i: int): nat { if i < 0 then -i else i }
  function Sign(i: int): int { if i < 0 then -1 else 1 }
  function Negate(x: Number): Number { x.(s := -x.s) }

  /** How many decimal places digits `c` with exponent `e` reach; negative when they end in the tens or above. */
  function PlacesOf(c: seq<int>, e: int): int { |c| - 1 - e }
  function Places(x: Number): int { PlacesOf(x.c, x.e) }

  /** The magnitude c * 10^(e - |c| + 1), scaled by 10^k. */
  function Mag(c: seq<int>, e: int, k: int): int
    requires k >= PlacesOf(c, e)
  {
    Val(c, 10) * Pow10(k - PlacesOf(c, e))
  }

  function MagOf(x: Number, k: int): int
    requires k >= Places(x)
  {
    Mag(x.c, x.e, k)
  }

  /** The number itself, scaled by 10^k. */
  function At(x: Number, k: int): int
    requires k >= Places(x)
  {
    x.s * MagOf(x, k)
  }

  /** A scale at which two numbers are both integers. */
  function Scale(x: Number, y: Number): nat
  {
    Max(0, Max(Places(x), Places(y)))
  }

  // ----- magnitudes

  lemma MagShift(c: seq<int>, e: int, k: int, j: nat)
    requires k >= PlacesOf(c, e)
    ensures Mag(c, e, k + j) == Mag(c, e, k) * Pow10(j)
  {
    PowAdd(10, k - PlacesOf(c, e), j);
    MulAssoc(Val(c, 10), Pow10(k - PlacesOf(c, e)), Pow10(j));
  }

  lemma MagTrailing(c: seq<int>, e: int, n: nat, k: int)
    requires k >= PlacesOf(c, e) + n
    ensures Mag(c + Zeros(n), e, k) == Mag(c, e, k)
  {
    TrailingZeros(c, n, 10);
    PowAdd(10, n, k - PlacesOf(c, e) - n);
    MulAssoc(Val(c, 10), Pow10(n), Pow10(k - PlacesOf(c, e) - n));
  }

  lemma MagLeading(c: seq<int>, e: int, n: nat, k: int)
    requires k >= PlacesOf(c, e)
    ensures PlacesOf(Zeros(n) + c, e + n) == PlacesOf(c, e)
    ensures Mag(Zeros(n) + c, e + n, k) == Mag(c, e, k)
  {
    LeadingZeros(n, c, 10);
  }

  lemma MagBound(c: seq<int>, e: int, k: int)
    requires InBase(c, 10) && c != [] && c[0] != 0 && k >= PlacesOf(c, e)
    ensures e + k >= 0
    ensures Pow10(e + k) <= Mag(c, e, k) < Pow10(e + k + 1)
  {
    ValLead(c, 10);
    var j := k - PlacesOf(c, e);
    PowAdd(10, |c| - 1, j);
    PowAdd(10, |c|, j);
    MulMono(Pow10(|c| - 1), Val(c, 10), Pow10(j));
    MulStrict(Val(c, 10), Pow10(|c|), Pow10(j));
  }

  lemma ValPositive(c: seq<int>)
    requires NormalDigits(c) && c != [0]
    ensures Val(c, 10) > 0
  {
    ValLead(c, 10);
  }

  lemma MagPositive(x: Number, k: int)
    requires Valid(x) && Finite(x) && k >= Places(x)
    ensures MagOf(x, k) >= 0 && (MagOf(x, k) == 0 <==> IsZero(x))
  {
    if IsZero(x) {
      ValOne(0, 10);
    } else {
      MagBound(x.c, x.e, k);
    }
  }

  // ----- the normal form of a scaled integer

  /** The decimal digits of `n`, without leading zeros; none for zero. */
  function DigitsOf(n: nat, b: nat := 10): (d: seq<int>)
    requires b >= 2
    ensures InBase(d, b)
    ensures Val(d, b) == n
    ensures n > 0 ==> d != [] && d[0] != 0
  {
    if n == 0 then []
    else
      DivDown(n, b);
      var q := DigitsOf(n / b, b);
      assert (q + [n % b])[..|q|] == q;
      q + [n % b]
  }

  lemma DivDown(n: nat, b: nat)
    requires n > 0 && b >= 2
    ensures 0 <= n / b < n && 0 <= n % b < b
    ensures n == n / b * b + n % b
    ensures n / b == 0 ==> n % b == n
  {
    if n / b >= n {
      MulMono(n, n / b, b);
    }
  }

  function Strip(c: seq<int>): (d: seq<int>)
    ensures d <= c
    ensures forall i :: |d| <= i < |c| ==> c[i] == 0
    ensures d != [] ==> d[|d| - 1] != 0
  {
    if c != [] && c[|c| - 1] == 0 then Strip(c[..|c| - 1]) else c
  }

  /** The number in normal form whose sign is `s` and whose magnitude is n * 10^-k. */
  function Exact(s: int, n: nat, k: int): Number
  {
    if n == 0 then Zero(s)
    else Number(s, |DigitsOf(n)| - 1 - k, Strip(DigitsOf(n)))
  }

  lemma StripValue(c: seq<int>, e: int, k: int)
    requires k >= PlacesOf(c, e)
    ensures k >= PlacesOf(Strip(c), e)
    ensures Mag(Strip(c), e, k) == Mag(c, e, k)
  {
    var d := Strip(c);
    assert c == d + Zeros(|c| - |d|);
    MagTrailing(d, e, |c| - |d|, k);
  }

  lemma StripNonempty(c: seq<int>)
    requires Val(c, 10) != 0
    ensures Strip(c) != []
  {
    if forall i :: 0 <= i < |c| ==> c[i] == 0 {
      ValAllZero(c, 10);
    }
  }

  /** `Exact` is what it says: valid, and of the magnitude asked for. */
  lemma ExactMeaning(s: int, n: nat, k: int)
    requires s == 1 || s == -1
    requires n > 0 || k >= 0
    ensures Valid(Exact(s, n, k)) && Finite(Exact(s, n, k))
    ensures IsZero(Exact(s, n, k)) <==> n == 0
    ensures k >= Places(Exact(s, n, k)) && MagOf(Exact(s, n, k), k) == n
    ensures Exact(s, n, k).s == s && At(Exact(s, n, k), k) == s * n
  {
    if n == 0 {
      ValOne(0, 10);
    } else {
      var d := DigitsOf(n);
      StripValue(d, |d| - 1 - k, k);
      StripNonempty(d);
      assert Strip(d)[0] == d[0];
    }
  }

  lemma {:induction false} DigitsUnique(c: seq<int>, b: nat)
    requires b >= 2 && InBase(c, b) && (c == [] || c[0] != 0)
    ensures Val(c, b) >= 0 && DigitsOf(Val(c, b), b) == c
  {
    if c != [] {
      var c', d := c[..|c| - 1], c[|c| - 1];
      DigitsUnique(c', b);
      ValLead(c, b);
      DivModUnique(Val(c', b), b, d);
      assert c == c' + [d];
    }
  }

  lemma DivModUnique(q: int, b: int, r: int)
    requires 0 <= r < b
    ensures (q * b + r) / b == q && (q * b + r) % b == r
  {
    var n := q * b + r;
    assert (n / b) * b + n % b == n;
    assert (n / b - q) * b == r - n % b;
    if n / b > q {
      MulMono(1, n / b - q, b);
    } else if n / b < q {
      MulMono(n / b - q, -1, b);
    }
  }

  lemma {:induction false} StripTrailing(c: seq<int>, n: nat)
    requires c != [] ==> c[|c| - 1] != 0
    ensures Strip(c + Zeros(n)) == c
  {
    if n == 0 {
      assert c + Zeros(n) == c;
    } else {
      assert (c + Zeros(n))[..|c| + n - 1] == c + Zeros(n - 1);
      StripTrailing(c, n - 1);
    }
  }

  /**
   Normal forms are unique: digits whose first and last are nonzero and whose
   magnitude is n * 10^-k are the digits of `Exact`.
   */
  lemma ExactUnique(s: int, c: seq<int>, e: int, n: nat, k: int)
    requires NormalDigits(c) && c != [0]
    requires k >= PlacesOf(c, e) && Mag(c, e, k) == n
    ensures Exact(s, n, k) == Number(s, e, c)
  {
    hide Val, Pow, DigitsOf, Strip;
    MagBound(c, e, k);
    var j := k - PlacesOf(c, e);
    TrailingZeros(c, j, 10);
    StripTrailing(c, j);
    DigitsAre(c + Zeros(j), n);
  }

  lemma DigitsAre(c: seq<int>, n: nat)
    requires InBase(c, 10) && (c == [] || c[0] != 0) && Val(c, 10) == n
    ensures DigitsOf(n) == c
  {
    DigitsUnique(c, 10);
  }

  /** Every finite number is the normal form of its own value, at every scale that fits it. */
  lemma ExactOf(x: Number, k: int)
    requires Valid(x) && Finite(x) && k >= Places(x)
    ensures MagOf(x, k) >= 0 && Exact(x.s, MagOf(x, k), k) == x
  {
    MagPositive(x, k);
    if !IsZero(x) {
      ExactUnique(x.s, x.c, x.e, MagOf(x, k), k);
    }
  }

  /** Scaling the integer and the scale together does not change the number. */
  lemma ExactScale(s: int, n: nat, k: int, j: nat)
    requires s == 1 || s == -1
    requires n > 0 || k >= 0
    ensures n * Pow10(j) >= 0
    ensures Exact(s, n * Pow10(j), k + j) == Exact(s, n, k)
  {
    ExactMeaning(s, n, k);
    var x := Exact(s, n, k);
    MagShift(x.c, x.e, k, j);
    ExactOf(x, k + j);
  }

  lemma AtShift(x: Number, k: int, j: nat)
    requires k >= Places(x)
    ensures At(x, k + j) == At(x, k) * Pow10(j)
  {
    MagShift(x.c, x.e, k, j);
    MulAssoc3(x.s, MagOf(x, k), Pow10(j));
  }

  /** Two finite numbers equal at one scale are equal at every scale, and identical unless both are zero. */
  lemma SameValue(x: Number, y: Number, k: int)
    requires Valid(x) && Valid(y) && Finite(x) && Finite(y)
    requires k >= Places(x) && k >= Places(y)
    ensures At(x, k) == At(y, k) <==> x == y || (IsZero(x) && IsZero(y))
  {
    hide Val, Pow, Mag, InBase, Exact;
    MagPositive(x, k);
    MagPositive(y, k);
    SignedMagnitudes(x.s, MagOf(x, k), y.s, MagOf(y, k));
    if At(x, k) == At(y, k) && !IsZero(x) {
      ExactOf(x, k);
      ExactOf(y, k);
    }
  }

  lemma SignedMagnitudes(s: int, m: nat, t: int, n: nat)
    requires (s == 1 || s == -1) && (t == 1 || t == -1)
    ensures s * m == t * n <==> m == n && (s == t || m == 0)
  {
  }

  lemma ExactZero(s: int, k: int)
    ensures Exact(s, 0, k) == Zero(s)
  {
  }

  lemma ExactOne(s: int, dp: int)
    ensures Exact(s, 1, dp) == Number(s, -dp, [1])
  {
    ValOne(1, 10);
    DigitsUnique([1], 10);
    StripTrailing([1], 0);
    assert [1] + Zeros(0) == [1];
  }
}
