/**
 The loops of the engine that work on one digit array at a time. An array that
 JavaScript grows, shifts and overwrites is a sequence variable that the loop
 reassigns; each loop is proved against the number the array denotes.
 */
module DigitLoops {
  import opened Digits
  import opened Numbers

  /** Removes trailing zeros (json-bigint.js, the `pop` loops). */
  method PopZeros(c0: seq<int>) returns (c: seq<int>)
    ensures c == Strip(c0)
  {
    c := c0;
    while c != [] && c[|c| - 1] == 0
      invariant Strip(c) == Strip(c0)
      decreases |c|
    {
      c := c[..|c| - 1];
    }
  }

  /** Removes leading zeros, lowering the exponent by one for each (the `shift` loops). */
  method ShiftZeros(c0: seq<int>, e0: int) returns (c: seq<int>, e: int)
    ensures |c| <= |c0| && c == c0[|c0| - |c|..] && e == e0 - (|c0| - |c|)
    ensures c != [] ==> c[0] != 0
    ensures Val(c, 10) == Val(c0, 10)
    ensures c == [] ==> Val(c0, 10) == 0
  {
    c, e := c0, e0;
    while c != [] && c[0] == 0
      invariant |c| <= |c0| && c == c0[|c0| - |c|..] && e == e0 - (|c0| - |c|)
      invariant Val(c, 10) == Val(c0, 10)
      decreases |c|
    {
      LeadingZeros(1, c[1..], 10);
      assert c == Zeros(1) + c[1..];
      c, e := c[1..], e - 1;
    }
  }

  lemma AddUnit(c: seq<int>)
    requires c != []
    ensures Val(c[|c| - 1 := c[|c| - 1] + 1], 10) == Val(c, 10) + 1
  {
    ValUpdate(c, |c| - 1, c[|c| - 1] + 1, 10);
  }

  /** A ten at digit `i` is a zero there and one more to the left. */
  lemma CarryLeft(c: seq<int>, i: nat)
    requires 0 < i < |c| && c[i] == 10
    ensures Val(c[i := 0][i - 1 := c[i - 1] + 1], 10) == Val(c, 10)
  {
    ValUpdate(c, i, 0, 10);
    ValUpdate(c[i := 0], i - 1, c[i - 1] + 1, 10);
    PowStep(10, |c| - 1 - i);
  }

  lemma CarryOut(c: seq<int>)
    requires c != [] && c[0] == 10
    ensures Val([1] + c[0 := 0], 10) == Val(c, 10)
  {
    ValUpdate(c, 0, 0, 10);
    ValConcat([1], c[0 := 0], 10);
    ValOne(1, 10);
    PowStep(10, |c| - 1);
  }

  /** Adds one unit in the last place, carrying through nines; `grew` says a digit was put in front. */
  method Increment(c0: seq<int>) returns (c: seq<int>, grew: bool)
    requires c0 != [] && InBase(c0, 10) && c0[0] != 0
    ensures InBase(c, 10) && c != [] && c[0] != 0
    ensures Val(c, 10) == Val(c0, 10) + 1
    ensures |c| == |c0| + if grew then 1 else 0
  {
    hide Val, Pow;
    var i := |c0| - 1;
    AddUnit(c0);
    c, grew := c0[i := c0[i] + 1], false;
    while c[i] > 9
      invariant 0 <= i < |c| == |c0| && !grew
      invariant 0 <= c[i] <= 10 && forall j :: 0 <= j < |c| && j != i ==> 0 <= c[j] < 10
      invariant c[0] != 0
      invariant Val(c, 10) == Val(c0, 10) + 1
      decreases i
    {
      if i == 0 {
        CarryOut(c);
        c, grew := [1] + c[0 := 0], true;
        return;
      }
      CarryLeft(c, i);
      c := c[i := 0][i - 1 := c[i - 1] + 1];
      i := i - 1;
    }
  }

  /** Writing a nine over a zero in front of the last `n` digits. */
  lemma NineAt(c: seq<int>, i: nat)
    requires i < |c| && c[i] == 0
    ensures Val(c[i := 9], 10) == Val(c, 10) + Pow10(|c| - i) - Pow10(|c| - 1 - i)
  {
    ValUpdate(c, i, 9, 10);
    PowStep(10, |c| - 1 - i);
  }

  lemma TakeOne(c: seq<int>, i: nat)
    requires i < |c|
    ensures Val(c[i := c[i] - 1], 10) == Val(c, 10) - Pow10(|c| - 1 - i)
  {
    ValUpdate(c, i, c[i] - 1, 10);
  }

  lemma DropZero(c: seq<int>, i: nat)
    requires 0 < i <= |c|
    ensures Val(c[..0], 10) == 0
    ensures c[i - 1] == 0 ==> Val(c[..i], 10) == Val(c[..i - 1], 10) * 10
  {
    assert c[..i][..i - 1] == c[..i - 1];
  }

  /**
   The borrow of a subtraction in front of digit `b`: one is taken from the
   nearest nonzero digit to the left, the zeros passed over become nines.
   */
  method Borrow(c0: seq<int>, b: nat) returns (c: seq<int>)
    requires b <= |c0| && InBase(c0[..b], 10)
    requires Val(c0[..b], 10) > 0
    ensures |c| == |c0| && c[b..] == c0[b..]
    ensures InBase(c[..b], 10)
    ensures Val(c[..b], 10) == Val(c0[..b], 10) - 1
  {
    PowStep(10, 0);
    assert b > 0 by { assert c0[..0] == []; }
    hide Val, Pow;
    var h := c0[..b];
    var i := b;
    assert h[..b] == h;
    while i > 0 && h[i - 1] == 0
      invariant 0 <= i <= b == |h| && InBase(h, 10)
      invariant Val(h[..i], 10) > 0
      invariant Val(h, 10) == Val(c0[..b], 10) + Pow10(b - i) - 1
    {
      DropZero(h, i);
      i := i - 1;
      NineAt(h, i);
      assert h[i := 9][..i] == h[..i];
      h := h[i := 9];
    }
    DropZero(h, b);
    assert i > 0;
    i := i - 1;
    TakeOne(h, i);
    h := h[i := h[i] - 1];
    c := h + c0[b..];
    assert c[..b] == h;
  }

  /** Subtracts the digit `d` from digit `b`, borrowing if it does not fit. */
  method SubtractDigit(c0: seq<int>, b: nat, d: int) returns (c: seq<int>)
    requires b < |c0| && InBase(c0, 10) && 0 <= d < 10
    requires Val(c0[..b + 1], 10) >= d
    ensures |c| == |c0| && InBase(c, 10) && c[b + 1..] == c0[b + 1..]
    ensures Val(c[..b + 1], 10) == Val(c0[..b + 1], 10) - d
  {
    hide Val, Pow;
    c := c0;
    PrefixStep(c0, b);
    if c[b] < d {
      c := Borrow(c, b);
      assert c[b] == c0[b..][0] && c[b + 1..] == c0[b..][1..];
      forall j | b < j < |c| ensures c[j] == c0[j] { assert c[j] == c[b + 1..][j - b - 1]; }
      c := c[b := c[b] + 10];
      assert c[..b] == c[b := c[b] - d][..b];
    }
    c := c[b := c[b] - d];
    PrefixStep(c, b);
    forall j | 0 <= j < b ensures 0 <= c[j] < 10 { assert c[j] == c[..b][j]; }
  }

  lemma PrefixStep(c: seq<int>, b: nat)
    requires b < |c|
    ensures Val(c[..b + 1], 10) == Val(c[..b], 10) * 10 + c[b]
  {
    assert c[..b + 1][..b] == c[..b];
    ValStep(c[..b + 1], 10);
  }

  /**
   The schoolbook subtraction of `minus` and of each step of the long division:
   digits of `y` are taken from the digits of `x` above them, from the right down
   to position `a`, where only zeros of `y` are left.
   */
  method Subtract(x0: seq<int>, y: seq<int>, a: nat) returns (x: seq<int>)
    requires a <= |y| <= |x0| && InBase(x0, 10) && InBase(y, 10)
    requires forall i :: 0 <= i < a ==> y[i] == 0
    requires Val(x0[..|y|], 10) >= Val(y, 10)
    ensures |x| == |x0| && InBase(x, 10)
    ensures Val(x, 10) == Val(x0, 10) - Val(y, 10) * Pow10(|x0| - |y|)
  {
    hide Val, Pow;
    var n := |y|;
    x := x0;
    var b := n;
    assert y[..n] == y && x0[..n] == x[..b];
    Unscaled(y);
    while b > a
      invariant a <= b <= n && |x| == |x0| && InBase(x, 10) && x[n..] == x0[n..]
      invariant Val(x[..b], 10) >= Val(y[..b], 10)
      invariant Val(x[..n], 10) - Val(y[..b], 10) * Pow10(n - b) == Val(x0[..n], 10) - Val(y, 10)
      decreases b
    {
      b := b - 1;
      ghost var was := x;
      PrefixStep(y, b);
      ValNat(y[..b]);
      x := SubtractDigit(x, b, y[b]);
      PrefixStep(was, b);
      PrefixStep(x, b);
      forall j | b < j < |x| ensures x[j] == was[j] {
        assert x[j] == x[b + 1..][j - b - 1] && was[j] == was[b + 1..][j - b - 1];
      }
      assert x[n..] == was[n..];
      PrefixChange(was, x, b, n, y[b]);
      ScaledStep(Val(y[..b], 10), y[b], n - b - 1);
    }
    ValAllZero(y[..a], 10);
    ValSplit(x, n, 10);
    ValSplit(x0, n, 10);
    Distribute(Val(x[..n], 10), Val(x0[..n], 10), Val(y, 10), Pow10(|x0| - n));
  }

  lemma Unscaled(y: seq<int>)
    ensures Val(y, 10) * Pow10(0) == Val(y, 10)
  {
  }

  lemma ValNat(c: seq<int>)
    requires InBase(c, 10)
    ensures Val(c, 10) >= 0
  {
    ValBound(c, 10);
  }

  /** Digits whose last one is not 0 denote more than 0. */
  lemma PopNonzero(c: seq<int>)
    requires InBase(c, 10) && c != [] && c[|c| - 1] != 0
    ensures Val(c, 10) > 0
  {
    ValStep(c, 10);
    ValNat(c[..|c| - 1]);
  }

  /** Lowering the prefix of length b + 1 by `d` and leaving the rest lowers a longer prefix by d times the weight. */
  lemma PrefixChange(c: seq<int>, c': seq<int>, b: nat, n: nat, d: int)
    requires b < n <= |c| == |c'| && c'[b + 1..] == c[b + 1..]
    requires Val(c'[..b + 1], 10) == Val(c[..b + 1], 10) - d
    ensures Val(c'[..n], 10) == Val(c[..n], 10) - d * Pow10(n - b - 1)
  {
    ValSplit(c[..n], b + 1, 10);
    ValSplit(c'[..n], b + 1, 10);
    assert c[..n][..b + 1] == c[..b + 1] && c'[..n][..b + 1] == c'[..b + 1];
    assert c[..n][b + 1..] == c[b + 1..][..n - b - 1] && c'[..n][b + 1..] == c'[b + 1..][..n - b - 1];
    Distribute(Val(c'[..b + 1], 10), Val(c[..b + 1], 10), d, Pow10(n - b - 1));
  }

  lemma ScaledStep(v: int, d: int, n: nat)
    ensures (v * 10 + d) * Pow10(n) == v * Pow10(n + 1) + d * Pow10(n)
  {
    PowStep(10, n);
  }

  lemma DigitStep(y: seq<int>, j: nat, n: nat)
    requires j < |y|
    ensures Val(y[..j + 1], 10) * Pow10(n) == Val(y[..j], 10) * Pow10(n + 1) + y[j] * Pow10(n)
  {
    PrefixStep(y, j);
    ScaledStep(Val(y[..j], 10), y[j], n);
  }

  /** Replacing digit `j` by the last digit of its sum and carrying the rest keeps the total. */
  lemma CarryStep(c: seq<int>, j: nat, t: int, d: int, carry: int, carry': int)
    requires j < |c| && c[j] + t + carry == carry' * 10 + d
    ensures Val(c[j := d], 10) + carry' * Pow10(|c| - j) ==
            Val(c, 10) + t * Pow10(|c| - 1 - j) + carry * Pow10(|c| - 1 - j)
  {
    ValUpdate(c, j, d, 10);
    PowStep(10, |c| - 1 - j);
    CarryAlgebra(c[j], t, carry, carry', d, Pow10(|c| - 1 - j));
  }

  lemma CarryAlgebra(x: int, t: int, carry: int, carry': int, d: int, p: int)
    requires x + t + carry == carry' * 10 + d
    ensures (d - x) * p + carry' * (10 * p) == t * p + carry * p
  {
    assert (d - x) * p + carry' * (10 * p) == (d - x + carry' * 10) * p;
    assert t * p + carry * p == (t + carry) * p;
  }

  /** The schoolbook addition of `plus`: the digits of `y` are added to the digits of `x` above them. */
  method Add(x0: seq<int>, y: seq<int>) returns (x: seq<int>, carry: int)
    requires |y| <= |x0| && InBase(x0, 10) && InBase(y, 10)
    ensures |x| == |x0| && InBase(x, 10) && 0 <= carry <= 1
    ensures Val(x, 10) + carry * Pow10(|x|) == Val(x0, 10) + Val(y, 10) * Pow10(|x0| - |y|)
  {
    hide Val, Pow;
    var n, m := |y|, |x0| - |y|;
    var a := n;
    x, carry := x0, 0;
    assert y[..n] == y;
    while a > 0
      invariant 0 <= a <= n && |x| == |x0| && InBase(x, 10) && 0 <= carry <= 1
      invariant Val(x, 10) + carry * Pow10(m + n - a) + Val(y[..a], 10) * Pow10(m + n - a) ==
                Val(x0, 10) + Val(y, 10) * Pow10(m)
    {
      a := a - 1;
      var sum := x[a] + y[a] + carry;
      DigitStep(y, a, m + n - a - 1);
      CarryStep(x, a, y[a], sum % 10, carry, sum / 10);
      carry, x := sum / 10, x[a := sum % 10];
    }
    assert y[..0] == [];
    ValEmpty(10);
  }

  lemma ValEmpty(b: nat)
    ensures Val([], b) == 0
  {
  }

  /**
   One row of the multiplication: the digit `d` times `x`, added into `c` with the
   last digit landing at position |x| + i. Position `i` is still free and takes
   the final carry.
   */
  method MultiplyRow(c0: seq<int>, x: seq<int>, d: int, i: nat) returns (c: seq<int>, carry: int)
    requires InBase(c0, 10) && InBase(x, 10) && 0 <= d < 10
    requires |x| + i < |c0| && c0[i] == 0
    ensures |c| == |c0| && InBase(c, 10) && 0 <= carry <= 9
    ensures c[..i] == c0[..i] && c[i] == carry
    ensures Val(c, 10) == Val(c0, 10) + d * Val(x, 10) * Pow10(|c0| - 1 - |x| - i)
  {
    hide Val, Pow;
    c, carry := c0, 0;
    var a, m := |x|, |c0| - 1 - |x| - i;
    var j := a + i;
    assert x[..a] == x;
    while j > i
      invariant i <= j <= a + i && |c| == |c0| && InBase(c, 10) && 0 <= carry <= 9
      invariant c[..i + 1] == c0[..i + 1]
      invariant Val(c, 10) + carry * Pow10(|c0| - 1 - j) + d * Val(x[..j - i], 10) * Pow10(m + a + i - j) ==
                Val(c0, 10) + d * Val(x, 10) * Pow10(m)
      decreases j
    {
      var t := c[j] + d * x[j - i - 1] + carry;
      ProductBound(d, x[j - i - 1]);
      ScaledDigitStep(x, j - i - 1, d, m + a + i - j);
      CarryStep(c, j, d * x[j - i - 1], t % 10, carry, t / 10);
      carry, c := t / 10, c[j := t % 10];
      j := j - 1;
    }
    assert x[..0] == [];
    ValEmpty(10);
    assert c[i] == c[..i + 1][i] == 0;
    if carry != 0 {
      CarryStep(c, i, 0, carry, carry, 0);
      c := c[i := (c[i] + carry) % 10];
    }
    assert c[..i] == c0[..i + 1][..i];
  }

  lemma ProductBound(d: int, e: int)
    requires 0 <= d < 10 && 0 <= e < 10
    ensures 0 <= d * e <= 81
  {
    MulMono(0, d, e);
    MulMono(d, 9, e);
  }

  lemma ScaledDigitStep(x: seq<int>, j: nat, d: int, n: nat)
    requires j < |x|
    ensures d * Val(x[..j + 1], 10) * Pow10(n) == d * Val(x[..j], 10) * Pow10(n + 1) + d * x[j] * Pow10(n)
  {
    DigitStep(x, j, n);
    MulAssoc3(d, Val(x[..j + 1], 10), Pow10(n));
    MulAssoc3(d, Val(x[..j], 10), Pow10(n + 1));
    MulAssoc3(d, x[j], Pow10(n));
  }

  /** The nested loops of `times`: all digits of the product, and the carry of the top row. */
  method Multiply(x: seq<int>, y: seq<int>) returns (c: seq<int>, carry: int)
    requires InBase(x, 10) && InBase(y, 10) && y != []
    ensures |c| == |x| + |y| && InBase(c, 10) && c[0] == carry
    ensures Val(c, 10) == Val(x, 10) * Val(y, 10)
  {
    hide Val, Pow;
    c, carry := Zeros(|x| + |y|), 0;
    ValZeros(|c|, 10);
    var i := |y|;
    assert y[|y|..] == [];
    ValEmpty(10);
    while i > 0
      invariant 0 <= i <= |y| && |c| == |x| + |y| && InBase(c, 10)
      invariant forall k :: 0 <= k < i ==> c[k] == 0
      invariant i < |y| ==> c[i] == carry
      invariant Val(c, 10) == Val(x, 10) * Val(y[i..], 10)
    {
      i := i - 1;
      ghost var was := c;
      c, carry := MultiplyRow(c, x, y[i], i);
      forall k | 0 <= k < i ensures c[k] == 0 { assert c[k] == c[..i][k] == was[..i][k]; }
      SuffixStep(y, i);
      RowAlgebra(y[i], Val(x, 10), Val(y[i + 1..], 10), Pow10(|y| - 1 - i));
    }
    assert y[0..] == y;
  }

  lemma SuffixStep(y: seq<int>, i: nat)
    requires i < |y|
    ensures Val(y[i..], 10) == y[i] * Pow10(|y| - 1 - i) + Val(y[i + 1..], 10)
  {
    assert y[i..] == [y[i]] + y[i + 1..];
    ValConcat([y[i]], y[i + 1..], 10);
    ValOne(y[i], 10);
  }

  lemma RowAlgebra(d: int, x: int, v: int, p: int)
    ensures x * v + d * x * p == x * (d * p + v)
  {
    assert d * x * p == x * (d * p) by { MulAssoc3(d, x, p); MulAssoc3(x, d, p); }
  }
}
