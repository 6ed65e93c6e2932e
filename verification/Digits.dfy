/**
 Digit arrays, most significant digit first, and the number each one denotes.
 Everything in the big-number engine is an array of digits; every contract about
 it is in the end a statement about `Val`.
 */
module Digits {

  function Pow(b: nat, n: nat): (p: nat)
    ensures b > 0 ==> p > 0
  {
    if n == 0 then 1 else b * Pow(b, n - 1)
  }

  function Pow10(n: nat): (p: nat)
    ensures p > 0
  {
    Pow(10, n)
  }

  /** The number a digit array denotes in base `b`. */
  function Val(c: seq<int>, b: nat): int
  {
    if c == [] then 0 else Val(c[..|c| - 1], b) * b + c[|c| - 1]
  }

  predicate InBase(c: seq<int>, b: nat)
  {
    forall i :: 0 <= i < |c| ==> 0 <= c[i] < b
  }

  function Zeros(n: nat): (z: seq<int>)
    ensures |z| == n && forall i :: 0 <= i < n ==> z[i] == 0
  {
    seq(n, _ => 0)
  }

  // ----- powers

  lemma {:induction false} PowAdd(b: nat, m: nat, n: nat)
    ensures Pow(b, m + n) == Pow(b, m) * Pow(b, n)
  {
    if m == 0 {
    } else {
      PowAdd(b, m - 1, n);
      PowStep(b, m - 1 + n);
      PowStep(b, m - 1);
      hide Pow;
      MulAssoc3(b, Pow(b, m - 1), Pow(b, n));
    }
  }

  lemma MulAssoc3(x: int, y: int, z: int)
    ensures (x * y) * z == x * (y * z)
  {
  }

  lemma Swap(x: int, y: int, z: int)
    ensures x * (y * z) == y * (x * z)
  {
    MulAssoc3(x, y, z);
    MulAssoc3(y, x, z);
  }

  lemma {:induction false} PowMono(b: nat, m: nat, n: nat)
    requires b > 0 && m <= n
    ensures Pow(b, m) <= Pow(b, n)
    decreases n
  {
    if m < n {
      PowMono(b, m, n - 1);
      MulMono(1, b, Pow(b, n - 1));
    }
  }

  lemma Commute(x: int, y: int)
    ensures x * y == y * x
  {
  }

  lemma Neg(x: int, y: int)
    ensures (0 - x) * y == 0 - x * y
  {
  }

  lemma MulMono(x: int, y: int, k: nat)
    requires x <= y
    ensures x * k <= y * k
  {
  }

  lemma MulStrict(x: int, y: int, k: int)
    requires x < y && k > 0
    ensures x * k < y * k
  {
  }

  /** Cancelling a positive factor on both sides of a comparison. */
  lemma MulCancel(x: int, y: int, k: int)
    requires k > 0
    ensures x * k == y * k ==> x == y
    ensures x * k <= y * k ==> x <= y
    ensures x * k < y * k ==> x < y
  {
    if x < y {
      MulStrict(x, y, k);
    } else if y < x {
      MulStrict(y, x, k);
    }
  }

  lemma Distribute(z: int, x: int, y: int, k: int)
    requires z == x - y
    ensures z * k == x * k - y * k
  {
  }

  lemma Distribute2(x: int, y: int, k: int)
    ensures (x + y) * k == x * k + y * k
  {
  }

  // ----- values

  lemma {:induction false} ValConcat(a: seq<int>, c: seq<int>, b: nat)
    ensures Val(a + c, b) == Val(a, b) * Pow(b, |c|) + Val(c, b)
  {
    if c == [] {
      assert a + c == a;
    } else {
      var c' := c[..|c| - 1];
      assert (a + c)[..|a + c| - 1] == a + c';
      ValConcat(a, c', b);
      assert Val(a, b) * Pow(b, |c'|) * b == Val(a, b) * Pow(b, |c|) by {
        assert Pow(b, |c|) == b * Pow(b, |c'|);
        MulAssoc(Val(a, b), Pow(b, |c'|), b);
      }
    }
  }

  lemma MulAssoc(x: int, y: int, z: int)
    ensures x * y * z == x * (z * y)
  {
  }

  lemma {:induction false} ValZeros(n: nat, b: nat)
    ensures Val(Zeros(n), b) == 0
  {
    if n > 0 {
      assert Zeros(n)[..n - 1] == Zeros(n - 1);
      ValZeros(n - 1, b);
    }
  }

  /** Any array of zeros denotes zero. */
  lemma ValAllZero(c: seq<int>, b: nat)
    requires forall i :: 0 <= i < |c| ==> c[i] == 0
    ensures Val(c, b) == 0
  {
    assert c == Zeros(|c|);
    ValZeros(|c|, b);
  }

  /** Zeros in front change nothing. */
  lemma LeadingZeros(n: nat, c: seq<int>, b: nat)
    ensures Val(Zeros(n) + c, b) == Val(c, b)
  {
    ValConcat(Zeros(n), c, b);
    ValZeros(n, b);
  }

  /** Zeros behind multiply by a power of the base. */
  lemma TrailingZeros(c: seq<int>, n: nat, b: nat)
    ensures Val(c + Zeros(n), b) == Val(c, b) * Pow(b, n)
  {
    ValConcat(c, Zeros(n), b);
    ValZeros(n, b);
  }

  lemma {:induction false} ValBound(c: seq<int>, b: nat)
    requires b > 0 && InBase(c, b)
    ensures 0 <= Val(c, b) < Pow(b, |c|)
  {
    if c != [] {
      var c' := c[..|c| - 1];
      ValBound(c', b);
      CarryBound(Val(c', b), c[|c| - 1], Pow(b, |c'|), b);
    }
  }

  lemma CarryBound(v: nat, d: int, p: int, b: nat)
    requires v < p && 0 <= d < b
    ensures 0 <= v * b + d < b * p
  {
    MulMono(v + 1, p, b);
  }

  /** A nonzero leading digit bounds the value from below. */
  lemma ValLead(c: seq<int>, b: nat)
    requires b > 0 && InBase(c, b) && c != [] && c[0] != 0
    ensures Pow(b, |c| - 1) <= Val(c, b) < Pow(b, |c|)
  {
    ValBound(c, b);
    assert c == [c[0]] + c[1..];
    ValConcat([c[0]], c[1..], b);
    assert Val([c[0]], b) == c[0] by { assert [c[0]][..0] == []; }
    ValBound(c[1..], b);
    MulMono(1, c[0], Pow(b, |c| - 1));
  }

  lemma PowStep(b: nat, n: nat)
    ensures Pow(b, n + 1) == b * Pow(b, n) && Pow(b, 0) == 1
  {
  }

  lemma ValStep(c: seq<int>, b: nat)
    requires c != []
    ensures Val(c, b) == Val(c[..|c| - 1], b) * b + c[|c| - 1]
  {
  }

  lemma ValOne(d: int, b: nat)
    ensures Val([d], b) == d
  {
    assert [d][..0] == [];
  }

  /** Splitting an array at `i`. */
  lemma ValSplit(c: seq<int>, i: nat, b: nat)
    requires i <= |c|
    ensures Val(c, b) == Val(c[..i], b) * Pow(b, |c| - i) + Val(c[i..], b)
  {
    assert c == c[..i] + c[i..];
    ValConcat(c[..i], c[i..], b);
  }

  /** Changing one digit changes the value by the difference times that digit's weight. */
  lemma ValUpdate(c: seq<int>, i: nat, d: int, b: nat)
    requires i < |c|
    ensures Val(c[i := d], b) == Val(c, b) + (d - c[i]) * Pow(b, |c| - 1 - i)
  {
    var u := c[i := d];
    ValSplit(c, i + 1, b);
    ValSplit(u, i + 1, b);
    assert u[i + 1..] == c[i + 1..];
    assert u[..i + 1][..i] == c[..i + 1][..i];
    ValStep(u[..i + 1], b);
    ValStep(c[..i + 1], b);
    hide Val, Pow;
    var w := Pow(b, |c| - 1 - i);
    var p := Val(c[..i + 1][..i], b) * b;
    Distribute2(p + c[i], d - c[i], w);
  }

  /** Two digit arrays of one length, equal up to `i`, are ordered by digit `i`. */
  lemma ValOrder(x: seq<int>, y: seq<int>, i: nat, b: nat)
    requires b > 0 && InBase(x, b) && InBase(y, b)
    requires |x| == |y| && i < |x|
    requires x[..i] == y[..i] && x[i] < y[i]
    ensures Val(x, b) < Val(y, b)
  {
    ValSplit(x, i + 1, b);
    ValSplit(y, i + 1, b);
    var w := Pow(b, |x| - (i + 1));
    var u, v := Val(x[..i + 1], b), Val(y[..i + 1], b);
    assert u < v by {
      assert x[..i + 1][..i] == x[..i] && y[..i + 1][..i] == y[..i];
    }
    ValBound(x[i + 1..], b);
    ValBound(y[i + 1..], b);
    CarryLess(u, v, w, Val(x[i + 1..], b), Val(y[i + 1..], b));
  }

  lemma CarryLess(u: int, v: int, w: int, r: int, t: int)
    requires u < v && 0 <= r < w && 0 <= t
    ensures u * w + r < v * w + t
  {
    MulMono(u + 1, v, w);
  }
}
