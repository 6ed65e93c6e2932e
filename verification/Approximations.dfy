/**
 Approximating a fraction X / Y by fractions with denominators up to a limit: the
 convergents of its continued fraction, on integers.
 */
module Approximations {
  import opened Digits
  import opened Numbers
  import opened Rounding
  import opened Naturals

  // ----- the convergents, as integers

  /**
   The number X / Y is (n1 * N + n0 * D) / (d1 * N + d0 * D), where N / D is what is
   left of it, and the last two convergents n1 / d1 and n0 / d0 are as close as two
   different fractions with their denominators can be.
   */
  ghost predicate Convergents(X: int, Y: int, N: int, D: int, n0: int, n1: int, d0: int, d1: int)
  {
    && N >= 0 && D >= 0 && n0 >= 0 && n1 >= 0 && d0 >= 0 && d1 >= 0
    && X == n1 * N + n0 * D
    && Y == d1 * N + d0 * D
    && (n1 * d0 - n0 * d1 == 1 || n1 * d0 - n0 * d1 == -1)
  }

  lemma NextConvergent(X: int, Y: int, N: int, D: int, n0: int, n1: int, d0: int, d1: int, q: int)
    requires Convergents(X, Y, N, D, n0, n1, d0, d1) && D > 0 && q == N / D
    ensures q >= 0 && 0 <= q * D <= N && 0 <= N - q * D < D
    ensures Convergents(X, Y, D, N - q * D, n1, n0 + q * n1, d1, d0 + q * d1)
  {
    DivLaw(N, D);
    var r := N - q * D;
    Linear(n0, n1, q, N, D, r);
    Linear(d0, d1, q, N, D, r);
    Determinant(n0, n1, d0, d1, q);
    MulMono(0, q, n1);
    MulMono(0, q, d1);
    MulMono(0, q, D);
  }

  lemma Linear(a: int, b: int, q: int, N: int, D: int, r: int)
    requires N == q * D + r
    ensures (a + q * b) * D + b * r == b * N + a * D
  {
    assert (a + q * b) * D == a * D + q * b * D;
    assert b * N == b * (q * D) + b * r;
    assert q * b * D == b * (q * D) by {
      MulAssoc3(q, b, D);
      MulAssoc3(b, q, D);
      Swap(q, b, D);
    }
  }

  lemma Determinant(n0: int, n1: int, d0: int, d1: int, q: int)
    ensures (n0 + q * n1) * d1 - n1 * (d0 + q * d1) == -(n1 * d0 - n0 * d1)
  {
    assert (n0 + q * n1) * d1 == n0 * d1 + q * n1 * d1;
    assert n1 * (d0 + q * d1) == n1 * d0 + n1 * (q * d1);
    MulAssoc3(q, n1, d1);
    Swap(q, n1, d1);
  }

  /** As long as something is left the next denominator does not exceed Y. */
  lemma DenominatorBound(X: int, Y: int, N: int, D: int, n0: int, n1: int, d0: int, d1: int, q: int)
    requires Convergents(X, Y, N, D, n0, n1, d0, d1) && D > 0 && q == N / D
    ensures d0 + q * d1 <= Y
  {
    NextConvergent(X, Y, N, D, n0, n1, d0, d1, q);
    var d := d0 + q * d1;
    MulMono(1, D, d);
    assert d * D == D * d;
    MulMono(0, d1, N - q * D);
  }

  // ----- the best of the fractions between two convergents

  /** Taking the next-to-last convergent as far as the bound allows. */
  lemma LastStep(n0: int, n1: int, d0: int, d1: int, m: int, j: int)
    requires n0 >= 0 && n1 >= 0 && 0 <= d0 <= m && 1 <= d1 <= m && j == (m - d0) / d1
    requires n1 * d0 - n0 * d1 == 1 || n1 * d0 - n0 * d1 == -1
    ensures j >= 0 && j * n1 >= 0 && j * d1 >= 0
    ensures 1 <= d0 + j * d1 <= m
    ensures var p, q := n0 + j * n1, d0 + j * d1; n1 * q - p * d1 == n1 * d0 - n0 * d1
  {
    DivLaw(m - d0, d1);
    MulMono(0, j, n1);
    MulMono(0, j, d1);
    assert n1 * (d0 + j * d1) == n1 * d0 + n1 * (j * d1);
    assert (n0 + j * n1) * d1 == n0 * d1 + j * n1 * d1;
    MulAssoc3(j, n1, d1);
    Swap(j, n1, d1);
  }

  /**
   The loop stopped at these convergents: nothing is left of X / Y, or the next
   denominator would exceed `m`.
   */
  ghost predicate Stopped(X: int, Y: int, m: int, n0: int, n1: int, d0: int, d1: int)
  {
    exists N, D :: Convergents(X, Y, N, D, n0, n1, d0, d1) && (D == 0 || d0 + (N / D) * d1 > m)
  }

  /** The fraction i / k lies on the way from p / q to X / Y, which counts, unlike p / q. */
  ghost predicate OnTheWay(X: int, Y: int, p: int, q: int, i: int, k: int)
  {
    (p * k < i * q && i * Y <= X * k) || (i * q < p * k && X * k <= i * Y)
  }

  /** No fraction with a denominator up to `m` is nearer to X / Y than p / q on its side. */
  ghost predicate Nearest(X: int, Y: int, p: int, q: int, m: int)
  {
    forall i, k :: 1 <= k <= m ==> !OnTheWay(X, Y, p, q, i, k)
  }

  /** In particular p / q is X / Y itself if any such fraction is. */
  lemma NearestExact(X: int, Y: int, p: int, q: int, m: int, i: int, k: int)
    requires Nearest(X, Y, p, q, m) && 1 <= k <= m && i * Y == X * k
    ensures p * Y == X * q
  {
    assert !OnTheWay(X, Y, p, q, i, k);
    assert p * k == i * q;
    assert p * Y * k == X * q * k by {
      MulAssoc3(p, Y, k);
      Swap(p, Y, k);
      Swap(Y, i, q);
      MulAssoc3(i, Y, q);
      MulAssoc3(X, k, q);
      MulAssoc3(X, q, k);
    }
    MulCancel(p * Y, X * q, k);
  }

  /** a / b < c / d <= e / f. */
  lemma Transit(a: int, b: int, c: int, d: int, e: int, f: int)
    requires b > 0 && d > 0 && f > 0 && a * d < c * b && c * f <= e * d
    ensures a * f < e * b
  {
    MulStrict(a * d, c * b, f);
    MulMono(c * f, e * d, b);
    assert a * f * d < e * b * d by {
      MulAssoc3(a, d, f); MulAssoc3(a, f, d);
      MulAssoc3(c, b, f); MulAssoc3(c, f, b);
      MulAssoc3(e, d, b); MulAssoc3(e, b, d);
    }
    MulCancel(a * f, e * b, d);
  }

  /** Between neighbouring fractions lie only fractions whose denominators are at least the sum of theirs. */
  lemma NoneBetween(p: int, q: int, o: int, r: int, i: int, k: int)
    requires q > 0 && r > 0 && p * r - o * q == 1 && o * k < i * r && i * q < p * k
    ensures k >= q + r
  {
    MulMono(1, p * k - i * q, r);
    MulMono(1, i * r - o * k, q);
    assert (p * k - i * q) * r + (i * r - o * k) * q == (p * r - o * q) * k by {
      MulAssoc3(p, k, r); MulAssoc3(p, r, k);
      MulAssoc3(i, q, r); MulAssoc3(i, r, q);
      MulAssoc3(o, k, q); MulAssoc3(o, q, k);
      Distribute(p * k - i * q, p * k, i * q, r);
      Distribute(i * r - o * k, i * r, o * k, q);
      Distribute(p * r - o * q, p * r, o * q, k);
    }
  }

  /** Of two neighbouring fractions with X / Y between them, the upper one is the nearest from above. */
  lemma UpperNearest(X: int, Y: int, p: int, q: int, o: int, r: int, m: int)
    requires Y > 0 && q > 0 && r > 0 && q + r > m && p * r - o * q == 1
    requires X * q < p * Y && o * Y < X * r
    ensures Nearest(X, Y, p, q, m)
  {
    forall i, k | 1 <= k <= m ensures !OnTheWay(X, Y, p, q, i, k) {
      if p * k < i * q && i * Y <= X * k {
        Transit(p, q, i, k, X, Y);
      } else if i * q < p * k && X * k <= i * Y {
        Transit(o, r, X, Y, i, k);
        NoneBetween(p, q, o, r, i, k);
      }
    }
  }

  lemma Mirror(X: int, Y: int, p: int, q: int, m: int)
    requires Nearest(0 - X, Y, 0 - p, q, m)
    ensures Nearest(X, Y, p, q, m)
  {
    forall i, k | 1 <= k <= m ensures !OnTheWay(X, Y, p, q, i, k) {
      assert !OnTheWay(0 - X, Y, 0 - p, q, 0 - i, k);
      Neg(p, k); Neg(i, q); Neg(i, Y); Neg(X, k);
    }
  }

  /** And the lower one from below. */
  lemma NeighboursNearest(X: int, Y: int, p: int, q: int, o: int, r: int, m: int)
    requires Y > 0 && q > 0 && r > 0 && q + r > m
    requires if p * r - o * q == 1 then X * q < p * Y && o * Y < X * r
             else p * r - o * q == -1 && X * q > p * Y && o * Y > X * r
    ensures Nearest(X, Y, p, q, m)
  {
    if p * r - o * q == 1 {
      UpperNearest(X, Y, p, q, o, r, m);
    } else {
      Neg(p, r); Neg(o, q); Neg(X, q); Neg(p, Y); Neg(o, Y); Neg(X, r);
      UpperNearest(0 - X, Y, 0 - p, q, 0 - o, r, m);
      Mirror(X, Y, p, q, m);
    }
  }

  lemma ExactNearest(X: int, Y: int, p: int, q: int, m: int)
    requires Y > 0 && q > 0 && p * Y == q * X
    ensures Nearest(X, Y, p, q, m)
  {
    forall i, k | 1 <= k <= m ensures !OnTheWay(X, Y, p, q, i, k) {
      if p * k < i * q && i * Y <= X * k {
        Transit(p, q, i, k, X, Y);
      } else if i * q < p * k && X * k <= i * Y {
        Transit(X, Y, i, k, p, q);
      }
    }
  }

  /** Where the loop stops, X / Y is the last convergent or lies strictly between the two candidates. */
  lemma CandidatesAround(X: int, Y: int, m: int, n0: int, n1: int, d0: int, d1: int, j: int)
    requires Y > 0 && Stopped(X, Y, m, n0, n1, d0, d1) && 0 <= d0 <= m && 1 <= d1 <= m && j == (m - d0) / d1
    ensures d0 + j * d1 + d1 > m
    ensures var e, p, q := n1 * d0 - n0 * d1, n0 + j * n1, d0 + j * d1;
            || n1 * Y == d1 * X
            || (e == 1 && X * d1 < n1 * Y && p * Y < X * q)
            || (e == -1 && X * d1 > n1 * Y && p * Y > X * q)
  {
    var N, D :| Convergents(X, Y, N, D, n0, n1, d0, d1) && (D == 0 || d0 + (N / D) * d1 > m);
    DivLaw(m - d0, d1);
    if D == 0 {
      Proportion(n1, d1, N, X, Y);
    } else {
      var w := N / D;
      DivLaw(N, D);
      MulCancel(j, w, d1);
      MulMono(j + 1, w, D);
      Distribute2(j, 1, D);
      Cross(n0, n1, d0, d1, N, D);
      CrossStep(n0, n1, d0, d1, X, Y, j);
      SignTimes(n1 * d0 - n0 * d1, D, N, j);
    }
  }

  /** How far the convergents are from X / Y. */
  lemma Cross(n0: int, n1: int, d0: int, d1: int, N: int, D: int)
    ensures var X, Y, e := n1 * N + n0 * D, d1 * N + d0 * D, n1 * d0 - n0 * d1;
            n1 * Y - d1 * X == e * D && n0 * Y - d0 * X == 0 - e * N
  {
    assert n1 * (d1 * N + d0 * D) == n1 * (d1 * N) + n1 * (d0 * D);
    assert d1 * (n1 * N + n0 * D) == d1 * (n1 * N) + d1 * (n0 * D);
    assert n0 * (d1 * N + d0 * D) == n0 * (d1 * N) + n0 * (d0 * D);
    assert d0 * (n1 * N + n0 * D) == d0 * (n1 * N) + d0 * (n0 * D);
    Swap(n1, d1, N); Swap(n0, d0, D);
    MulAssoc3(n1, d0, D); MulAssoc3(d1, n0, D); MulAssoc3(n0, d1, N); MulAssoc3(d0, n1, N);
    Distribute(n1 * d0 - n0 * d1, n1 * d0, n0 * d1, D);
    Distribute(n1 * d0 - n0 * d1, n1 * d0, n0 * d1, N);
  }

  lemma CrossStep(n0: int, n1: int, d0: int, d1: int, X: int, Y: int, j: int)
    ensures (n0 + j * n1) * Y - (d0 + j * d1) * X == (n0 * Y - d0 * X) + j * (n1 * Y - d1 * X)
  {
    Distribute2(n0, j * n1, Y);
    Distribute2(d0, j * d1, X);
    MulAssoc3(j, n1, Y);
    MulAssoc3(j, d1, X);
    assert j * (n1 * Y - d1 * X) == j * (n1 * Y) - j * (d1 * X);
  }

  lemma SignTimes(e: int, D: int, N: int, j: int)
    requires e == 1 || e == -1
    ensures e * D == (if e == 1 then D else 0 - D) && e * N == (if e == 1 then N else 0 - N)
    ensures j * (e * D) == if e == 1 then j * D else 0 - j * D
  {
    if e == -1 { assert j * (0 - D) == 0 - j * D; }
  }

  lemma Proportion(a: int, b: int, n: int, X: int, Y: int)
    requires X == a * n && Y == b * n
    ensures a * Y == b * X
  {
    Swap(a, b, n);
  }

  // ----- the expansion

  /**
   The last two convergents whose denominators the limit allows, as numerators and
   then denominators: N / D is what is left of the number, a1 / b1 and a0 / b0 are
   the convergents so far.
   */
  function Expansion(m: nat, N: nat, D: nat, a0: nat, a1: nat, b0: nat, b1: nat): (nat, nat, nat, nat)
    decreases D
  {
    if D == 0 then (a0, a1, b0, b1)
    else
      var w := N / D;
      MulMono(0, w, a1);
      MulMono(0, w, b1);
      if b0 + w * b1 > m then (a0, a1, b0, b1)
      else Expansion(m, D, N % D, a1, a0 + w * a1, b1, b0 + w * b1)
  }

  lemma ExpansionStep(m: nat, N: nat, D: nat, a0: nat, a1: nat, b0: nat, b1: nat)
    requires D > 0
    ensures var w := N / D;
            && w * a1 >= 0 && w * b1 >= 0 && N % D == N - w * D
            && Expansion(m, N, D, a0, a1, b0, b1) ==
               if b0 + w * b1 > m then (a0, a1, b0, b1)
               else Expansion(m, D, N % D, a1, a0 + w * a1, b1, b0 + w * b1)
  {
    MulMono(0, N / D, a1);
    MulMono(0, N / D, b1);
    DivLaw(N, D);
  }

  lemma ExpansionEnd(m: nat, N: nat, a0: nat, a1: nat, b0: nat, b1: nat)
    ensures Expansion(m, N, 0, a0, a1, b0, b1) == (a0, a1, b0, b1)
  {
  }

  /**
   The two candidates for an approximation of X / Y: the last convergent n1 / d1, and
   the one before it taken as far as the limit allows, n0 / d0.
   */
  function Candidates(X: nat, Y: nat, m: nat): (nat, nat, nat, nat)
  {
    var (a0, a1, b0, b1) := Expansion(m, X, Y, 0, 1, 1, 0);
    if b0 <= m && b1 > 0 then
      var j := (m - b0) / b1;
      MulMono(0, j, a1);
      MulMono(0, j, b1);
      (a1, b1, a0 + j * a1, b0 + j * b1)
    else (a1, b1, a0, b0)
  }

  /** What the expansion starts with, or what it has after each step. */
  ghost predicate Expanding(X: nat, Y: nat, m: nat, N: nat, D: nat, a0: nat, a1: nat, b0: nat, b1: nat)
  {
    && Convergents(X, Y, N, D, a0, a1, b0, b1) && b0 <= m && b1 <= m
    && (if b1 == 0 then D > 0 && b0 == 1 else N > D)
  }

  lemma {:induction false} ExpansionMeaning(X: nat, Y: nat, m: nat, N: nat, D: nat, a0: nat, a1: nat, b0: nat, b1: nat)
    requires m >= 1 && Expanding(X, Y, m, N, D, a0, a1, b0, b1)
    ensures var (c0, c1, e0, e1) := Expansion(m, N, D, a0, a1, b0, b1);
            Stopped(X, Y, m, c0, c1, e0, e1) && e0 <= m && 1 <= e1 <= m
    decreases D
  {
    hide Stopped, Convergents;
    if D == 0 {
      StoppedIf(X, Y, m, N, D, a0, a1, b0, b1);
    } else {
      var w := N / D;
      MulMono(0, w, a1);
      MulMono(0, w, b1);
      if b0 + w * b1 > m {
        StoppedIf(X, Y, m, N, D, a0, a1, b0, b1);
        MulZero(w, b1);
      } else {
        NextConvergent(X, Y, N, D, a0, a1, b0, b1, w);
        DivLaw(N, D);
        if b1 > 0 { MulMono(1, w, b1); } else { MulZero(w, b1); }
        ExpansionMeaning(X, Y, m, D, N % D, a1, a0 + w * a1, b1, b0 + w * b1);
      }
    }
  }

  lemma MulZero(w: int, b: int)
    ensures b == 0 ==> w * b == 0
  {
  }

  lemma StoppedIf(X: int, Y: int, m: int, N: int, D: int, n0: int, n1: int, d0: int, d1: int)
    requires Convergents(X, Y, N, D, n0, n1, d0, d1) && (D == 0 || d0 + (N / D) * d1 > m)
    ensures Stopped(X, Y, m, n0, n1, d0, d1)
  {
  }

  /** The fraction X / Y lies strictly between p / q and o / r. */
  ghost predicate Between(X: int, Y: int, p: int, q: int, o: int, r: int)
  {
    if p * r - o * q == 1 then X * q < p * Y && o * Y < X * r
    else p * r - o * q == -1 && X * q > p * Y && o * Y > X * r
  }

  /**
   The candidates are neighbours: no fraction within the limit lies between them. The
   number is the last convergent, or strictly between them, and then each of them is
   the nearest on its side that the limit allows.
   */
  lemma CandidatesMeaning(X: nat, Y: nat, m: nat)
    requires Y > 0 && m >= 1
    ensures var (n1, d1, n0, d0) := Candidates(X, Y, m);
            && 1 <= d1 <= m && 1 <= d0 <= m && d1 + d0 > m
            && (n1 * d0 - n0 * d1 == 1 || n1 * d0 - n0 * d1 == -1)
            && Coprime(n1, d1) && Coprime(n0, d0)
            && Nearest(X, Y, n1, d1, m)
            && (n1 * Y == d1 * X || (Between(X, Y, n1, d1, n0, d0) && Nearest(X, Y, n0, d0, m)))
  {
    hide Nearest, Stopped, Coprime, Expansion;
    assert Expanding(X, Y, m, X, Y, 0, 1, 1, 0);
    ExpansionMeaning(X, Y, m, X, Y, 0, 1, 1, 0);
    var (a0, a1, b0, b1) := Expansion(m, X, Y, 0, 1, 1, 0);
    var j := (m - b0) / b1;
    var p, q := a0 + j * a1, b0 + j * b1;
    StoppedNeighbours(X, Y, m, a0, a1, b0, b1);
    LastStep(a0, a1, b0, b1, m, j);
    DeterminantCoprime(a1, b1, a0, b0);
    DeterminantCoprime(p, q, a1, b1);
    CandidatesAround(X, Y, m, a0, a1, b0, b1, j);
    if a1 * Y == b1 * X {
      ExactNearest(X, Y, a1, b1, m);
    } else {
      Commute(b1, X);
      NeighboursNearest(X, Y, a1, b1, p, q, m);
      NeighboursNearest(X, Y, p, q, a1, b1, m);
    }
  }

  lemma StoppedNeighbours(X: int, Y: int, m: int, n0: int, n1: int, d0: int, d1: int)
    requires Stopped(X, Y, m, n0, n1, d0, d1)
    ensures n1 * d0 - n0 * d1 == 1 || n1 * d0 - n0 * d1 == -1
    ensures n0 >= 0 && n1 >= 0
  {
  }

  // ----- which candidate is nearer, and what rounding leaves of that

  /** How far p / q is from X / Y, times q * Y. */
  function Error(X: int, Y: int, p: int, q: int): nat
  {
    Abs(p * Y - X * q)
  }

  /** The fraction p / q is nearer to X / Y than o / r is, or as near. */
  ghost predicate NoFarther(X: int, Y: int, p: int, q: int, o: int, r: int)
  {
    Error(X, Y, p, q) * r <= Error(X, Y, o, r) * q
  }

  /** The fraction p / q rounded to units of 1 / Y^2, in these units. */
  function InUnits(mode: Mode, neg: bool, Y: nat, p: nat, q: nat): nat
    requires q > 0
  {
    MulMono(0, Y, Y);
    MulMono(0, p, Y * Y);
    RoundMag(mode, neg, p * (Y * Y), q)
  }

  /** The distance of p / q, so rounded, from X / Y. */
  function RoundedError(mode: Mode, neg: bool, X: int, Y: nat, p: nat, q: nat): nat
    requires q > 0
  {
    Abs(InUnits(mode, neg, Y, p, q) - X * Y)
  }

  /** A candidate for a number of at least 1 / W is zero or at least 1 / W. */
  lemma NotTooSmall(X: int, Y: int, p: nat, q: nat, m: nat, W: nat)
    requires Nearest(X, Y, p, q, m) && 1 <= q <= m && W > 0 && Y <= X * W
    ensures p == 0 || q <= p * W
  {
    assert W <= m ==> !OnTheWay(X, Y, p, q, 1, W);
    MulCancel(p, 1, W);
  }

  /** Nothing lies strictly between two fractions and is zero. */
  lemma BetweenPositive(X: nat, Y: nat, p: nat, q: nat, o: nat, r: nat)
    requires Between(X, Y, p, q, o, r)
    ensures X > 0
  {
    if X == 0 {
      MulMono(0, p, Y);
      MulMono(0, o, Y);
      MulZero(q, X);
      MulZero(r, X);
      Commute(q, X);
      Commute(r, X);
    }
  }

  /** Rounding does not get past whole units. */
  lemma RoundBetween(mode: Mode, neg: bool, num: nat, den: nat, lo: int, hi: int)
    requires den > 0 && lo * den <= num <= hi * den
    ensures lo <= RoundMag(mode, neg, num, den) <= hi
  {
    hide Bump;
    DivLaw(num, den);
    var q, r := num / den, num % den;
    MulCancel(lo, q + 1, den);
    Distribute2(q, 1, den);
    MulCancel(q, hi, den);
    if q == hi {
      assert r == 0;
      NoBump(mode, neg, q, den);
    }
  }

  lemma NoBump(mode: Mode, neg: bool, q: nat, den: nat)
    requires den > 0
    ensures !Bump(mode, neg, q, 0, den)
  {
  }

  /** The errors A / (q * Y) above and B / (r * Y) below add up to the distance 1 / (q * r) of the neighbours. */
  lemma Shares(X: int, Y: int, p: int, q: int, o: int, r: int, A: int, B: int)
    requires p * r - o * q == 1 && A == p * Y - X * q && B == X * r - o * Y
    ensures A * r + B * q == Y
  {
    Distribute(A, p * Y, X * q, r);
    Distribute(B, X * r, o * Y, q);
    Distribute(1, p * r, o * q, Y);
    MulAssoc3(p, Y, r); MulAssoc3(p, r, Y); Commute(Y, r);
    MulAssoc3(X, q, r); MulAssoc3(X, r, q); Commute(q, r);
    MulAssoc3(o, Y, q); MulAssoc3(o, q, Y); Commute(Y, q);
  }

  /** The smaller error weighs at most twice the product of both, the larger one at least as much. */
  lemma Weights(A: int, B: int, q: int, r: int, Y: int)
    requires A >= 0 && B >= 0 && Y == A * r + B * q && A * r <= B * q
    ensures A * Y <= 2 * (A * B) * q && 2 * (A * B) * r <= B * Y
  {
    MulMono(A * r, B * q, A);
    MulMono(A * r, B * q, B);
    Distribute2(A * r, B * q, A);
    Distribute2(A * r, B * q, B);
    Commute(A, Y); Commute(B, Y);
    assert (B * q) * A == (A * B) * q by { Commute(B * q, A); MulAssoc3(A, B, q); }
    assert (A * r) * B == (A * B) * r by { Commute(A * r, B); MulAssoc3(B, A, r); Commute(A, B); }
    MulAssoc3(2, A * B, q); MulAssoc3(2, A * B, r);
  }

  /** p / q in units of 1 / Y^2, with the error A. */
  lemma UnitsAndError(X: int, Y: int, p: int, q: int, A: int)
    requires A == p * Y - X * q
    ensures p * (Y * Y) == X * Y * q + A * Y
  {
    Distribute(A, p * Y, X * q, Y);
    MulAssoc3(p, Y, Y);
    MulAssoc3(X, q, Y); MulAssoc3(X, Y, q); Commute(q, Y);
  }

  /** Of a candidate p / q above X / Y and a candidate o / r below it, the nearer is not the farther after rounding. */
  lemma SideOrder(mode: Mode, neg: bool, X: nat, Y: nat, p: nat, q: nat, o: nat, r: nat)
    requires Y > 0 && q > 0 && r > 0 && p * r - o * q == 1 && X * q < p * Y && o * Y < X * r
    ensures NoFarther(X, Y, p, q, o, r) ==> RoundedError(mode, neg, X, Y, p, q) <= RoundedError(mode, neg, X, Y, o, r)
    ensures NoFarther(X, Y, o, r, p, q) ==> RoundedError(mode, neg, X, Y, o, r) <= RoundedError(mode, neg, X, Y, p, q)
  {
    hide RoundMag;
    var A, B, U, Z := p * Y - X * q, X * r - o * Y, Y * Y, X * Y;
    var t := 2 * (A * B);
    Shares(X, Y, p, q, o, r, A, B);
    UnitsAndError(X, Y, p, q, A);
    UnitsAndError(X, Y, o, r, 0 - B);
    Neg(B, Y);
    MulStrict(0, A, B);
    MulStrict(0, A, Y);
    MulStrict(0, B, Y);
    Distribute2(Z, t, q);
    Distribute(Z - t, Z, t, r);
    MulMono(0, p, U);
    MulMono(0, o, U);
    if A * r <= B * q {
      Weights(A, B, q, r, Y);
      RoundBetween(mode, neg, p * U, q, Z, Z + t);
      RoundBetween(mode, neg, o * U, r, 0, Z - t);
    }
    if B * q <= A * r {
      Weights(B, A, r, q, Y);
      Commute(A, B);
      MulMono(1, q, p * U);
      RoundBetween(mode, neg, o * U, r, Z - t, Z);
      RoundBetween(mode, neg, p * U, q, Z + t, p * U);
    }
  }

  /** So it is with any two candidates. */
  lemma NearerStays(mode: Mode, neg: bool, X: nat, Y: nat, p: nat, q: nat, o: nat, r: nat)
    requires Y > 0 && q > 0 && r > 0 && Between(X, Y, p, q, o, r)
    ensures NoFarther(X, Y, p, q, o, r) ==> RoundedError(mode, neg, X, Y, p, q) <= RoundedError(mode, neg, X, Y, o, r)
    ensures NoFarther(X, Y, o, r, p, q) ==> RoundedError(mode, neg, X, Y, o, r) <= RoundedError(mode, neg, X, Y, p, q)
  {
    hide RoundedError, NoFarther;
    if p * r - o * q == 1 {
      SideOrder(mode, neg, X, Y, p, q, o, r);
    } else {
      SideOrder(mode, neg, X, Y, o, r, p, q);
    }
  }
}
