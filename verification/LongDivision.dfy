/**
 The long division at the heart of `divide`. The remainder array `rem` of the
 source becomes [undefined] when nothing is left to bring down; here it becomes
 the empty sequence, so that "rem[0] != null" reads `rem != []`.
 */
module LongDivision {
  import opened Digits
  import opened Numbers
  import opened DigitLoops

  /** Digits of a remainder: no leading zero, unless it is the single digit 0. */
  predicate Remainder(c: seq<int>)
  {
    c != [] && InBase(c, 10) && (|c| > 1 ==> c[0] != 0)
  }

  // ----- comparing the divisor with the remainder

  lemma ShorterIsLess(x: seq<int>, y: seq<int>)
    requires InBase(x, 10) && InBase(y, 10) && |x| < |y| && y[0] != 0
    ensures Val(x, 10) < Val(y, 10)
  {
    ValBound(x, 10);
    ValLead(y, 10);
    PowMono(10, |x|, |y| - 1);
  }

  /** 1, 0 or -1 as the divisor is greater than, equal to or less than the remainder. */
  method Compare(dvs: seq<int>, rem: seq<int>) returns (cmp: int)
    requires Operand(dvs) && Remainder(rem)
    ensures cmp == 1 || cmp == 0 || cmp == -1
    ensures cmp == 1 <==> Val(dvs, 10) > Val(rem, 10)
    ensures cmp == 0 <==> dvs == rem
    ensures cmp == 0 <==> Val(dvs, 10) == Val(rem, 10)
  {
    hide Val, Pow;
    if |dvs| != |rem| {
      if |dvs| > |rem| {
        ShorterIsLess(rem, dvs);
        cmp := 1;
      } else {
        ShorterIsLess(dvs, rem);
        cmp := -1;
      }
    } else {
      var i := 0;
      cmp := 0;
      while i < |dvs|
        invariant 0 <= i <= |dvs| && dvs[..i] == rem[..i] && cmp == 0
      {
        if dvs[i] != rem[i] {
          if dvs[i] > rem[i] {
            ValOrder(rem, dvs, i, 10);
            cmp := 1;
          } else {
            ValOrder(dvs, rem, i, 10);
            cmp := -1;
          }
          return;
        }
        i := i + 1;
      }
      assert dvs == dvs[..i] == rem[..i] == rem;
    }
  }

  // ----- one digit of the quotient

  lemma RemainderLength(dvs: seq<int>, rem: seq<int>)
    requires Operand(dvs) && Remainder(rem)
    requires Val(rem, 10) < 10 * Val(dvs, 10)
    ensures |rem| <= |dvs| + 1
  {
    PowStep(10, 0);
    TrailingZeros(dvs, 1, 10);
    if |rem| > |dvs| + 1 {
      ShorterIsLess(dvs + Zeros(1), rem);
    }
  }

  /** Takes the divisor from a greater remainder once. */
  method TakeDivisor(dvs: seq<int>, rem0: seq<int>) returns (rem: seq<int>)
    requires Operand(dvs) && Remainder(rem0)
    requires Val(dvs, 10) < Val(rem0, 10) < 10 * Val(dvs, 10)
    ensures Remainder(rem) && Val(rem, 10) == Val(rem0, 10) - Val(dvs, 10) > 0
  {
    hide Val, Pow;
    RemainderLength(dvs, rem0);
    if |rem0| < |dvs| { ShorterIsLess(rem0, dvs); }
    assert |dvs| <= |rem0|;
    LeadingZeros(1, dvs, 10);
    var dvsT := if |rem0| == |dvs| then dvs else Zeros(1) + dvs;
    assert rem0[..|rem0|] == rem0;
    rem := Subtract(rem0, dvsT, 0);
    Unscaled(dvsT);
    var e;
    rem, e := ShiftZeros(rem, 0);
  }

  /** How often the divisor goes into the remainder: `next`, and one more if `cmp` is 0. */
  method NextDigit(dvs: seq<int>, rem0: seq<int>) returns (next: int, cmp: int, rem: seq<int>)
    requires Operand(dvs) && Remainder(rem0)
    requires Val(rem0, 10) < 10 * Val(dvs, 10)
    ensures Remainder(rem) && 0 <= next <= 9
    ensures cmp == 1 || cmp == 0
    ensures cmp == 1 ==> Val(rem, 10) < Val(dvs, 10)
    ensures cmp == 0 ==> Val(rem, 10) == Val(dvs, 10) && next < 9
    ensures Val(rem0, 10) == next * Val(dvs, 10) + Val(rem, 10)
    ensures next == 0 ==> rem == rem0
  {
    hide Val, Pow;
    ValPositive(dvs);
    next, cmp, rem := 0, 1, rem0;
    while next < 10
      invariant 0 <= next <= 9 && Remainder(rem)
      invariant next == 0 ==> rem == rem0
      invariant Val(rem0, 10) == next * Val(dvs, 10) + Val(rem, 10)
    {
      cmp := Compare(dvs, rem);
      if cmp >= 0 {
        Room(next, Val(dvs, 10), Val(rem, 10));
        return;
      }
      Room(next, Val(dvs, 10), Val(rem, 10));
      rem := TakeDivisor(dvs, rem);
      assert (next + 1) * Val(dvs, 10) == next * Val(dvs, 10) + Val(dvs, 10);
      next := next + 1;
    }
  }

  lemma Room(next: int, v: int, r: int)
    requires 0 <= next <= 9 && v > 0 && next * v + r < 10 * v
    ensures r < (10 - next) * v <= 10 * v
    ensures r >= v ==> next < 9
  {
    assert (10 - next) * v == 10 * v - next * v;
    MulMono(0, next, v);
    if next == 9 {
      assert (10 - next) * v == v;
    }
  }

  // ----- the whole division

  /** The first `n` digits of the dividend, continued with zeros. */
  function Taken(dvd: seq<int>, n: nat): seq<int>
  {
    if n <= |dvd| then dvd[..n] else dvd + Zeros(n - |dvd|)
  }

  /** The digit brought down at position `n`, `dvd[n] || 0`. */
  function DigitAt(dvd: seq<int>, n: nat): int
  {
    if n < |dvd| then dvd[n] else 0
  }

  lemma TakenStep(dvd: seq<int>, n: nat)
    ensures Val(Taken(dvd, n + 1), 10) == Val(Taken(dvd, n), 10) * 10 + DigitAt(dvd, n)
  {
    var t := Taken(dvd, n + 1);
    assert t[..n] == Taken(dvd, n);
    assert t[n] == DigitAt(dvd, n);
    ValStep(t, 10);
  }

  /**
   The exact quotient, counted in units of the last of `n` digits consumed, as a
   fraction: dvd * 10^(n - |dvd|) over dvs when all of the dividend has been
   consumed, dvd over dvs * 10^(|dvd| - n) before that.
   */
  function QuotNum(dvd: seq<int>, n: nat): int
  {
    Val(dvd, 10) * Pow10(Max(0, n - |dvd|))
  }

  function QuotDen(dvd: seq<int>, dvs: seq<int>, n: nat): int
  {
    Val(dvs, 10) * Pow10(Max(0, |dvd| - n))
  }

  /** `q` units with `rem` left over from the first `n` digits is the exact quotient cut off. */
  ghost predicate IsCutOff(dvd: seq<int>, dvs: seq<int>, n: nat, q: int, more: bool)
  {
    var num, den := QuotNum(dvd, n), QuotDen(dvd, dvs, n);
    den > 0 && q * den <= num < (q + 1) * den && (more <==> num != q * den)
  }

  lemma CutOff(dvd: seq<int>, dvs: seq<int>, n: nat, q: int, r: int)
    requires Operand(dvd) && Operand(dvs)
    requires Val(Taken(dvd, n), 10) == q * Val(dvs, 10) + r && 0 <= r < Val(dvs, 10)
    ensures IsCutOff(dvd, dvs, n, q, !(r == 0 && n >= |dvd|))
  {
    if n >= |dvd| { CutAfter(dvd, dvs, n, q, r); } else { CutWithin(dvd, dvs, n, q, r); }
  }

  lemma CutAfter(dvd: seq<int>, dvs: seq<int>, n: nat, q: int, r: int)
    requires Operand(dvd) && Operand(dvs) && n >= |dvd|
    requires Val(Taken(dvd, n), 10) == q * Val(dvs, 10) + r && 0 <= r < Val(dvs, 10)
    ensures IsCutOff(dvd, dvs, n, q, r != 0)
  {
    hide Val, Pow;
    var v := Val(dvs, 10);
    assert Taken(dvd, n) == dvd + Zeros(n - |dvd|);
    TrailingZeros(dvd, n - |dvd|, 10);
    Unscaled(dvs);
    assert (q + 1) * v == q * v + v;
  }

  lemma CutWithin(dvd: seq<int>, dvs: seq<int>, n: nat, q: int, r: int)
    requires Operand(dvd) && Operand(dvs) && n < |dvd|
    requires Val(Taken(dvd, n), 10) == q * Val(dvs, 10) + r && 0 <= r < Val(dvs, 10)
    ensures IsCutOff(dvd, dvs, n, q, true)
  {
    hide Val, Pow;
    ValSplit(dvd, n, 10);
    Unscaled(dvd);
    var t := dvd[n..];
    ValBound(t, 10);
    PopNonzero(t);
    Cut(q, Val(dvs, 10), r, Pow10(|dvd| - n), Val(t, 10));
  }

  lemma Cut(q: int, v: int, r: int, p: int, t: int)
    requires 0 <= r < v && 0 < t < p
    ensures q * (v * p) < (q * v + r) * p + t < (q + 1) * (v * p)
    ensures v * p > 0
  {
    assert (q * v + r) * p == q * (v * p) + r * p by { MulAssoc3(q, v, p); }
    assert (q + 1) * (v * p) == q * (v * p) + v * p;
    MulMono(r + 1, v, p);
    MulMono(0, r, p);
  }

  /** What holds when the next digit of the quotient is about to be found. */
  ghost predicate Dividing(dvd: seq<int>, dvs: seq<int>, qc: seq<int>, rem: seq<int>)
    requires Operand(dvd) && Operand(dvs)
  {
    && InBase(qc, 10) && Remainder(rem)
    && Val(rem, 10) < 10 * Val(dvs, 10)
    && Val(Taken(dvd, |dvs| + |qc|), 10) == Val(qc, 10) * 10 * Val(dvs, 10) + Val(rem, 10)
    // a zero here has been brought down, with more digits to come
    && (Val(rem, 10) == 0 ==> |dvs| + |qc| < |dvd|)
    // there can't be more than one leading zero
    && (qc == [0] ==> Val(rem, 10) >= Val(dvs, 10))
    && (qc == [] ==> |rem| == |dvs| && rem[0] != 0)
    && (|qc| >= 2 ==> qc[0] != 0 || qc[1] != 0)
  }

  lemma StartDividing(dvd: seq<int>, dvs: seq<int>)
    requires Operand(dvd) && Operand(dvs)
    ensures Dividing(dvd, dvs, [], Taken(dvd, |dvs|))
  {
    var rem := Taken(dvd, |dvs|);
    assert rem[0] == dvd[0];
    ValLead(rem, 10);
    ValLead(dvs, 10);
    PowStep(10, |dvs| - 1);
    ValEmpty(10);
  }

  /** The quotient digit `d` and what is left over, `r`, which the digits `rem` hold unless it is zero. */
  ghost predicate Found(dvs: seq<int>, rem0: seq<int>, d: int, r: int, rem: seq<int>)
  {
    && 0 <= d <= 9 && 0 <= r < Val(dvs, 10)
    && Val(rem0, 10) == d * Val(dvs, 10) + r
    && Remainder(rem) && (r == 0 || (r == Val(rem, 10) && rem[0] != 0))
    && (d == 0 ==> rem == rem0 && r == Val(rem, 10))
  }

  lemma DigitFound(dvs: seq<int>, rem0: seq<int>, next: int, cmp: int, rem: seq<int>, d: int, r: int)
    requires Operand(dvs) && Remainder(rem) && 0 <= next <= 9 && (cmp == 1 || cmp == 0)
    requires cmp == 1 ==> Val(rem, 10) < Val(dvs, 10)
    requires cmp == 0 ==> Val(rem, 10) == Val(dvs, 10) && next < 9
    requires Val(rem0, 10) == next * Val(dvs, 10) + Val(rem, 10)
    requires next == 0 ==> rem == rem0
    requires d == if cmp != 0 then next else next + 1
    requires r == if cmp != 0 then Val(rem, 10) else 0
    ensures Found(dvs, rem0, d, r, rem)
    ensures rem[0] != 0 && cmp != 0 <==> r != 0
  {
    hide Val, Pow;
    ValPositive(dvs);
    ValNat(rem);
    ZeroRemainder(rem);
    assert (next + 1) * Val(dvs, 10) == next * Val(dvs, 10) + Val(dvs, 10);
  }

  /** The remainder array to go on with, empty when nothing is left to bring down. */
  function NextRemainder(dvd: seq<int>, n: nat, r: int, rem: seq<int>): seq<int>
  {
    if r != 0 then rem + [DigitAt(dvd, n)] else if n < |dvd| then [dvd[n]] else []
  }

  /** One digit more of the quotient is the exact quotient cut off one place later. */
  lemma StepCutOff(dvd: seq<int>, dvs: seq<int>, qc: seq<int>, rem0: seq<int>, d: int, r: int, rem: seq<int>)
    requires Operand(dvd) && Operand(dvs) && Dividing(dvd, dvs, qc, rem0)
    requires Found(dvs, rem0, d, r, rem)
    ensures Val(Taken(dvd, |dvs| + |qc|), 10) == Val(qc + [d], 10) * Val(dvs, 10) + r
    ensures IsCutOff(dvd, dvs, |dvs| + |qc|, Val(qc + [d], 10), NextRemainder(dvd, |dvs| + |qc|, r, rem) != [])
  {
    hide Val, Pow;
    var n, v := |dvs| + |qc|, Val(dvs, 10);
    assert (qc + [d])[..|qc|] == qc;
    ValStep(qc + [d], 10);
    assert (Val(qc, 10) * 10 + d) * v == Val(qc, 10) * 10 * v + d * v;
    CutOff(dvd, dvs, n, Val(qc + [d], 10), r);
  }

  /** A quotient that starts with 0 goes on with a nonzero digit. */
  lemma LeadStep(dvd: seq<int>, dvs: seq<int>, qc: seq<int>, rem0: seq<int>, d: int, r: int, rem: seq<int>)
    requires Operand(dvd) && Operand(dvs) && Dividing(dvd, dvs, qc, rem0)
    requires Found(dvs, rem0, d, r, rem)
    ensures qc == [] && d == 0 ==> r != 0 && Val(rem + [DigitAt(dvd, |dvs|)], 10) >= Val(dvs, 10)
    ensures qc == [0] ==> d != 0
  {
    hide Val, Pow;
    if qc == [] && d == 0 {
      ZeroRemainder(rem);
      ShorterIsLess(dvs, rem + [DigitAt(dvd, |dvs|)]);
    }
  }

  lemma StepValue(dvd: seq<int>, dvs: seq<int>, n: nat, q: int, r: int, rem: seq<int>)
    requires Operand(dvd) && Remainder(rem)
    requires 0 <= r < Val(dvs, 10) && (r == 0 || (r == Val(rem, 10) && rem[0] != 0))
    requires Val(Taken(dvd, n), 10) == q * Val(dvs, 10) + r
    requires NextRemainder(dvd, n, r, rem) != []
    ensures var rem' := NextRemainder(dvd, n, r, rem);
            && Remainder(rem') && Val(rem', 10) < 10 * Val(dvs, 10)
            && Val(Taken(dvd, n + 1), 10) == q * 10 * Val(dvs, 10) + Val(rem', 10)
            && (Val(rem', 10) == 0 ==> n + 1 < |dvd|)
  {
    hide Val, Pow;
    BringDown(dvd, n, rem, r, NextRemainder(dvd, n, r, rem));
    Regroup(q, Val(dvs, 10), r, DigitAt(dvd, n));
  }

  lemma StepDividing(dvd: seq<int>, dvs: seq<int>, qc: seq<int>, rem0: seq<int>, d: int, r: int, rem: seq<int>)
    requires Operand(dvd) && Operand(dvs) && Dividing(dvd, dvs, qc, rem0)
    requires Found(dvs, rem0, d, r, rem)
    requires NextRemainder(dvd, |dvs| + |qc|, r, rem) != []
    ensures Dividing(dvd, dvs, qc + [d], NextRemainder(dvd, |dvs| + |qc|, r, rem))
  {
    hide Val, Pow, Taken, NormalDigits;
    var n := |dvs| + |qc|;
    LeadStep(dvd, dvs, qc, rem0, d, r, rem);
    StepCutOff(dvd, dvs, qc, rem0, d, r, rem);
    StepValue(dvd, dvs, n, Val(qc + [d], 10), r, rem);
    var qc', rem' := qc + [d], NextRemainder(dvd, n, r, rem);
    assert n + 1 == |dvs| + |qc'| && qc' != [];
    assert InBase(qc', 10);
    assert Val(rem', 10) == 0 ==> |dvs| + |qc'| < |dvd|;
    assert qc' == [0] ==> Val(rem', 10) >= Val(dvs, 10) by {
      if qc' == [0] { assert |qc'| == 1 && qc'[|qc|] == d; }
    }
    assert |qc'| >= 2 ==> qc'[0] != 0 || qc'[1] != 0 by {
      if |qc| >= 2 { assert qc'[0] == qc[0] && qc'[1] == qc[1]; }
      if |qc| == 1 && qc[0] == 0 { assert qc == [0]; }
    }
    assert Val(Taken(dvd, |dvs| + |qc'|), 10) == Val(qc', 10) * 10 * Val(dvs, 10) + Val(rem', 10);
  }

  /** The division only runs out after a nonzero digit. */
  lemma LastDigit(dvd: seq<int>, dvs: seq<int>, qc: seq<int>, rem0: seq<int>, d: int, r: int, rem: seq<int>)
    requires Operand(dvd) && Operand(dvs) && Dividing(dvd, dvs, qc, rem0)
    requires Found(dvs, rem0, d, r, rem)
    requires NextRemainder(dvd, |dvs| + |qc|, r, rem) == []
    ensures d != 0
  {
    hide Val, Pow;
  }

  lemma ZeroRemainder(rem: seq<int>)
    requires Remainder(rem)
    ensures Val(rem, 10) == 0 <==> rem == [0]
    ensures rem[0] == 0 <==> rem == [0]
  {
    ValOne(0, 10);
    if rem[0] != 0 { ValLead(rem, 10); }
  }

  lemma BringDown(dvd: seq<int>, n: nat, rem: seq<int>, r: int, rem': seq<int>)
    requires NormalDigits(dvd) && dvd != [0]
    requires Remainder(rem) && (r == 0 || (r == Val(rem, 10) && rem[0] != 0))
    requires rem' == if r != 0 then rem + [DigitAt(dvd, n)] else if n < |dvd| then [dvd[n]] else []
    requires rem' != []
    ensures Remainder(rem') && Val(rem', 10) == r * 10 + DigitAt(dvd, n)
    ensures Val(Taken(dvd, n + 1), 10) == Val(Taken(dvd, n), 10) * 10 + DigitAt(dvd, n)
    ensures Val(rem', 10) == 0 ==> n + 1 < |dvd|
  {
    TakenStep(dvd, n);
    if r != 0 {
      assert rem'[..|rem|] == rem;
      ValStep(rem', 10);
      ValNat(rem);
    } else {
      ValOne(dvd[n], 10);
    }
  }

  lemma Regroup(q: int, v: int, r: int, d: int)
    ensures (q * v + r) * 10 + d == q * 10 * v + (r * 10 + d)
  {
    assert q * 10 * v == q * v * 10 by { MulAssoc3(q, v, 10); MulAssoc3(q, 10, v); }
  }

  /**
   The do-while loop of `divide`: at most s + 1 digits of the quotient, and
   whether anything nonzero is left undivided.
   */
  method LongDivide(dvd: seq<int>, dvs: seq<int>, s0: nat) returns (qc: seq<int>, more: bool)
    requires Operand(dvd) && Operand(dvs)
    ensures InBase(qc, 10) && 1 <= |qc| <= s0 + 1
    ensures |qc| >= 2 ==> qc[0] != 0 || qc[1] != 0
    ensures more ==> |qc| == s0 + 1
    ensures !more ==> qc[|qc| - 1] != 0
    ensures IsCutOff(dvd, dvs, |dvs| + |qc| - 1, Val(qc, 10), more)
  {
    hide Val, Pow;
    var s := s0;
    var rem := if |dvs| <= |dvd| then dvd[..|dvs|] else dvd + Zeros(|dvs| - |dvd|);
    var dvdI := |dvs|;
    qc := [];
    StartDividing(dvd, dvs);
    while true
      invariant dvdI == |dvs| + |qc| && 0 <= s == s0 - |qc|
      invariant Dividing(dvd, dvs, qc, rem)
      decreases s
    {
      var next, cmp, rem1 := NextDigit(dvs, rem);
      var d := if cmp != 0 then next else next + 1;
      var rem2 := if rem1[0] != 0 && cmp != 0 then rem1 + [if dvdI < |dvd| then dvd[dvdI] else 0]
                  else if dvdI < |dvd| then [dvd[dvdI]] else [];
      ghost var r := if cmp != 0 then Val(rem1, 10) else 0;
      DigitFound(dvs, rem, next, cmp, rem1, d, r);
      assert rem2 == NextRemainder(dvd, dvdI, r, rem1);
      StepCutOff(dvd, dvs, qc, rem, d, r, rem1);
      LeadStep(dvd, dvs, qc, rem, d, r, rem1);
      if rem2 != [] {
        StepDividing(dvd, dvs, qc, rem, d, r, rem1);
      } else {
        LastDigit(dvd, dvs, qc, rem, d, r, rem1);
      }
      qc, rem := qc + [d], rem2;
      var goOn := dvdI < |dvd| || rem != [];
      dvdI := dvdI + 1;
      if !goOn || s == 0 {
        more := rem != [];
        return;
      }
      s := s - 1;
    }
  }
}
