/**
 Infinities, zeros and NaN: the tables that the documentation of the operations
 gives, with the signs.
 */
module SpecialCases {
  import opened Digits
  import opened Numbers
  import opened Arithmetic
  import opened Powers

  predicate Infinite(x: Number) { x.c == [] && x.s != 0 }

  /** Subtraction is the addition of the opposite, for all operands. */
  lemma MinusIsPlus(x: Number, y: Number, lo: int)
    requires Valid(x) && Valid(y)
    ensures Valid(Negate(y)) && Minus(x, y, lo) == Plus(x, Negate(y), lo)
  {
    hide DiffSame, SumSame, PlusSame, MinusSame, InBase, NormalDigits;
    NegateTwice(y);
    hide Negate, Valid;
    if !IsNaN(x) && !IsNaN(y) {
      assert x.s == y.s || x.s == Negate(y).s;
    }
  }

  lemma NegateTwice(y: Number)
    requires Valid(y)
    ensures Valid(Negate(y)) && Negate(Negate(y)) == y && Negate(y).s == -y.s
  {
    hide InBase, NormalDigits;
  }

  /** Sums with an operand that is not a nonzero finite number. */
  lemma PlusTable(x: Number, y: Number, lo: int)
    requires Valid(x) && Valid(y)
    ensures IsNaN(x) || IsNaN(y) ==> Plus(x, y, lo) == NAN
    ensures Infinite(x) && Finite(y) ==> Plus(x, y, lo) == x && Plus(y, x, lo) == x
    ensures Infinite(x) && Infinite(y) ==> Plus(x, y, lo) == if x == y then x else NAN
    ensures IsZero(x) && Nonzero(y) && y.s != 0 ==> Plus(x, y, lo) == y && Plus(y, x, lo) == y
    ensures IsZero(x) && IsZero(y) ==> Plus(x, y, lo) == if x == y then x else Zero(1)
  {
    hide DiffSame, SumSame;
  }

  lemma TimesTable(x: Number, y: Number, g: Settings)
    requires Valid(x) && Valid(y)
    ensures Times(x, y, g) == Times(y, x, g)
    ensures IsNaN(x) || IsNaN(y) || (Infinite(x) && IsZero(y)) ==> Times(x, y, g) == NAN
    ensures Infinite(x) && (Infinite(y) || Nonzero(y)) && y.s != 0 ==> Times(x, y, g) == Infinity(x.s * y.s)
    ensures IsZero(x) && Finite(y) ==> Times(x, y, g) == Zero(x.s * y.s)
  {
    hide Exact, Val;
    if Finite(x) && Finite(y) {
      Commute(Val(x.c, 10), Val(y.c, 10));
    }
  }

  lemma DivTable(x: Number, y: Number, g: Settings)
    requires Valid(x) && Valid(y)
    ensures IsNaN(x) || IsNaN(y) || (IsZero(x) && IsZero(y)) || (Infinite(x) && Infinite(y)) ==> Div(x, y, g) == NAN
    ensures Nonzero(x) && IsZero(y) ==> Div(x, y, g) == Infinity(x.s * y.s)
    ensures Infinite(x) && Finite(y) ==> Div(x, y, g) == Infinity(x.s * y.s)
    ensures IsZero(x) && Nonzero(y) ==> Div(x, y, g) == Zero(x.s * y.s)
    ensures Finite(x) && Infinite(y) ==> Div(x, y, g) == Zero(x.s * y.s)
  {
    hide Quotient;
  }

  /** Remainders; one of an infinity is no number, one by an infinity is the dividend. */
  lemma ModTable(x: Number, y: Number, g: Settings)
    requires Valid(x) && Valid(y)
    ensures IsNaN(x) || IsNaN(y) || IsZero(y) || Infinite(x) ==> Mod(x, y, g) == NAN
    ensures IsZero(x) && !IsNaN(y) && !IsZero(y) ==> Mod(x, y, g) == x
    ensures Finite(x) && Infinite(y) ==> Mod(x, y, g) == x
  {
    hide Quotient, Exact, Val;
    if Infinite(x) && !IsNaN(y) && !IsZero(y) {
      assert Cmp(y.(s := 1), x.(s := 1)) != 1;
    }
  }

  /** Powers of anything to zero are 1; those of zeros and infinities have the sign of the product. */
  lemma PowerTable(x: Number, n: nat, g: Settings)
    requires Valid(x)
    ensures Power(x, 0, g) == ONE
    ensures IsNaN(x) && n > 0 ==> Power(x, n, g) == NAN && Power(x, 0 - n, g) == NAN
    ensures IsZero(x) && n > 0 ==> Power(x, n, g) == Zero(IntPower(x.s, n)) &&
                                   Power(x, 0 - n, g) == Infinity(IntPower(x.s, n))
    ensures Infinite(x) && n > 0 ==> Power(x, n, g) == Infinity(IntPower(x.s, n)) &&
                                     Power(x, 0 - n, g) == Zero(IntPower(x.s, n))
  {
    hide Quotient, Val, Pow, Exact, IntPower;
    if !IsNaN(x) {
      SignedPower(x.s, 1, n);
      OneToThe(n);
    }
    assert Valid(ONE);
  }

  lemma {:induction false} OneToThe(n: nat)
    ensures Pow(1, n) == 1
  {
    if n > 0 { OneToThe(n - 1); }
  }

  /** The infinities are beyond all numbers. */
  lemma CmpTable(x: Number, y: Number)
    requires Valid(x) && Valid(y) && !IsNaN(x) && !IsNaN(y)
    ensures Infinite(x) && Finite(y) ==> Cmp(x, y) == x.s && Cmp(y, x) == -x.s
    ensures Infinite(x) && Infinite(y) ==> Cmp(x, y) == if x == y then 0 else x.s
  {
  }
}
