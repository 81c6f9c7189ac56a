/** Numerals: digits to some base times a power of it, some of them perhaps dropped, and what they have in common. */
module Numerals {
  import opened Powers
  import opened Rounding
  import opened Reading

  /** b^e for e >= 0, else 1: the two sides of d * b^e. */
  function Scale(b: nat, e: int): (r: nat)
    ensures b > 0 ==> r > 0
  {
    if e >= 0 then Pow(b, e) else 1
  }

  /** X/Y is d * b^e or, when digits were dropped after those of d, lies strictly between it and (d + 1) * b^e. */
  ghost predicate Denotes(b: nat, d: nat, dropped: bool, e: int, X: nat, Y: nat)
  {
    Y > 0 &&
    if dropped then d * (Scale(b, e) * Y) < X * Scale(b, -e) < (d + 1) * (Scale(b, e) * Y)
    else X * Scale(b, -e) == d * (Scale(b, e) * Y)
  }

  lemma ScaleStep(b: nat, e: int)
    ensures e >= 0 ==> Scale(b, e + 1) == b * Scale(b, e) && Scale(b, -e) == 1 && Scale(b, -e - 1) == 1
    ensures e < 0 ==> Scale(b, -e) == b * Scale(b, -e - 1) && Scale(b, e) == 1 && Scale(b, e + 1) == 1
  {
    assert Pow(b, 0) == 1;
  }

  /** Dropping the last digit. */
  lemma DropDigit(b: nat, d: nat, r: nat, dropped: bool, e: int, X: nat, Y: nat)
    requires r < b && Denotes(b, b * d + r, dropped, e, X, Y)
    ensures Denotes(b, d, dropped || r > 0, e + 1, X, Y)
  {
    hide Scale;
    ScaleStep(b, e);
    if e >= 0 {
      MulAssoc(b, Scale(b, e), Y);
      MulPositive(Scale(b, e), Y);
      DropDigitUp(b, d, r, dropped, X, Scale(b, e) * Y);
    } else {
      MulAssoc(X, b, Scale(b, -e - 1));
      MulSwap(X, b, Scale(b, -e - 1));
      DropDigitDown(b, d, r, dropped, X * Scale(b, -e - 1), Y);
    }
  }

  lemma DropDigitUp(b: nat, d: nat, r: nat, dropped: bool, L: nat, R: nat)
    requires r < b && R > 0
    requires if dropped then (b * d + r) * R < L < (b * d + r + 1) * R else L == (b * d + r) * R
    ensures if dropped || r > 0 then d * (b * R) < L < (d + 1) * (b * R) else L == d * (b * R)
  {
    MulAssoc(d, b, R);
    Distribute(b * d, r, R);
    Distribute(b * d + r, 1, R);
    Distribute(d, 1, b * R);
    MulMonotone(r + 1, b, R);
    Distribute(r, 1, R);
    if r > 0 { MulMonotone(1, r, R); }
  }

  lemma DropDigitDown(b: nat, d: nat, r: nat, dropped: bool, L: nat, R: nat)
    requires r < b && R > 0
    requires if dropped then (b * d + r) * R < b * L < (b * d + r + 1) * R else b * L == (b * d + r) * R
    ensures if dropped || r > 0 then d * R < L < (d + 1) * R else L == d * R
  {
    DropDigitUp(b, d, r, dropped, b * L, R);
    MulSwap(d, b, R);
    MulSwap(d + 1, b, R);
    MulAssoc(d, b, R);
    MulAssoc(d + 1, b, R);
    if dropped || r > 0 {
      MulCancelLess(d * R, L, b);
      MulCancelLess(L, (d + 1) * R, b);
    } else {
      MulCancelEq(L, d * R, b);
    }
  }

  lemma DenotesPositive(b: nat, d: nat, dropped: bool, e: int, X: nat, Y: nat)
    requires Denotes(b, d, dropped, e, X, Y)
    ensures Y > 0
  {
  }

  // ---- the early exits -----------------------------------------------------------------------------

  /** A first digit at b^k or above. */
  lemma AtLeastPower(b: nat, d: nat, n: nat, dropped: bool, e: int, X: nat, Y: nat, k: nat)
    requires b > 0 && n > 0 && d >= Pow(b, n - 1) && n - 1 + e >= k && Denotes(b, d, dropped, e, X, Y)
    ensures X >= Pow(b, k) * Y
  {
    if e >= 0 {
      PowAdd(b, n - 1, e);
      PowMonotone(b, k, n - 1 + e);
      MulMonotone(Pow(b, n - 1), d, Pow(b, e) * Y);
      MulAssoc(Pow(b, n - 1), Pow(b, e), Y);
      MulMonotone(Pow(b, k), Pow(b, n - 1 + e), Y);
    } else {
      PowAdd(b, k, -e);
      PowMonotone(b, k - e, n - 1);
      MulMonotone(Pow(b, k - e), d, Y);
      MulSwap(Pow(b, k), Pow(b, -e), Y);
      MulCancelLeq(Pow(b, k) * Y, X, Pow(b, -e));
    }
  }

  /** Every digit below b^-k. */
  lemma BelowPower(b: nat, d: nat, n: nat, dropped: bool, e: int, X: nat, Y: nat, k: nat)
    requires b > 0 && d < Pow(b, n) && n + e + k <= 0 && Denotes(b, d, dropped, e, X, Y)
    ensures X * Pow(b, k) < Y
  {
    hide Pow;
    assert Pow(b, 0) == 1 by { PowZero(b); }
    assert Scale(b, e) * Y == Y && Scale(b, -e) == Pow(b, -e);
    assert (d + 1) * Y == d * Y + Y;
    PowAdd(b, k, n);
    PowMonotone(b, k + n, -e);
    BelowByScale(X, Y, d, Pow(b, n), Pow(b, k), Pow(b, -e));
  }

  lemma BelowByScale(X: nat, Y: nat, d: nat, tn: nat, tk: nat, te: nat)
    requires X * te < (d + 1) * Y && d < tn && tk * tn <= te && tn > 0
    ensures X * tk < Y
  {
    MulMonotone(d + 1, tn, Y);
    MulMonotone(tk * tn, te, X);
    MulSwap(tk, tn, X);
    MulCancelLess(X * tk, Y, tn);
  }

  /** A numeral at or above 2^(bias + 1) overflows. */
  lemma TooLarge(f: Format, b: nat, d: nat, n: nat, dropped: bool, e: int, X: nat, Y: nat, k: nat)
    requires f.Valid() && b > 0 && n > 0 && d >= Pow(b, n - 1) && n - 1 + e >= k && Denotes(b, d, dropped, e, X, Y)
    requires Pow(2, f.bias + 1) <= Pow(b, k)
    ensures f.Nearest(X * Pow(2, f.Quantum()), Y, f.Inf())
  {
    hide Pow, Format.Nearest, Format.Inf, Format.Units, Denotes;
    var P, Q := Pow(2, f.bias + 1), f.Quantum();
    AtLeastPower(b, d, n, dropped, e, X, Y, k);
    DenotesPositive(b, d, dropped, e, X, Y);
    InfUnitsPower(f);
    MulMonotone(P, Pow(b, k), Y);
    MulMonotone(P * Y, X, Pow(2, Q));
    MulSwap(P, Y, Pow(2, Q));
    PowAdd(2, f.bias + 1, Q);
    f.OverflowIsNearest(X * Pow(2, Q), Y);
  }

  lemma InfUnitsPower(f: Format)
    requires f.Valid()
    ensures f.Units(f.Inf()) == Pow(2, f.bias + 1 + f.Quantum())
  {
    hide Pow, Format.Units, Format.Inf;
    InfUnits(f);
    PowAdd(2, f.p, f.Top());
    PowSucc(2, f.p + f.Top() - 1);
    PowSucc(2, f.p + f.Top() - 2);
    assert f.p + f.Top() - 2 == f.bias + 1 + f.Quantum();
  }

  /** A numeral below 2^-(Quantum + 1), half the smallest subnormal, is nearest zero. */
  lemma TooSmall(f: Format, b: nat, d: nat, n: nat, dropped: bool, e: int, X: nat, Y: nat, k: nat)
    requires f.Valid() && b > 0 && 0 < d < Pow(b, n) && n + e + k <= 0 && Denotes(b, d, dropped, e, X, Y)
    requires Pow(2, f.Quantum() + 1) <= Pow(b, k)
    ensures f.Nearest(X * Pow(2, f.Quantum()), Y, 0) && X * Pow(2, f.Quantum()) != f.Units(0) * Y
  {
    hide Pow, Format.Nearest;
    var Q := f.Quantum();
    BelowPower(b, d, n, dropped, e, X, Y, k);
    NotZero(b, d, dropped, e, X, Y);
    MulMonotone(Pow(2, Q + 1), Pow(b, k), X);
    PowSucc(2, Q);
    assert X * (2 * Pow(2, Q)) == 2 * (X * Pow(2, Q));
    MulPositive(X, Pow(2, Q));
    SubnormalPattern(f, 0);
    f.RoundAtIsNearest(X * Pow(2, Q), Y, 0);
  }

  lemma NotZero(b: nat, d: nat, dropped: bool, e: int, X: nat, Y: nat)
    requires b > 0 && d > 0 && Denotes(b, d, dropped, e, X, Y)
    ensures X > 0 && Y > 0
  {
    MulPositive(Scale(b, e), Y);
    MulPositive(d, Scale(b, e) * Y);
    assert 0 * Scale(b, -e) == 0;
  }

  /** num/den is d * b^e. */
  lemma AsFraction(b: nat, d: nat, e: int)
    requires b > 0
    ensures Denotes(b, d, false, e, d * Scale(b, e), Scale(b, -e))
  {
    assert Pow(b, 0) == 1;
  }

  lemma SameNumber(b: nat, d: nat, e: int, X: nat, Y: nat)
    requires Denotes(b, d, false, e, X, Y)
    ensures (d * Scale(b, e)) * Y == X * Scale(b, -e)
  {
    MulAssoc(d, Scale(b, e), Y);
  }

  lemma ScaleForms(b: nat, e: int)
    ensures e >= 0 ==> Scale(b, e) == Pow(b, e) && Scale(b, -e) == 1
    ensures e < 0 ==> Scale(b, e) == 1 && Scale(b, -e) == Pow(b, -e)
  {
    assert Pow(b, 0) == 1;
  }

  lemma ItStandsForItself(f: Format, num: nat, den: nat)
    requires den > 0
    ensures StandsFor(f, num, den, false, num, den)
  {
  }

  lemma HiddenBelowInf(f: Format)
    requires f.Valid()
    ensures 0 < f.Hidden() < f.Inf()
  {
    hide Format.Hidden;
    MulMonotone(3, f.Top(), f.Hidden());
  }

  lemma ZeroReads(f: Format, b: nat, e: int, X: nat, Y: nat)
    requires f.Valid() && b > 0 && Denotes(b, 0, false, e, X, Y)
    ensures f.Nearest(X * Pow(2, f.Quantum()), Y, 0) && X * Pow(2, f.Quantum()) == f.Units(0) * Y
  {
    hide Pow, Format.Nearest;
    assert X == 0 by { if X > 0 { MulPositive(X, Scale(b, -e)); } }
    SubnormalPattern(f, 0);
    f.RoundAtIsNearest(0, Y, 0);
  }

  /** From the fraction worked on to the number it is equal to. */
  lemma ExactTransfer(f: Format, b: nat, d: nat, e: int, X: nat, Y: nat, bits: nat)
    requires f.Valid() && b > 0 && Denotes(b, d, false, e, X, Y)
    requires f.Nearest(d * Scale(b, e) * Pow(2, f.Quantum()), Scale(b, -e), bits)
    ensures f.Nearest(X * Pow(2, f.Quantum()), Y, bits)
    ensures d * Scale(b, e) * Pow(2, f.Quantum()) == f.Units(bits) * Scale(b, -e) <==>
      X * Pow(2, f.Quantum()) == f.Units(bits) * Y
  {
    hide Pow, Scale, Format.Nearest, Format.Units;
    var P, num, den := Pow(2, f.Quantum()), d * Scale(b, e), Scale(b, -e);
    SameNumber(b, d, e, X, Y);
    MulSwap(num, P, Y);
    MulSwap(X, P, den);
    f.NearestSameRatio(num * P, den, X * P, Y, bits);
    f.SameRatioExact(num * P, den, X * P, Y, f.Units(bits));
  }
}
