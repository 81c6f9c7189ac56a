/** From decimal digits and an exponent to the binary value nearest their number. */
module DecimalReading {
  import opened Powers
  import opened Rounding
  import opened Sizes
  import opened Digits
  import opened BigInts
  import opened Reading
  import opened Numerals

  // ---- dropping digits ---------------------------------------------------------------------------

  /** Keeping the first k digits and whether anything after them is not zero. */
  lemma {:induction false} KeepDigits(s: seq<char>, k: nat, dropped: bool, e: int, X: nat, Y: nat)
    requires AllDigits(s) && k <= |s| && Denotes(10, DecVal(s), dropped, e, X, Y)
    ensures Denotes(10, DecVal(s[..k]), dropped || DecVal(s[k..]) > 0, e + |s| - k, X, Y)
    decreases |s|
  {
    hide Denotes;
    if k < |s| {
      var t := s[..|s| - 1];
      DropDigit(10, DecVal(t), Digit(s[|s| - 1]), dropped, e, X, Y);
      KeepDigits(t, k, dropped || Digit(s[|s| - 1]) > 0, e + 1, X, Y);
      assert t[..k] == s[..k];
      assert s[k..][..|s| - k - 1] == t[k..];
      DecStep(s[k..], |s| - k - 1);
      assert s[k..][..|s| - k] == s[k..];
    } else {
      assert s[..k] == s;
    }
  }

  // ---- no rounding boundary between two neighbouring decimals ---------------------------------------------

  /** A number of at most p + 1 significant bits, in half units, is not strictly between two neighbouring decimals
      of as many digits as are kept. */
  lemma OffTheInterval(f: Format, mu: nat, g: nat, d: nat, en: nat)
    requires Sized(f) && mu < 2 * Pow(2, f.p) && d >= Pow(10, f.maxDigits - 1)
    ensures var M, W := mu * Pow(2, g), Pow(2, f.Quantum() + 1);
      M * Pow(10, en) <= d * W || M * Pow(10, en) >= (d + 1) * W
  {
    hide Pow;
    var Q := f.Quantum();
    TenIsTwoTimesFive(mu, g, en);
    if g + en >= Q + 1 {
      var z := mu * Pow(5, en) * Pow(2, g + en - Q - 1);
      PowAdd(2, g + en - Q - 1, Q + 1);
      MulAssoc(mu * Pow(5, en), Pow(2, g + en - Q - 1), Pow(2, Q + 1));
      if z <= d { MulMonotone(z, d, Pow(2, Q + 1)); } else { MulMonotone(d + 1, z, Pow(2, Q + 1)); }
    } else {
      PowMonotone(2, g + en, Q);
      PowMonotone(5, en, Q);
      BelowAllKept(mu, Pow(5, en), Pow(5, Q), Pow(2, g + en), Pow(2, Q), Pow(2, f.p), d);
      PowSucc(2, Q);
    }
  }

  lemma TenIsTwoTimesFive(mu: nat, g: nat, en: nat)
    ensures (mu * Pow(2, g)) * Pow(10, en) == (mu * Pow(5, en)) * Pow(2, g + en)
  {
    PowProduct(2, 5, en);
    PowAdd(2, g, en);
    var a, b, c := Pow(2, g), Pow(2, en), Pow(5, en);
    calc {
      (mu * a) * (b * c);
      { MulAssoc(mu, a, b * c); }
      mu * (a * (b * c));
      { assert a * (b * c) == c * (a * b); }
      mu * (c * (a * b));
      { MulAssoc(mu, c, a * b); }
      (mu * c) * (a * b);
    }
  }

  lemma BelowAllKept(mu: nat, five: nat, fiveQ: nat, two: nat, twoQ: nat, twoP: nat, d: nat)
    requires mu < 2 * twoP && five <= fiveQ && two <= twoQ && twoP * fiveQ <= d
    ensures (mu * five) * two <= d * (2 * twoQ)
  {
    MulMonotone2(mu, 2 * twoP, five, fiveQ);
    MulMonotone2(mu * five, (2 * twoP) * fiveQ, two, twoQ);
    assert (2 * twoP) * fiveQ == 2 * (twoP * fiveQ);
    MulMonotone(2 * (twoP * fiveQ), 2 * d, twoQ);
  }

  /** Every number strictly inside is on the same side of a point that is not. */
  lemma SideOfInterval(M: nat, d: nat, T: nat, W: nat, X: nat, Y: nat)
    requires T > 0 && W > 0 && Y > 0 && d * Y < X * T < (d + 1) * Y
    ensures M * T <= d * W ==> M * Y < X * W
    ensures M * T >= (d + 1) * W ==> M * Y > X * W
  {
    MulStrict(d * Y, X * T, W);
    MulStrict(X * T, (d + 1) * Y, W);
    MulSwap(M, T, Y);
    MulSwap(X, T, W);
    MulSwap(d, Y, W);
    MulSwap(d + 1, Y, W);
    if M * T <= d * W {
      MulMonotone(M * T, d * W, Y);
      MulCancelLess(M * Y, X * W, T);
    } else if M * T >= (d + 1) * W {
      MulMonotone((d + 1) * W, M * T, Y);
      MulCancelLess(X * W, M * Y, T);
    }
  }

  /** The sign of a midpoint or a pattern's value against any number strictly inside. */
  lemma SideOfNumber(f: Format, M: nat, mu: nat, g: nat, d: nat, e: int, X: nat, Y: nat)
    requires Sized(f) && mu < 2 * Pow(2, f.p) && M == mu * Pow(2, g)
    requires d >= Pow(10, f.maxDigits - 1) && e < 0 && Denotes(10, d, true, e, X, Y)
    ensures var N := X * Pow(2, f.Quantum());
      var below := M * Pow(10, -e) <= d * Pow(2, f.Quantum() + 1);
      (below ==> M * Y < 2 * N) && (!below ==> M * Y > 2 * N)
  {
    hide Pow;
    OffTheInterval(f, mu, g, d, -e);
    SideOfInterval(M, d, Pow(10, -e), Pow(2, f.Quantum() + 1), X, Y);
    PowSucc(2, f.Quantum());
    assert X * (2 * Pow(2, f.Quantum())) == 2 * (X * Pow(2, f.Quantum()));
  }

  lemma MidpointForm(f: Format, b: nat) returns (mu: nat, g: nat)
    requires f.Valid()
    ensures mu < 2 * Pow(2, f.p) && f.Units(b) + f.Units(b + 1) == mu * Pow(2, g)
  {
    hide Pow, Format.Units, Format.Gap;
    var sig, h := f.UnitsForm(b);
    mu, g := 2 * sig + 1, h;
    f.UnitsNext(b);
    assert (2 * sig + 1) * Pow(2, h) == 2 * (sig * Pow(2, h)) + Pow(2, h);
  }

  /** No midpoint and no representable value lies strictly between two neighbouring decimals of maxDigits digits, so
      every number there rounds alike, and none exactly. */
  lemma DroppedDigitsDoNotMatter(f: Format, d: nat, e: int, X1: nat, Y1: nat, X2: nat, Y2: nat, b: nat)
    requires Sized(f) && d >= Pow(10, f.maxDigits - 1) && e < 0
    requires Denotes(10, d, true, e, X1, Y1) && Denotes(10, d, true, e, X2, Y2)
    requires f.Nearest(X1 * Pow(2, f.Quantum()), Y1, b)
    ensures f.Nearest(X2 * Pow(2, f.Quantum()), Y2, b)
    ensures X2 * Pow(2, f.Quantum()) != f.Units(b) * Y2
  {
    hide Pow, Denotes, Format.Nearest, Format.Units;
    var N1, N2 := X1 * Pow(2, f.Quantum()), X2 * Pow(2, f.Quantum());
    assert Y1 > 0 && Y2 > 0 by { DenotesPositive(10, d, true, e, X1, Y1); DenotesPositive(10, d, true, e, X2, Y2); }
    f.NearestIsBetween(N1, Y1, b);
    if b > 0 {
      var mu, g := MidpointForm(f, b - 1);
      SideOfNumber(f, f.Units(b - 1) + f.Units(b), mu, g, d, e, X1, Y1);
      SideOfNumber(f, f.Units(b - 1) + f.Units(b), mu, g, d, e, X2, Y2);
    }
    var mu, g := MidpointForm(f, b);
    SideOfNumber(f, f.Units(b) + f.Units(b + 1), mu, g, d, e, X1, Y1);
    SideOfNumber(f, f.Units(b) + f.Units(b + 1), mu, g, d, e, X2, Y2);
    f.BetweenIsNearest(N2, Y2, b);
    NotExact(f, d, e, X2, Y2, b);
  }

  lemma NotExact(f: Format, d: nat, e: int, X: nat, Y: nat, b: nat)
    requires Sized(f) && d >= Pow(10, f.maxDigits - 1) && e < 0 && Denotes(10, d, true, e, X, Y)
    ensures X * Pow(2, f.Quantum()) != f.Units(b) * Y
  {
    hide Pow, Denotes, Format.Units;
    var sig, h := f.UnitsForm(b);
    assert (2 * sig) * Pow(2, h) == 2 * f.Units(b) by { MulAssoc(2, sig, Pow(2, h)); }
    SideOfNumber(f, 2 * f.Units(b), 2 * sig, h, d, e, X, Y);
    MulAssoc(2, f.Units(b), Y);
  }

  // ---- the fraction ----------------------------------------------------------------------------------

  /** One more digit, a 1, is strictly between the digits kept and the next. */
  lemma OneMoreDigit(d: nat, e: int)
    ensures Denotes(10, d, true, e, (10 * d + 1) * Scale(10, e - 1), Scale(10, 1 - e))
  {
    hide Scale, Denotes;
    AsFraction(10, 10 * d + 1, e - 1);
    DropDigit(10, d, 1, false, e - 1, (10 * d + 1) * Scale(10, e - 1), Scale(10, 1 - e));
  }

  /** What the numerator and the denominator need stays inside the limbs. */
  lemma FractionFits(f: Format, d: nat, n: nat, e: int)
    requires Sized(f) && n <= f.maxDigits + 1 && d < Pow(10, n) && f.decimalBottom <= n + e <= f.decimalTop
    ensures var c := Pow(2, 32 * f.limbs - f.p - 2);
      d * Scale(10, e) < c && Scale(10, -e) < c && c <= Pow(2, 32 * f.limbs)
  {
    hide Pow;
    var m := f.maxDigits + 1 - f.decimalBottom;
    if e >= 0 {
      MulStrict(d, Pow(10, n), Pow(10, e));
      PowAdd(10, n, e);
      PowMonotone(10, n + e, m);
    } else {
      PowMonotone(10, n, m);
      PowMonotone(10, -e, m);
    }
    assert Pow(10, 0) == 1 by { PowZero(10); }
    PowMonotone(2, 32 * f.limbs - f.p - 2, 32 * f.limbs);
    PowMonotone(10, 0, m);
  }

  // ---- the conversion ----------------------------------------------------------------------------------

  /** The number the digits spell; ten times it and one when a digit other than 0 was dropped. */
  method Numerator(f: Format, digits: seq<char>, sticky: bool) returns (num: Big)
    requires Sized(f) && AllDigits(digits) && |digits| <= f.maxDigits
    ensures fresh({num, num.w}) && num.Valid() && num.w.Length == f.limbs
    ensures num.Value() == if sticky then 10 * DecVal(digits) + 1 else DecVal(digits)
    ensures num.Value() < Pow(10, |digits| + if sticky then 1 else 0)
  {
    hide Pow, Big.Value, Big.Capacity, DecVal;
    num := new Big(f.limbs);
    num.CapacityBits();
    num.Set(0);
    NoDigits(digits);
    for i := 0 to |digits|
      invariant fresh({num, num.w}) && num.Valid() && num.w.Length == f.limbs && num.Capacity() == Pow(2, 32 * f.limbs)
      invariant num.Value() == DecVal(digits[..i])
    {
      DigitFits(f, digits, i);
      num.MulSmall(10);
      num.AddSmall(Digit(digits[i]));
    }
    assert digits[..|digits|] == digits;
    DecBound(digits);
    if sticky {
      StickyFits(f, DecVal(digits), |digits|);
      num.MulSmall(10);
      num.AddSmall(1);
    }
  }

  lemma NoDigits(digits: seq<char>)
    requires AllDigits(digits)
    ensures DecVal(digits[..0]) == 0
  {
  }

  lemma DigitFits(f: Format, digits: seq<char>, i: nat)
    requires Sized(f) && AllDigits(digits) && i < |digits| <= f.maxDigits
    ensures DecVal(digits[..i + 1]) == DecVal(digits[..i]) * 10 + Digit(digits[i]) < Pow(2, 32 * f.limbs)
    ensures DecVal(digits[..i]) * 10 < Pow(2, 32 * f.limbs)
  {
    hide Pow;
    DecStep(digits, i);
    DecBound(digits[..i + 1]);
    PowMonotone(10, i + 1, f.maxDigits + 1 - f.decimalBottom);
    PowMonotone(2, 32 * f.limbs - f.p - 2, 32 * f.limbs);
  }

  lemma StickyFits(f: Format, d: nat, n: nat)
    requires Sized(f) && d < Pow(10, n) && n <= f.maxDigits
    ensures d * 10 + 1 < Pow(10, n + 1) && d * 10 + 1 < Pow(2, 32 * f.limbs)
  {
    hide Pow;
    PowSucc(10, n);
    PowMonotone(10, n + 1, f.maxDigits + 1 - f.decimalBottom);
    PowMonotone(2, 32 * f.limbs - f.p - 2, 32 * f.limbs);
  }

  /** Drops the leading zeros. */
  method SkipZeros(digits: seq<char>) returns (d: seq<char>)
    requires AllDigits(digits)
    ensures AllDigits(d) && |d| <= |digits| && DecVal(d) == DecVal(digits)
    ensures d != [] ==> d[0] != '0'
    ensures d == Significant(digits)
  {
    hide DecVal;
    d := digits;
    while |d| > 0 && d[0] == '0'
      invariant AllDigits(d) && |d| <= |digits| && DecVal(d) == DecVal(digits) && Significant(d) == Significant(digits)
    {
      DecZeroFirst(d);
      d := d[1..];
    }
  }

  function Significant(digits: seq<char>): seq<char>
  {
    if digits != [] && digits[0] == '0' then Significant(digits[1..]) else digits
  }

  /** At most maxDigits digits, and whether anything but zeros follows them. */
  method Truncate(f: Format, d: seq<char>, sticky0: bool, exp0: int, ghost X: nat, ghost Y: nat)
    returns (kept: seq<char>, sticky: bool, exp10: int)
    requires Sized(f) && AllDigits(d) && Denotes(10, DecVal(d), sticky0, exp0, X, Y)
    requires sticky0 ==> |d| >= f.maxDigits
    ensures kept <= d && AllDigits(kept) && |kept| <= f.maxDigits && (kept == [] <==> d == [])
    ensures |kept| + exp10 == |d| + exp0 && Denotes(10, DecVal(kept), sticky, exp10, X, Y)
    ensures sticky ==> |kept| == f.maxDigits
  {
    hide Pow, Denotes, DecVal;
    var n := |d|;
    kept, sticky, exp10 := d, sticky0, exp0;
    if n > f.maxDigits {
      KeepDigits(d, f.maxDigits, sticky0, exp0, X, Y);
      for i := f.maxDigits to n
        invariant sticky <==> sticky0 || exists j :: f.maxDigits <= j < i && d[j] != '0'
      {
        if d[i] != '0' {
          sticky := true;
        }
      }
      TailNonzero(d, f.maxDigits);
      kept := d[..f.maxDigits];
      exp10 := exp10 + n - f.maxDigits;
    }
  }

  lemma TailNonzero(d: seq<char>, k: nat)
    requires AllDigits(d) && k <= |d|
    ensures DecVal(d[k..]) > 0 <==> exists j :: k <= j < |d| && d[j] != '0'
  {
    var t := d[k..];
    DecZero(t);
    if j :| k <= j < |d| && d[j] != '0' {
      assert t[j - k] != '0';
    }
  }

  /** The digits kept as a fraction of big integers, rounded. */
  method DecimalFraction(f: Format, kept: seq<char>, sticky: bool, exp0: int, ghost X: nat, ghost Y: nat)
    returns (bits: nat, range: bool)
    requires Sized(f) && AllDigits(kept) && 0 < |kept| <= f.maxDigits && kept[0] != '0'
    requires f.decimalBottom <= |kept| + exp0 <= f.decimalTop
    requires Denotes(10, DecVal(kept), sticky, exp0, X, Y) && (sticky ==> |kept| == f.maxDigits)
    ensures f.RoundsTo(X, Y, bits, range)
  {
    hide Pow, Denotes, DecVal, Scale, Big.Value, Big.Capacity, Format.Nearest, Format.Units, Format.Inf, Format.Hidden;
    var num := Numerator(f, kept, sticky);
    var exp10 := if sticky then exp0 - 1 else exp0;
    ghost var v := num.Value();
    FractionFits(f, v, |kept| + (if sticky then 1 else 0), exp10);
    DecLead(kept);
    var den := new Big(f.limbs);
    num.CapacityBits();
    den.CapacityBits();
    den.Set(1);
    ScaleForms(10, exp10);
    if exp10 >= 0 {
      num.MulPow10(exp10);
    } else {
      den.MulPow10(-exp10);
    }
    MulPositive(v, Scale(10, exp10));
    ItStandsForItself(f, num.Value(), den.Value());
    bits, range := NearestOf(f, num, den, false, num.Value(), den.Value());
    Transfer(f, DecVal(kept), sticky, exp0, num.Value(), den.Value(), X, Y, bits);
  }

  /** b is nearest X/Y, and is X/Y itself exactly if it is num/den. */
  ghost predicate SameRounding(f: Format, num: nat, den: nat, X: nat, Y: nat, b: nat)
    requires f.Valid()
  {
    f.Nearest(X * Pow(2, f.Quantum()), Y, b)
    && (num * Pow(2, f.Quantum()) == f.Units(b) * den <==> X * Pow(2, f.Quantum()) == f.Units(b) * Y)
  }

  /** From the fraction worked on to the number it was made for. */
  lemma Transfer(f: Format, d: nat, sticky: bool, e: int, num: nat, den: nat, X: nat, Y: nat, b: nat)
    requires f.Valid() && f.maxDigits > 0 && f.Nearest(num * Pow(2, f.Quantum()), den, b)
    requires num == (if sticky then (10 * d + 1) * Scale(10, e - 1) else d * Scale(10, e))
    requires den == (if sticky then Scale(10, 1 - e) else Scale(10, -e))
    requires Denotes(10, d, sticky, e, X, Y) && (sticky ==> d >= Pow(10, f.maxDigits - 1) && e < 0) && Sized(f)
    ensures SameRounding(f, num, den, X, Y, b)
  {
    hide Pow, Denotes, Scale, Format.Nearest, Format.Units;
    DenotesPositive(10, d, sticky, e, X, Y);
    if sticky {
      OneMoreDigit(d, e);
      DroppedDigitsDoNotMatter(f, d, e, num, den, X, Y, b);
      NotExact(f, d, e, num, den, b);
    } else {
      ExactTransfer(f, 10, d, e, X, Y, b);
    }
  }

  /** The value nearest X/Y, of which `digits` and exp10 are known, and of what follows only whether it is zero. */
  method Decimal(f: Format, digits: seq<char>, sticky0: bool, exp0: int, ghost X: nat, ghost Y: nat)
    returns (bits: nat, range: bool)
    requires Sized(f) && AllDigits(digits)
    requires Denotes(10, DecVal(digits), sticky0, exp0, X, Y)
    requires sticky0 ==> |Significant(digits)| >= f.maxDigits
    ensures f.RoundsTo(X, Y, bits, range)
  {
    hide Pow, Denotes, Format.Nearest, Format.Units, Format.Inf, Format.Hidden;
    HiddenBelowInf(f);
    var d := SkipZeros(digits);
    var n := |d|;
    if n == 0 {
      ZeroReads(f, 10, exp0, X, Y);
      return 0, false;
    }
    DecLead(d);
    DecBound(d);
    if n + exp0 > f.decimalTop {
      TooLarge(f, 10, DecVal(d), n, sticky0, exp0, X, Y, f.decimalTop);
      return f.Inf(), true;
    }
    if n + exp0 < f.decimalBottom {
      TooSmall(f, 10, DecVal(d), n, sticky0, exp0, X, Y, 1 - f.decimalBottom);
      return 0, true;
    }
    var kept, sticky, exp10 := Truncate(f, d, sticky0, exp0, X, Y);
    bits, range := DecimalFraction(f, kept, sticky, exp10, X, Y);
  }
}
