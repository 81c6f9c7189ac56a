/** Where the cap on a written exponent shows, and where it does not. */
module Saturation {
  import opened Powers
  import opened Digits
  import opened Rounding
  import opened Numerals
  import opened RealText
  import opened TextOf
  import opened Scanning
  import opened StringToReal
  import opened FloatText
  import Reading

  /** D * b^e in units of the smallest subnormal, as a fraction. */
  function Above(f: Format, b: nat, D: nat, e: int): nat
    requires f.Valid()
  {
    D * Scale(b, e) * Pow(2, f.Quantum())
  }

  lemma Shift(b: nat, lo: int, k: nat)
    ensures Scale(b, lo + k) * Scale(b, -lo) == (Scale(b, lo) * Scale(b, -lo - k)) * Pow(b, k)
  {
    hide Pow, Scale;
    ScaleForms(b, lo);
    ScaleForms(b, lo + k);
    if lo >= 0 {
      PowAdd(b, lo, k);
    } else if lo + k >= 0 {
      PowAdd(b, lo + k, -lo);
    } else {
      PowAdd(b, -lo - k, k);
    }
  }

  /** The same digits with a larger exponent: the fractions differ by that power. */
  lemma Larger(f: Format, b: nat, D: nat, lo: int, k: nat)
    requires f.Valid()
    ensures Above(f, b, D, lo + k) * Scale(b, -lo) == (Above(f, b, D, lo) * Scale(b, -lo - k)) * Pow(b, k)
  {
    hide Pow, Scale;
    Shift(b, lo, k);
    var W, p := Pow(2, f.Quantum()), Pow(b, k);
    var s, t, u, v := Scale(b, lo + k), Scale(b, -lo), Scale(b, lo), Scale(b, -lo - k);
    Shuffle(D, W, s, t);
    Shuffle(D, W, u, v);
    MulAssoc(D * W, u * v, p);
  }

  lemma Shuffle(D: nat, W: nat, s: nat, t: nat)
    ensures (D * s * W) * t == (D * W) * (s * t)
  {
    MulSwap(D, s, W);
    MulAssoc(D * W, s, t);
  }

  lemma StillInfinite(f: Format, N1: nat, M1: nat, N2: nat, M2: nat, p: nat)
    requires f.Valid() && M1 > 0 && M2 > 0 && p > 0 && N2 * M1 == (N1 * M2) * p && f.Nearest(N1, M1, f.Inf())
    ensures f.Nearest(N2, M2, f.Inf())
  {
    hide Format.Units, Format.Nearest, Format.Inf;
    HiddenBelowInf(f);
    f.OverflowThreshold(N1, M1);
    f.OverflowThreshold(N2, M2);
    Rises(N1, M1, N2, M2, p, f.Units(f.Inf() - 1) + f.Units(f.Inf()));
  }

  lemma Rises(N1: nat, M1: nat, N2: nat, M2: nat, p: nat, T: nat)
    requires M1 > 0 && M2 > 0 && p > 0 && N2 * M1 == (N1 * M2) * p && T * M1 <= 2 * N1
    ensures T * M2 <= 2 * N2
  {
    MulMonotone(T * M1, 2 * N1, M2);
    MulMonotone(1, p, N1 * M2);
    MulSwap(T, M1, M2);
    MulAssoc(2, N1, M2);
    MulAssoc(2, N2, M1);
    MulCancelLeq(T * M2, 2 * N2, M1);
  }

  lemma StillZero(f: Format, N1: nat, M1: nat, N2: nat, M2: nat, p: nat)
    requires f.Valid() && M1 > 0 && M2 > 0 && p > 0 && N2 * M1 == (N1 * M2) * p && f.Nearest(N2, M2, 0)
    ensures f.Nearest(N1, M1, 0)
  {
    hide Format.Units, Format.Nearest, Format.Inf;
    f.NearestIsBetween(N2, M2, 0);
    HiddenBelowInf(f);
    var T := f.Units(0) + f.Units(1);
    MulMonotone(2 * N2, T * M2, M1);
    MulMonotone(1, p, N1 * M2);
    MulSwap(T, M2, M1);
    MulAssoc(2, N1, M2);
    MulAssoc(2, N2, M1);
    MulCancelLeq(2 * N1, T * M1, M2);
    f.BetweenIsNearest(N1, M1, 0);
  }

  /** Numbers so far apart never round to the same finite value but zero. */
  lemma NotBoth(f: Format, N1: nat, M1: nat, N2: nat, M2: nat, p: nat, bits: nat)
    requires f.Valid() && M1 > 0 && M2 > 0 && N2 * M1 == (N1 * M2) * p && p > 2 * f.Units(f.Inf())
    requires 0 < bits < f.Inf() && f.Nearest(N1, M1, bits)
    ensures !f.Nearest(N2, M2, bits)
  {
    hide Format.Units, Format.Nearest, Format.Inf;
    if f.Nearest(N2, M2, bits) {
      f.NearestIsBetween(N1, M1, bits);
      f.NearestIsBetween(N2, M2, bits);
      f.UnitsMonotone(bits - 1, bits);
      f.UnitsMonotone(bits, bits + 1);
      if bits + 1 < f.Inf() { f.UnitsMonotone(bits + 1, f.Inf()); }
      var lowT, highT := f.Units(bits - 1) + f.Units(bits), f.Units(bits) + f.Units(bits + 1);
      FarApart(N1, M1, N2, M2, p, lowT, highT, 2 * f.Units(f.Inf()));
    }
  }

  lemma FarApart(N1: nat, M1: nat, N2: nat, M2: nat, p: nat, low: nat, high: nat, top: nat)
    requires M1 > 0 && M2 > 0 && N2 * M1 == (N1 * M2) * p && low > 0 && high <= top
    requires low * M1 <= 2 * N1 && 2 * N2 <= high * M2
    ensures p <= top
  {
    MulMonotone(1, low, M1);
    MulMonotone(M1, 2 * N1, M2);
    MulMonotone(M1 * M2, 2 * N1 * M2, p);
    MulMonotone(2 * N2, high * M2, M1);
    MulMonotone(high, top, M2);
    MulMonotone(high * M2, top * M2, M1);
    MulAssoc(2, N1, M2);
    MulAssoc(2, N1 * M2, p);
    MulAssoc(2, N2, M1);
    MulAssoc(top, M2, M1);
    MulPositive(M2, M1);
    assert M2 * M1 == M1 * M2 && (M1 * M2) * p == p * (M1 * M2);
    MulCancelLeq(p, top, M1 * M2);
  }

  // ---- when the cap shows -----------------------------------------------------------------------------------

  /** N/M is no nearer the largest finite value than the power of two after it. */
  predicate Overflows(f: Format, N: nat, M: nat)
    requires f.Valid()
  {
    assert f.Inf() > 0 by { HiddenBelowInf(f); }
    2 * N >= (f.Units(f.Inf() - 1) + f.Units(f.Inf())) * M
  }

  /** N/M is at most half the smallest value above zero. */
  predicate Vanishes(N: nat, M: nat)
  {
    2 * N <= M
  }

  /** Nothing between the two exponents changes the result: there is no digit but 0, or even the smaller number
      overflows, or even the larger one rounds to zero. */
  predicate Decided(f: Format, b: nat, D: nat, lo: int, hi: int)
    requires f.Valid()
  {
    D == 0 || Overflows(f, Above(f, b, D, lo), Scale(b, -lo)) || Vanishes(Above(f, b, D, hi), Scale(b, -hi))
  }

  /** Which is when the nearest pattern is infinity, or zero. */
  lemma Extremes(f: Format, N: nat, M: nat)
    requires f.Valid() && M > 0
    ensures Overflows(f, N, M) <==> f.Nearest(N, M, f.Inf())
    ensures Vanishes(N, M) <==> f.Nearest(N, M, 0)
  {
    hide Format.Units, Format.Nearest, Format.Inf, Format.Hidden;
    HiddenBelowInf(f);
    f.OverflowThreshold(N, M);
    Reading.SubnormalPattern(f, 0);
    if f.Nearest(N, M, 0) { f.NearestIsBetween(N, M, 0); }
    if Vanishes(N, M) { f.BetweenIsNearest(N, M, 0); }
  }

  lemma TellsApart(f: Format, b: nat, D: nat, lo: int, hi: int, bits: nat, range: bool)
    requires f.Valid() && b > 1 && lo <= hi && Pow(b, hi - lo) > 2 * f.Units(f.Inf())
    requires Rounds(f, b, D, lo, bits, range) || Rounds(f, b, D, hi, bits, range)
    ensures Rounds(f, b, D, lo, bits, range) && Rounds(f, b, D, hi, bits, range) <==> Decided(f, b, D, lo, hi)
  {
    hide Pow, Scale, Format.Units, Format.Nearest, Format.Inf, Format.Hidden, Overflows, Vanishes;
    var N1, M1, N2, M2, p := Above(f, b, D, lo), Scale(b, -lo), Above(f, b, D, hi), Scale(b, -hi), Pow(b, hi - lo);
    Extremes(f, N1, M1);
    Extremes(f, N2, M2);
    Larger(f, b, D, lo, hi - lo);
    HiddenBelowInf(f);
    if D == 0 {
      RoundsZero(f, b, lo, bits, range);
      RoundsZero(f, b, hi, bits, range);
    } else {
      Ranges(f, b, D, lo, f.Inf());
      Ranges(f, b, D, hi, f.Inf());
      Ranges(f, b, D, lo, 0);
      Ranges(f, b, D, hi, 0);
      if f.Nearest(N1, M1, f.Inf()) {
        StillInfinite(f, N1, M1, N2, M2, p);
        Only(f, b, D, lo, bits, range, f.Inf());
        Only(f, b, D, hi, bits, range, f.Inf());
      } else if f.Nearest(N2, M2, 0) {
        StillZero(f, N1, M1, N2, M2, p);
        Only(f, b, D, lo, bits, range, 0);
        Only(f, b, D, hi, bits, range, 0);
      } else if Rounds(f, b, D, lo, bits, range) && Rounds(f, b, D, hi, bits, range) {
        AtMostInfinity(f, b, D, lo, bits, range);
        assert 0 < bits < f.Inf();
        NotBoth(f, N1, M1, N2, M2, p, bits);
      }
    }
  }

  /** Infinity and zero are always out of range for a number that is not zero. */
  lemma Ranges(f: Format, b: nat, D: nat, e: int, r: nat)
    requires f.Valid() && b > 1 && D > 0
    requires r == 0 || r == f.Inf()
    ensures f.Nearest(Above(f, b, D, e), Scale(b, -e), r) <==> Rounds(f, b, D, e, r, true)
    ensures !Rounds(f, b, D, e, r, false)
  {
    hide Pow, Scale, Format.Units, Format.Inf, Format.Hidden;
    HiddenBelowInf(f);
    Reading.SubnormalPattern(f, 0);
    MulPositive(D, Scale(b, e));
    MulPositive(D * Scale(b, e), Pow(2, f.Quantum()));
  }

  lemma AtMostInfinity(f: Format, b: nat, D: nat, e: int, bits: nat, range: bool)
    requires f.Valid() && Rounds(f, b, D, e, bits, range)
    ensures bits <= f.Inf()
  {
    hide Pow, Scale, Format.Units, Format.Inf, Format.Hidden;
  }

  lemma Only(f: Format, b: nat, D: nat, e: int, bits: nat, range: bool, r: nat)
    requires f.Valid() && b > 1 && f.Nearest(Above(f, b, D, e), Scale(b, -e), r) && Rounds(f, b, D, e, r, true)
    ensures Rounds(f, b, D, e, bits, range) <==> bits == r && range
  {
    hide Pow, Scale, Format.Units, Format.Inf, Format.Hidden, Format.Nearest;
    if Rounds(f, b, D, e, bits, range) {
      f.NearestUnique(Above(f, b, D, e), Scale(b, -e), bits, r);
    }
  }

  // ---- whole texts --------------------------------------------------------------------------------------------

  /** Reading with the exponent that is kept gives what the text says. */
  ghost predicate Harmless(f: Format, n: Parsed)
    requires f.Valid()
  {
    var lost := KeptExponent(n.written) - n.written;
    -1000000 < n.written < 1000000 ||
    match n.number
    case Hexadecimal(d, e) => AllDigitsOf(true, d) && Decided(f, 2, HexVal(d), Min(e, e + lost), Max(e, e + lost))
    case Decimal(d, e) => AllDigits(d) && Decided(f, 10, DecVal(d), Min(e, e + lost), Max(e, e + lost))
    case _ => true
  }

  /** What is read is right if and only if what is lost of the exponent decides nothing. */
  lemma SaturationShows(f: Format, n: Parsed, bits: nat, range: bool)
    requires Readable(f) && ReadsAs(f, KeptNumber(n), bits, range)
    ensures ReadsAs(f, n.number, bits, range) <==> Harmless(f, n)
  {
    hide Rounds, Decided, DecVal, HexVal, Pow, Format.Inf, Format.Units, Format.Hidden, KeptDigits;
    var lost := KeptExponent(n.written) - n.written;
    if -1000000 < n.written < 1000000 {
      KeptSmall(n.written);
    } else {
      LostALot(n.written);
      FarEnough(f, 2, if lost < 0 then 0 - lost else lost);
      FarEnough(f, 10, if lost < 0 then 0 - lost else lost);
      match n.number
      case Hexadecimal(d, e) => TellsApart(f, 2, HexVal(d), Min(e, e + lost), Max(e, e + lost), bits, range);
      case Decimal(d, e) => TellsApart(f, 10, DecVal(d), Min(e, e + lost), Max(e, e + lost), bits, range);
      case _ =>
    }
  }

  lemma LostALot(w: int)
    requires w <= -1000000 || 1000000 <= w
    ensures var lost := KeptExponent(w) - w; lost <= -900000 || 900000 <= lost
  {
    hide KeptDigits;
    KeptAtLeast(if w < 0 then 0 - w else w);
  }

  lemma FarEnough(f: Format, b: nat, k: nat)
    requires Readable(f) && k >= 900000 && b > 1
    ensures Pow(b, k) > 2 * f.Units(f.Inf())
  {
    hide Pow, Format.Inf, Format.Units;
    var n := f.bias + 2 + f.Quantum();
    InfUnitsPower(f);
    PowSucc(2, n - 1);
    PowStrict(2, n, k);
    PowBaseMonotone(2, b, k);
  }

  /** Every text: where it ends, and its number - exactly when the cap on the exponent is harmless. */
  method ReadExactly(f: Format, s: string) returns (pattern: nat, end: nat, range: bool)
    requires Readable(f)
    ensures end == Parse(s).end && pattern >= SignOfText(f, s)
    ensures ReadsAs(f, Parse(s).number, pattern - SignOfText(f, s), range) <==> Harmless(f, Parse(s))
  {
    hide ReadsAs, Harmless, KeptNumber, Parse, SignOfText;
    pattern, end, range := Strtod(f, s);
    SaturationShows(f, Parse(s), pattern - SignOfText(f, s), range);
  }

  /** 0.000...01e+1000001 with n zeros after the point. */
  function Long(n: nat): string
  {
    "0." + (Repeat(n, '0') + "1") + "e+1000001"
  }

  lemma LongLaidOut(n: nat)
    ensures var s, l := Long(n), Layout(0, 1, true, n + 3, n + 12);
      && 0 < |s| && l.In(s, false) && l.Digits(s) == "0" + (Repeat(n, '0') + "1")
      && l.Written(s) == 1000001 && IsDigit(s[0])
  {
    hide DecVal;
    var s, z := Long(n), Repeat(n, '0') + "1";
    assert s[2..n + 3] == z && s[..1] == "0" && s[n + 5..n + 12] == "1000001";
    assert forall i :: 2 <= i < n + 3 ==> s[i] == z[i - 2];
    assert s[n + 3] == 'e' && s[n + 4] == '+' && s[1] == '.';
    SevenDigits();
  }

  lemma LongDigits(n: nat)
    ensures var d := "0" + (Repeat(n, '0') + "1"); AllDigits(d) && DecVal(d) == 1
  {
    hide DecVal, Pow;
    DecSingle('1');
    BetweenZeros("0" + Repeat(n, '0'), "1", "");
    PowZero(10);
    assert "0" + Repeat(n, '0') + "1" + "" == "0" + (Repeat(n, '0') + "1");
  }

  lemma LongParses(n: nat)
    ensures var d := "0" + (Repeat(n, '0') + "1");
      AllDigits(d) && DecVal(d) == 1 && Parse(Long(n)) == Parsed(Decimal(d, 1000000 - n), n + 12, 1000001)
  {
    hide DecVal, Parse, Unsigned, Long, Repeat, Layout.In, Layout.Digits, Layout.Written;
    LongLaidOut(n);
    LongDigits(n);
    StartsAt(Long(n), 0, false);
    DecimalLaidOut(Layout(0, 1, true, n + 3, n + 12), Long(n));
    ParseIs(Long(n), 0);
  }

  lemma SevenDigits()
    ensures AllDigits("1000001") && DecVal("1000001") == 1000001
  {
    hide DecVal;
    DecSingle('1');
    DecPush("1", '0');
    DecPush("10", '0');
    DecPush("100", '0');
    DecPush("1000", '0');
    DecPush("10000", '0');
    DecPush("100000", '1');
    assert "1" + ['0'] == "10" && "10" + ['0'] == "100" && "100" + ['0'] == "1000" && "1000" + ['0'] == "10000";
    assert "10000" + ['0'] == "100000" && "100000" + ['1'] == "1000001";
  }

  /** With a million zeros it spells 1, and is read as 0. */
  lemma LongReadsZero(f: Format)
    requires Readable(f)
    ensures ReadsAs(f, KeptNumber(Parse(Long(1000000))), 0, true)
    ensures !ReadsAs(f, Parse(Long(1000000)).number, 0, true) && !Harmless(f, Parse(Long(1000000)))
  {
    hide DecVal, Parse, Rounds, Long, Repeat, Harmless, Format.Inf, Format.Hidden;
    LongParses(1000000);
    var n := Parse(Long(1000000));
    assert KeptExponent(1000001) == 100000 by { assert KeptDigits(1000001) == KeptDigits(100000); }
    SmallEnough(f);
    OneIsNotZero(f);
    SaturationShows(f, n, 0, true);
  }

  lemma SmallEnough(f: Format)
    requires Readable(f)
    ensures Rounds(f, 10, 1, -900001, 0, true)
  {
    hide Pow, Rounds;
    PowOne(10);
    assert Pow(2, f.Quantum() + 1) <= Pow(10, 1 - f.decimalBottom);
    RoundsDown(f, 10, 1, 1, -900001, 1 - f.decimalBottom);
  }

  lemma OneIsNotZero(f: Format)
    requires f.Valid()
    ensures !Rounds(f, 10, 1, 0, 0, true)
  {
    hide Pow, Format.Nearest;
    ScaleForms(10, 0);
    PowZero(10);
    var N := 1 * Scale(10, 0) * Pow(2, f.Quantum());
    HiddenBelowInf(f);
    Reading.SubnormalPattern(f, 0);
    PowMonotone(2, 0, f.Quantum());
    PowZero(2);
    if f.Nearest(N, 1, 0) {
      f.NearestIsBetween(N, 1, 0);
    }
  }
}
