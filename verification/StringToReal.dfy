/** strtod and strtof: the text of a number to the nearest value of the format. */
module StringToReal {
  import opened Powers
  import opened Digits
  import opened Rounding
  import opened Sizes
  import opened Numerals
  import opened RealText
  import opened Scanning
  import opened RoundTrip
  import DecimalReading
  import BinaryReading

  /** A format both conversions are sized for, and whose exponents a capped one is far outside of. */
  ghost predicate Readable(f: Format)
  {
    Sized(f) && BinaryReading.Roomy(f) && f.decimalTop <= 20000 && -20000 <= f.decimalBottom
    && f.bias + 1 <= 20000 && f.Quantum() + 1 <= 18000
  }

  lemma BothReadable()
    ensures Readable(Binary64) && Readable(Binary32)
  {
    hide Pow;
    Binary64Sized();
    Binary32Sized();
    BinaryReading.BothRoomy();
  }

  /** What scan_real leaves for the conversions: struct real_text. */
  datatype Scan =
    | ScanNone
    | ScanInfinity
    | ScanNotANumber
    | ScanHexadecimal(h: nat, hexSticky: bool, exp2: int)
    | ScanDecimal(nd: nat, sticky: bool, exp10: int)

  /** The scan stands for the number parsed, but for the cap on its exponent. */
  ghost predicate Stands(t: Scan, digits: seq<char>, max: nat, n: Parsed, cap: int)
  {
    match n.number
    case NoNumber => t.ScanNone?
    case Infinity => t.ScanInfinity?
    case NotANumber => t.ScanNotANumber?
    case Hexadecimal(d, e) =>
      t.ScanHexadecimal? && AllDigitsOf(true, d) && Capped(cap, n.written) && n.written >= e && (n.written - e) % 4 == 0
      && (n.written - e) / 4 <= |d| <= n.end
      && HexScanned(t.h, t.hexSticky, t.exp2 - cap, HexVal(d), (n.written - e) / 4)
    case Decimal(d, e) =>
      t.ScanDecimal? && AllDigits(d) && Capped(cap, n.written) && t.nd <= |digits| && 0 <= n.written - e <= |d| <= n.end
      && Scanned(digits[..t.nd], max, t.sticky, t.exp10 - cap, DecVal(d), n.written - e)
  }

  /** The exponent is one of the machine's 32-bit integers. */
  predicate FitsInt(t: Scan)
  {
    match t
    case ScanHexadecimal(_, _, e) => -0x8000_0000 <= e < 0x8000_0000
    case ScanDecimal(_, _, e) => -0x8000_0000 <= e < 0x8000_0000
    case _ => true
  }

  method ScanReal(s: string, max: nat, digits: array<char>) returns (t: Scan, negative: bool, end: nat, ghost cap: int)
    requires 0 < max <= digits.Length
    modifies digits
    ensures end == Parse(s).end && negative == Negative(s) && cap == KeptExponent(Parse(s).written)
    ensures Stands(t, digits[..], max, Parse(s), cap)
    ensures |s| <= 0x1000_0000 ==> FitsInt(t)
  {
    hide Unsigned, Stands;
    var p := 0;
    while IsSpace(At(s, p))
      invariant p <= |s| && SkipSpaces(s, 0) == SkipSpaces(s, p)
      decreases |s| - p
    {
      p := p + 1;
    }
    negative := At(s, p) == '-';
    if At(s, p) == '-' || At(s, p) == '+' {
      p := p + 1;
    }
    t, end, cap := ScanUnsigned(s, p, max, digits);
  }

  method ScanUnsigned(s: string, p: nat, max: nat, digits: array<char>) returns (t: Scan, end: nat, ghost cap: int)
    requires 0 < max <= digits.Length && p <= |s|
    modifies digits
    ensures end == Unsigned(s, p).end && Stands(t, digits[..], max, Unsigned(s, p), cap)
    ensures cap == KeptExponent(Unsigned(s, p).written)
    ensures |s| <= 0x1000_0000 ==> FitsInt(t)
  {
    hide DecVal, HexVal, MantissaAt, ExponentAt, Scanned, HexScanned, MatchesWord, KeptExponent, Capped;
    KeptSmall(0);
    KeptIsCapped(0);
    cap := 0;
    if MatchesWord(s, p, "inf") {
      return ScanInfinity, if MatchesWord(s, p, "infinity") then p + 8 else p + 3, cap;
    }
    if MatchesWord(s, p, "nan") {
      return ScanNotANumber, p + 3, cap;
    }
    if At(s, p) == '0' && (At(s, p + 1) == 'x' || At(s, p + 1) == 'X') {
      var any, h, sticky, exp2, q := ScanHex(s, p + 2);
      if any {
        var e;
        e, end := ReadExponent(s, q, 'p', 'P');
        KeptIsCapped(ExponentAt(s, q, 'p', 'P').value);
        return ScanHexadecimal(h, sticky, exp2 + e), end, e;
      }
      JustZero(digits[..0], max);
      return ScanDecimal(0, false, 0), p + 1, cap;
    }
    var any, nd, sticky, dexp, q := ScanDigits(max, s, p, digits);
    if !any {
      return ScanNone, 0, cap;
    }
    var e;
    e, end := ReadExponent(s, q, 'e', 'E');
    KeptIsCapped(ExponentAt(s, q, 'e', 'E').value);
    assert digits[..][..nd] == digits[..nd];
    return ScanDecimal(nd, sticky, dexp + e), end, e;
  }

  lemma JustZero(kept: seq<char>, max: nat)
    requires kept == [] && max > 0
    ensures AllDigits("0") && Scanned(kept, max, false, 0, DecVal("0"), 0)
  {
    DecSingle('0');
    KeepsNothing(10, 0);
  }

  // ---- the value --------------------------------------------------------------------------------------

  /** bits is nearest D * b^e, and range says whether it overflowed, or underflowed inexactly. */
  ghost predicate Rounds(f: Format, b: nat, D: nat, e: int, bits: nat, range: bool)
    requires f.Valid()
  {
    f.RoundsTo(D * Scale(b, e), Scale(b, -e), bits, range)
  }

  /** What a format makes of a number: the pattern of its magnitude, and whether errno becomes ERANGE. */
  ghost predicate ReadsAs(f: Format, n: Real, bits: nat, range: bool)
    requires f.Valid()
  {
    match n
    case NoNumber => bits == 0 && !range
    case Infinity => bits == f.Inf() && !range
    case NotANumber => bits == f.Inf() + f.Hidden() / 2 && !range
    case Hexadecimal(d, e) => AllDigitsOf(true, d) && Rounds(f, 2, HexVal(d), e, bits, range)
    case Decimal(d, e) => AllDigits(d) && Rounds(f, 10, DecVal(d), e, bits, range)
  }

  /** Both exponents put the number above the largest value of the format, or both below the smallest. */
  ghost predicate SameSide(f: Format, b: nat, n: nat, e: int, e': int)
  {
    e == e'
    || (exists k: nat :: Pow(2, f.bias + 1) <= Pow(b, k) && k <= e && k <= e')
    || (f.Valid() && exists k: nat :: Pow(2, f.Quantum() + 1) <= Pow(b, k) && n + e + k <= 0 && n + e' + k <= 0)
  }

  lemma CapRounds(f: Format, b: nat, D: nat, n: nat, e: int, e': int, bits: nat, range: bool)
    requires f.Valid() && b > 1 && D < Pow(b, n) && Rounds(f, b, D, e, bits, range) && SameSide(f, b, n, e, e')
    ensures Rounds(f, b, D, e', bits, range)
  {
    hide Pow, Scale, Format.Nearest, Format.Inf, Format.Units, Format.Hidden;
    HiddenBelowInf(f);
    if e == e' {
    } else if D == 0 {
      RoundsZero(f, b, e, bits, range);
      RoundsZero(f, b, e', bits, range);
    } else if k: nat :| Pow(2, f.bias + 1) <= Pow(b, k) && k <= e && k <= e' {
      RoundsUp(f, b, D, e, k);
      RoundsUp(f, b, D, e', k);
      f.NearestUnique(D * Scale(b, e) * Pow(2, f.Quantum()), Scale(b, -e), bits, f.Inf());
    } else {
      var k: nat :| Pow(2, f.Quantum() + 1) <= Pow(b, k) && n + e + k <= 0 && n + e' + k <= 0;
      RoundsDown(f, b, D, n, e, k);
      RoundsDown(f, b, D, n, e', k);
      f.NearestUnique(D * Scale(b, e) * Pow(2, f.Quantum()), Scale(b, -e), bits, 0);
    }
  }

  lemma RoundsZero(f: Format, b: nat, e: int, bits: nat, range: bool)
    requires f.Valid() && b > 1
    ensures Rounds(f, b, 0, e, bits, range) <==> bits == 0 && !range
  {
    hide Pow, Scale, Format.Nearest, Format.Inf, Format.Hidden;
    HiddenBelowInf(f);
    AsFraction(b, 0, e);
    var X, Y := 0 * Scale(b, e), Scale(b, -e);
    ZeroReads(f, b, e, X, Y);
    if f.Nearest(X * Pow(2, f.Quantum()), Y, bits) {
      f.NearestUnique(X * Pow(2, f.Quantum()), Y, bits, 0);
    }
  }

  lemma RoundsUp(f: Format, b: nat, D: nat, e: int, k: nat)
    requires f.Valid() && b > 1 && D > 0 && Pow(2, f.bias + 1) <= Pow(b, k) && k <= e
    ensures Rounds(f, b, D, e, f.Inf(), true)
  {
    hide Pow, Scale, Format.Nearest, Format.Inf, Format.Units, Format.Hidden;
    PowZero(b);
    AsFraction(b, D, e);
    TooLarge(f, b, D, 1, false, e, D * Scale(b, e), Scale(b, -e), k);
  }

  lemma RoundsDown(f: Format, b: nat, D: nat, n: nat, e: int, k: nat)
    requires f.Valid() && b > 1 && 0 < D < Pow(b, n) && Pow(2, f.Quantum() + 1) <= Pow(b, k) && n + e + k <= 0
    ensures Rounds(f, b, D, e, 0, true)
  {
    hide Pow, Scale, Format.Nearest, Format.Inf, Format.Units, Format.Hidden;
    HiddenBelowInf(f);
    AsFraction(b, D, e);
    TooSmall(f, b, D, n, false, e, D * Scale(b, e), Scale(b, -e), k);
  }

  lemma DecimalSides(f: Format, n: nat, fraction: nat, cap: int, written: int)
    requires Readable(f) && Capped(cap, written) && fraction <= n
    requires -1000000 < written < 1000000 || n <= 20000
    ensures SameSide(f, 10, n, cap - fraction, written - fraction)
  {
    hide Pow;
    if cap != written {
      if cap > 0 {
        assert Pow(2, f.bias + 1) <= Pow(10, f.decimalTop) && f.decimalTop <= cap - fraction;
      } else {
        assert Pow(2, f.Quantum() + 1) <= Pow(10, 1 - f.decimalBottom);
        assert n + (cap - fraction) + (1 - f.decimalBottom) <= 0;
      }
    }
  }

  lemma HexSides(f: Format, n: nat, fraction: nat, cap: int, written: int)
    requires Readable(f) && Capped(cap, written) && fraction <= n
    requires -1000000 < written < 1000000 || n <= 20000
    ensures SameSide(f, 2, 4 * n, cap - 4 * fraction, written - 4 * fraction)
  {
    hide Pow;
    if cap != written {
      if cap > 0 {
        assert f.bias + 1 <= cap - 4 * fraction;
      } else {
        assert 4 * n + (cap - 4 * fraction) + (f.Quantum() + 1) <= 0;
      }
    }
  }

  lemma {:induction false} HexBound(s: seq<char>)
    requires AllDigitsOf(true, s)
    ensures HexVal(s) < Pow(2, 4 * |s|)
  {
    if s == [] {
    } else {
      HexBound(s[..|s| - 1]);
      PowAdd(2, 4, 4 * (|s| - 1));
      FirstPowers();
    }
  }

  /** The decimal digits scanned, converted. */
  method ConvertDecimal(f: Format, kept: seq<char>, sticky: bool, exp10: int, ghost d: seq<char>, ghost e: int,
                        ghost written: int, ghost cap: int)
    returns (bits: nat, range: bool)
    requires Readable(f) && AllDigits(d) && 0 <= written - e <= |d| && Capped(cap, written)
    requires Scanned(kept, f.maxDigits, sticky, exp10 - cap, DecVal(d), written - e)
    ensures Rounds(f, 10, DecVal(d), e + cap - written, bits, range)
    ensures -1000000 < written < 1000000 || |d| <= 20000 ==> Rounds(f, 10, DecVal(d), e, bits, range)
  {
    hide Pow, Scale, DecVal, Denotes, Keeps, Format.Nearest, Format.Inf, Format.Units, Format.Hidden, SameSide;
    ghost var fraction := written - e;
    ghost var e' := cap - fraction;
    ghost var X, Y := DecVal(d) * Scale(10, e'), Scale(10, -e');
    AsFraction(10, DecVal(d), e');
    KeptDenotes(10, DecVal(d), fraction, DecVal(kept), sticky, exp10 - cap, cap, X, Y);
    bits, range := DecimalReading.Decimal(f, kept, sticky, exp10, X, Y);
    if -1000000 < written < 1000000 || |d| <= 20000 {
      DecBound(d);
      DecimalSides(f, |d|, fraction, cap, written);
      CapRounds(f, 10, DecVal(d), |d|, e', e, bits, range);
    }
  }

  /** The hexadecimal significand scanned, converted. */
  method ConvertHexadecimal(f: Format, h: nat, sticky: bool, exp2: int, ghost d: seq<char>, ghost e: int,
                            ghost written: int, ghost cap: int)
    returns (bits: nat, range: bool)
    requires Readable(f) && AllDigitsOf(true, d) && Capped(cap, written)
    requires 0 <= written - e && (written - e) % 4 == 0 && (written - e) / 4 <= |d|
    requires HexScanned(h, sticky, exp2 - cap, HexVal(d), (written - e) / 4)
    ensures Rounds(f, 2, HexVal(d), e + cap - written, bits, range)
    ensures -1000000 < written < 1000000 || |d| <= 20000 ==> Rounds(f, 2, HexVal(d), e, bits, range)
  {
    hide Pow, Scale, HexVal, Denotes, Keeps, Format.Nearest, Format.Inf, Format.Units, Format.Hidden, SameSide;
    ghost var fraction := (written - e) / 4;
    ghost var e' := cap - 4 * fraction;
    ghost var X, Y := HexVal(d) * Scale(2, e'), Scale(2, -e');
    AsFraction(2, HexVal(d), e');
    HexKeeps(HexVal(d), fraction, h, sticky, (exp2 - cap) / 4);
    KeptDenotes(2, HexVal(d), 4 * fraction, h, sticky, exp2 - cap, cap, X, Y);
    bits, range := BinaryReading.Binary(f, h, sticky, exp2, X, Y);
    if -1000000 < written < 1000000 || |d| <= 20000 {
      HexBound(d);
      HexSides(f, |d|, fraction, cap, written);
      CapRounds(f, 2, HexVal(d), 4 * |d|, e', e, bits, range);
    }
  }

  /** The weight of the sign bit. */
  function SignBit(f: Format): nat
    requires f.Valid()
  {
    (f.Top() + 1) * f.Hidden()
  }

  /** A number as the scanner reads it: with what it keeps of the exponent. */
  function KeptNumber(n: Parsed): Real
  {
    var lost := KeptExponent(n.written) - n.written;
    match n.number
    case Hexadecimal(d, e) => Hexadecimal(d, e + lost)
    case Decimal(d, e) => Decimal(d, e + lost)
    case _ => n.number
  }

  /** The sign bit a text sets: of a number, or of an infinity. */
  function SignOfText(f: Format, s: string): nat
    requires f.Valid()
  {
    if Negative(s) && !Parse(s).number.NotANumber? && !Parse(s).number.NoNumber? then SignBit(f) else 0
  }

  /**
   * The pattern of the number a text spells, its sign included, where the number ends, and whether it was out of range.
   * The number is read with the exponent the scanner keeps, which makes no difference while ExponentHolds.
   */
  method Strtod(f: Format, s: string) returns (pattern: nat, end: nat, range: bool)
    requires Readable(f)
    ensures end == Parse(s).end && pattern >= SignOfText(f, s)
    ensures ReadsAs(f, KeptNumber(Parse(s)), pattern - SignOfText(f, s), range)
    ensures ExponentHolds(s) ==> ReadsAs(f, Parse(s).number, pattern - SignOfText(f, s), range)
  {
    hide Parse, Negative, Scanned, HexScanned, Rounds, Format.Inf, Format.Hidden, SignBit, DecVal, HexVal, KeptExponent;
    var digits := new char[f.maxDigits];
    var t, negative, end', cap := ScanReal(s, f.maxDigits, digits);
    end := end';
    range := false;
    ghost var n := Parse(s);
    ParseEnds(s);
    match t {
      case ScanNone => return 0, end, false;
      case ScanInfinity => pattern := f.Inf();
      case ScanNotANumber => return f.Inf() + f.Hidden() / 2, end, false;
      case ScanHexadecimal(h, sticky, exp2) =>
        pattern, range := ConvertHexadecimal(f, h, sticky, exp2, n.number.digits, n.number.exp2, n.written, cap);
      case ScanDecimal(nd, sticky, exp10) =>
        assert digits[..][..nd] == digits[..nd];
        pattern, range := ConvertDecimal(f, digits[..nd], sticky, exp10, n.number.digits, n.number.exp10, n.written,
                                         cap);
    }
    if negative {
      pattern := pattern + SignBit(f);
    }
  }

  lemma ParseEnds(s: string)
    ensures Parse(s).number.Decimal? || Parse(s).number.Hexadecimal? ==> Parse(s).end <= |s|
  {
  }
}
