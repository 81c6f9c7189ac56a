/** The scanner of floating text: the digits worth keeping, whether any dropped one matters, and the exponent left. */
module Scanning {
  import opened Powers
  import opened Digits
  import opened RealText
  import opened Rounding
  import opened Numerals

  // ---- what is kept of a mantissa ----------------------------------------------------------------------

  /** The digits kept, as d, and the exponent left for them say all of a mantissa D with `fraction` digits after its
      point that matters. */
  ghost predicate Keeps(b: nat, D: nat, fraction: nat, d: nat, sticky: bool, places: int)
  {
    places + fraction >= 0 &&
    var p := Pow(b, places + fraction);
    d * p <= D < (d + 1) * p && (sticky <==> D != d * p)
  }

  lemma KeepsNothing(b: nat, fraction: nat)
    ensures Keeps(b, 0, fraction, 0, false, 0 - fraction as int)
  {
    PowZero(b);
  }

  /** A digit kept: nothing was dropped before it. */
  lemma KeepOne(b: nat, D: nat, fraction: nat, d: nat, x: nat, point: bool)
    requires Keeps(b, D, fraction, d, false, 0 - fraction as int)
    ensures var fraction' := fraction + if point then 1 else 0;
      Keeps(b, b * D + x, fraction', b * d + x, false, 0 - fraction' as int)
  {
    PowZero(b);
  }

  /** A digit dropped. */
  lemma DropOne(b: nat, D: nat, fraction: nat, d: nat, sticky: bool, places: int, x: nat, point: bool)
    requires Keeps(b, D, fraction, d, sticky, places) && x < b
    ensures Keeps(b, b * D + x, fraction + (if point then 1 else 0), d, sticky || x != 0,
                  places + if point then 0 else 1)
  {
    var k := places + fraction;
    PowSucc(b, k);
    DropArithmetic(b, D, d, x, Pow(b, k));
  }

  lemma DropArithmetic(b: nat, D: nat, d: nat, x: nat, p: nat)
    requires d * p <= D < (d + 1) * p && x < b
    ensures d * (b * p) <= b * D + x < (d + 1) * (b * p)
    ensures b * D + x == d * (b * p) <==> D == d * p && x == 0
  {
    assert d * (b * p) == b * (d * p) by { MulAssoc(d, b, p); MulAssoc(b, d, p); }
    assert (d + 1) * (b * p) == b * ((d + 1) * p) by { MulAssoc(d + 1, b, p); MulAssoc(b, d + 1, p); }
    MulMonotone(d * p, D, b);
    MulMonotone(D + 1, (d + 1) * p, b);
    Distribute(D, 1, b);
    if D > d * p { MulStrict(d * p, D, b); }
  }

  /** What the whole mantissa denotes, the digits kept do. */
  lemma KeptDenotes(b: nat, D: nat, fraction: nat, d: nat, sticky: bool, places: int, e: int, X: nat, Y: nat)
    requires b > 0 && Keeps(b, D, fraction, d, sticky, places) && Denotes(b, D, false, e - fraction, X, Y)
    ensures Denotes(b, d, sticky, e + places, X, Y)
  {
    hide Denotes;
    var k := places + fraction;
    DropMany(b, D - d * Pow(b, k), d, k, e - fraction, X, Y);
  }

  lemma {:induction false} DropMany(b: nat, rest: nat, d: nat, k: nat, e: int, X: nat, Y: nat)
    requires b > 0 && rest < Pow(b, k) && Denotes(b, d * Pow(b, k) + rest, false, e, X, Y)
    ensures Denotes(b, d, rest > 0, e + k, X, Y)
  {
    DropManyFrom(b, rest, d, k, false, e, X, Y);
  }

  lemma {:induction false} DropManyFrom(b: nat, rest: nat, d: nat, k: nat, dropped: bool, e: int, X: nat, Y: nat)
    requires b > 0 && rest < Pow(b, k) && Denotes(b, d * Pow(b, k) + rest, dropped, e, X, Y)
    ensures Denotes(b, d, dropped || rest > 0, e + k, X, Y)
    decreases k
  {
    hide Denotes, Pow;
    if k == 0 {
      PowZero(b);
    } else {
      PowSucc(b, k - 1);
      var q, r := rest / b, rest % b;
      DivModIdentity(rest, b);
      DropLast(b, rest, q, r, d, Pow(b, k - 1));
      DropDigit(b, d * Pow(b, k - 1) + q, r, dropped, e, X, Y);
      DropManyFrom(b, q, d, k - 1, dropped || r > 0, e + 1, X, Y);
      if q > 0 { MulMonotone(1, q, b); }
    }
  }

  lemma DropLast(b: nat, rest: nat, q: nat, r: nat, d: nat, p: nat)
    requires rest == q * b + r && r < b && rest < b * p
    ensures q < p && d * (b * p) + rest == b * (d * p + q) + r
    ensures rest > 0 <==> q > 0 || r > 0
  {
    if q >= p { MulMonotone(p, q, b); }
    assert d * (b * p) == b * (d * p) by { MulAssoc(d, b, p); MulAssoc(b, d, p); }
    if q > 0 { MulMonotone(1, q, b); }
  }

  // ---- the exponent ------------------------------------------------------------------------------------

  /** What the scanner keeps of an exponent: its six leading digits when there are more. */
  function KeptDigits(v: nat): nat
  {
    if v < 1000000 then v else KeptDigits(v / 10)
  }

  function KeptExponent(w: int): int
  {
    if w < 0 then 0 - KeptDigits(0 - w) else KeptDigits(w)
  }

  lemma {:induction false} KeptAtLeast(v: nat)
    ensures KeptDigits(v) <= v && KeptDigits(v) < 1000000 && (v >= 100000 ==> KeptDigits(v) >= 100000)
    ensures v >= 1000000 ==> 10 * KeptDigits(v) <= v
  {
    if v < 1000000 {
    } else {
      KeptAtLeast(v / 10);
    }
  }

  lemma KeptIsCapped(w: int)
    ensures Capped(KeptExponent(w), w) && -1000000 < KeptExponent(w) < 1000000
  {
    hide KeptDigits;
    KeptAtLeast(if w < 0 then 0 - w else w);
    if -1000000 < w < 1000000 { KeptSmall(w); }
  }

  lemma KeptSmall(w: int)
    requires -1000000 < w < 1000000
    ensures KeptExponent(w) == w
  {
  }

  /** An exponent as the scanner keeps it: exact, or past 100000 and so is the one written, on the same side. */
  predicate Capped(e: int, written: int)
  {
    e == written || (100000 <= e <= written && 1000000 <= written) || (written <= e <= -100000 && written <= -1000000)
  }

  method ReadExponent(s: string, p: nat, letter: char, capital: char) returns (e: int, end: nat)
    requires p <= |s| && letter != '\0' && capital != '\0'
    ensures end == ExponentAt(s, p, letter, capital).end
    ensures e == KeptExponent(ExponentAt(s, p, letter, capital).value)
  {
    hide DecVal, KeptDigits;
    KeptSmall(0);
    if At(s, p) == letter || At(s, p) == capital {
      var q := p + 1;
      var negative := false;
      if At(s, q) == '-' {
        negative := true;
        q := q + 1;
      } else if At(s, q) == '+' {
        q := q + 1;
      }
      if IsDigit(At(s, q)) {
        var v, end' := ReadCapped(s, q);
        return if negative then -v else v, end';
      }
    }
    return 0, p;
  }

  /** Digits added up as far as they matter. */
  method ReadCapped(s: string, start: nat) returns (v: int, q: nat)
    requires start <= |s| && IsDigit(At(s, start))
    ensures q == DigitsEnd(s, start) && q <= |s| && AllDigits(s[start..q])
    ensures v == KeptDigits(DecVal(s[start..q]))
  {
    hide DecVal, KeptDigits;
    v, q := 0, start;
    NoDigits(s, start);
    KeptSmall(0);
    while IsDigit(At(s, q))
      invariant start <= q <= |s| && DigitsEnd(s, start) == DigitsEnd(s, q) && AllDigits(s[start..q])
      invariant v == KeptDigits(DecVal(s[start..q]))
      decreases |s| - q
    {
      assert s[start..q + 1] == s[start..q] + [s[q]];
      DecPush(s[start..q], s[q]);
      KeepsDigit(DecVal(s[start..q]), Digit(s[q]));
      if v < 100000 {
        v := v * 10 + Digit(s[q]);
      }
      q := q + 1;
    }
  }

  /** One more digit joins an exponent that has fewer than six. */
  lemma KeepsDigit(v: nat, x: nat)
    requires x < 10
    ensures KeptDigits(v * 10 + x) == if KeptDigits(v) < 100000 then KeptDigits(v) * 10 + x else KeptDigits(v)
  {
    KeptAtLeast(v);
    assert (v * 10 + x) / 10 == v;
  }

  lemma NoDigits(s: string, p: nat)
    requires p <= |s|
    ensures DecVal(s[p..p]) == 0
  {
  }

  // ---- a mantissa from left to right ---------------------------------------------------------------

  /** The digits done and those from p on are the whole mantissa that starts at p0. */
  ghost predicate DoneUpTo(s: string, p0: nat, p: nat, point: bool, hex: bool, done: seq<char>, fraction: nat)
  {
    p0 <= |s| && p <= |s| && AllDigitsOf(hex, done) &&
    var rest := MantissaAt(s, p, point, hex);
    MantissaAt(s, p0, false, hex) == Mantissa(done + rest.digits, fraction + rest.fraction, rest.end)
  }

  lemma DoneNothing(s: string, p0: nat, hex: bool)
    requires p0 <= |s|
    ensures DoneUpTo(s, p0, p0, false, hex, [], 0)
  {
    var m := MantissaAt(s, p0, false, hex);
    assert [] + m.digits == m.digits;
  }

  lemma DonePoint(s: string, p0: nat, p: nat, hex: bool, done: seq<char>, fraction: nat)
    requires DoneUpTo(s, p0, p, false, hex, done, fraction) && At(s, p) == '.'
    ensures DoneUpTo(s, p0, p + 1, true, hex, done, fraction)
  {
  }

  lemma DoneDigit(s: string, p0: nat, p: nat, point: bool, hex: bool, done: seq<char>, fraction: nat)
    requires DoneUpTo(s, p0, p, point, hex, done, fraction) && IsDigitOf(hex, At(s, p))
    ensures p < |s| && DoneUpTo(s, p0, p + 1, point, hex, done + [s[p]], fraction + if point then 1 else 0)
  {
    var rest := MantissaAt(s, p + 1, point, hex);
    assert done + ([s[p]] + rest.digits) == (done + [s[p]]) + rest.digits;
  }

  lemma DoneAll(s: string, p0: nat, p: nat, point: bool, hex: bool, done: seq<char>, fraction: nat)
    requires DoneUpTo(s, p0, p, point, hex, done, fraction)
    requires !IsDigitOf(hex, At(s, p)) && !(At(s, p) == '.' && !point)
    ensures MantissaAt(s, p0, false, hex) == Mantissa(done, fraction, p)
  {
    assert done + [] == done;
  }

  // ---- decimal mantissas -------------------------------------------------------------------------------

  /** The state between two digits: what is kept of a mantissa of value D so far. */
  ghost predicate Scanned(kept: seq<char>, max: nat, sticky: bool, dexp: int, D: nat, fraction: nat)
  {
    |kept| <= max && AllDigits(kept) && (kept != [] ==> kept[0] != '0') && (sticky ==> |kept| == max)
    && (|kept| < max ==> dexp == 0 - fraction as int) && (kept == [] ==> D == 0)
    && Keeps(10, D, fraction, DecVal(kept), sticky, dexp)
  }

  lemma NothingScanned(kept: seq<char>, max: nat)
    requires kept == [] && max > 0
    ensures Scanned(kept, max, false, 0, DecVal([]), 0)
  {
    KeepsNothing(10, 0);
  }

  lemma ScanLeadingZero(max: nat, sticky: bool, dexp: int, D: nat, fraction: nat, point: bool)
    requires Scanned([], max, sticky, dexp, D, fraction) && max > 0
    ensures Scanned([], max, sticky, dexp - if point then 1 else 0, 10 * D, fraction + if point then 1 else 0)
  {
    KeepsNothing(10, fraction + if point then 1 else 0);
  }

  lemma ScanKept(kept: seq<char>, max: nat, sticky: bool, dexp: int, D: nat, fraction: nat, c: char, point: bool)
    requires Scanned(kept, max, sticky, dexp, D, fraction) && |kept| < max && IsDigit(c) && (kept != [] || c != '0')
    ensures Scanned(kept + [c], max, sticky, dexp - (if point then 1 else 0), 10 * D + Digit(c),
                    fraction + if point then 1 else 0)
  {
    hide Keeps, DecVal;
    KeepOne(10, D, fraction, DecVal(kept), Digit(c), point);
    DecPush(kept, c);
  }

  lemma ScanDropped(kept: seq<char>, max: nat, sticky: bool, dexp: int, D: nat, fraction: nat, c: char, point: bool)
    requires Scanned(kept, max, sticky, dexp, D, fraction) && |kept| == max && max > 0 && IsDigit(c)
    ensures Scanned(kept, max, sticky || c != '0', dexp + (if point then 0 else 1), 10 * D + Digit(c),
                    fraction + if point then 1 else 0)
  {
    hide Keeps, DecVal;
    DropOne(10, D, fraction, DecVal(kept), sticky, dexp, Digit(c), point);
  }

  /** One digit of the mantissa: skipped, kept or dropped. */
  method TakeDigit(max: nat, c: char, point: bool, digits: array<char>, nd0: nat, sticky0: bool, dexp0: int,
                   ghost D: nat, ghost fraction: nat)
    returns (nd: nat, sticky: bool, dexp: int)
    requires 0 < max <= digits.Length && nd0 <= max && IsDigit(c)
    requires Scanned(digits[..nd0], max, sticky0, dexp0, D, fraction)
    modifies digits
    ensures nd <= max && dexp0 - 1 <= dexp <= dexp0 + 1
    ensures Scanned(digits[..nd], max, sticky, dexp, 10 * D + Digit(c), fraction + if point then 1 else 0)
  {
    hide Scanned;
    nd, sticky, dexp := nd0, sticky0, dexp0;
    ghost var kept := digits[..nd];
    if nd == 0 && c == '0' {
      ScanLeadingZero(max, sticky, dexp, D, fraction, point);
      if point {
        dexp := dexp - 1;
      }
    } else if nd < max {
      ScanKept(kept, max, sticky, dexp, D, fraction, c, point);
      digits[nd] := c;
      nd := nd + 1;
      assert digits[..nd] == kept + [c];
      if point {
        dexp := dexp - 1;
      }
    } else {
      ScanDropped(kept, max, sticky, dexp, D, fraction, c, point);
      if c != '0' {
        sticky := true;
      }
      if !point {
        dexp := dexp + 1;
      }
    }
  }

  method ScanDigits(max: nat, s: string, p0: nat, digits: array<char>)
    returns (any: bool, nd: nat, sticky: bool, dexp: int, p: nat)
    requires p0 <= |s| && 0 < max <= digits.Length
    modifies digits
    ensures var m := MantissaAt(s, p0, false, false);
      && (any <==> m.digits != []) && p == m.end && AllDigits(m.digits) && nd <= max
      && Scanned(digits[..nd], max, sticky, dexp, DecVal(m.digits), m.fraction)
    ensures p0 <= p <= |s| && p0 - p <= dexp <= p - p0
  {
    hide DecVal, Scanned;
    p, any, nd, sticky, dexp := p0, false, 0, false, 0;
    var point := false;
    ghost var done: seq<char>, fraction: nat := [], 0;
    NothingScanned(digits[..0], max);
    DoneNothing(s, p0, false);
    hide MantissaAt, DoneUpTo;
    while true
      invariant p0 <= p <= |s| && nd <= max && AllDigits(done) && p0 - p <= dexp <= p - p0
      invariant DoneUpTo(s, p0, p, point, false, done, fraction)
      invariant any <==> done != []
      invariant Scanned(digits[..nd], max, sticky, dexp, DecVal(done), fraction)
      decreases |s| - p
    {
      if At(s, p) == '.' && !point {
        DonePoint(s, p0, p, false, done, fraction);
        point := true;
        p := p + 1;
        continue;
      }
      if !IsDigit(At(s, p)) {
        DoneAll(s, p0, p, point, false, done, fraction);
        break;
      }
      any := true;
      DoneDigit(s, p0, p, point, false, done, fraction);
      var c := s[p];
      nd, sticky, dexp := TakeDigit(max, c, point, digits, nd, sticky, dexp, DecVal(done), fraction);
      DecPush(done, c);
      done := done + [c];
      fraction := fraction + if point then 1 else 0;
      p := p + 1;
    }
  }

  // ---- hexadecimal mantissas -----------------------------------------------------------------------------

  /** The state between two hexadecimal digits: up to 64 bits of a mantissa of value D so far. */
  ghost predicate HexScanned(h: nat, sticky: bool, exp2: int, D: nat, fraction: nat)
  {
    h < Pow(2, 64) && (sticky ==> h >= Pow(2, 60)) && (h < Pow(2, 60) ==> exp2 == -4 * fraction)
    && exp2 % 4 == 0 && Keeps(16, D, fraction, h, sticky, exp2 / 4)
  }

  lemma NoHexScanned()
    ensures HexScanned(0, false, 0, HexVal([]), 0)
  {
    KeepsNothing(16, 0);
  }

  lemma HexPush(s: seq<char>, c: char)
    requires AllDigitsOf(true, s) && IsDigitOf(true, c)
    ensures AllDigitsOf(true, s + [c]) && HexVal(s + [c]) == 16 * HexVal(s) + HexDigit(c)
  {
    assert (s + [c])[..|s|] == s;
  }

  lemma HexKept(h: nat, sticky: bool, exp2: int, D: nat, fraction: nat, x: nat, point: bool)
    requires HexScanned(h, sticky, exp2, D, fraction) && h < Pow(2, 60) && x < 16
    ensures HexScanned(16 * h + x, sticky, exp2 - (if point then 4 else 0), 16 * D + x,
                       fraction + if point then 1 else 0)
  {
    hide Keeps, Pow;
    KeepOne(16, D, fraction, h, x, point);
    PowAdd(2, 60, 4);
    FirstPowers();
    assert exp2 / 4 == 0 - fraction as int;
  }

  lemma HexDropped(h: nat, sticky: bool, exp2: int, D: nat, fraction: nat, x: nat, point: bool)
    requires HexScanned(h, sticky, exp2, D, fraction) && h >= Pow(2, 60) && x < 16
    ensures HexScanned(h, sticky || x != 0, exp2 + (if point then 0 else 4), 16 * D + x,
                       fraction + if point then 1 else 0)
  {
    hide Keeps, Pow;
    DropOne(16, D, fraction, h, sticky, exp2 / 4, x, point);
  }

  /** One hexadecimal digit: into the 64 bits while the top four are free, else dropped. */
  method TakeHexDigit(h0: nat, sticky0: bool, exp0: int, d: nat, point: bool, ghost D: nat, ghost fraction: nat)
    returns (h: nat, sticky: bool, exp2: int)
    requires d < 16 && HexScanned(h0, sticky0, exp0, D, fraction)
    ensures HexScanned(h, sticky, exp2, 16 * D + d, fraction + if point then 1 else 0) && exp0 - 4 <= exp2 <= exp0 + 4
  {
    hide HexScanned, Pow;
    h, sticky, exp2 := h0, sticky0, exp0;
    TopSixty(h);
    if h / 0x1000_0000_0000_0000 == 0 {
      HexKept(h, sticky, exp2, D, fraction, d, point);
      h := h * 16 + d;
      if point {
        exp2 := exp2 - 4;
      }
    } else {
      HexDropped(h, sticky, exp2, D, fraction, d, point);
      if d != 0 {
        sticky := true;
      }
      if !point {
        exp2 := exp2 + 4;
      }
    }
  }

  /** The state after the mantissa digits `done`. */
  ghost predicate HexSoFar(h: nat, sticky: bool, exp2: int, done: seq<char>, fraction: nat)
  {
    AllDigitsOf(true, done) && HexScanned(h, sticky, exp2, HexVal(done), fraction)
  }

  lemma NoHexSoFar()
    ensures HexSoFar(0, false, 0, [], 0)
  {
    NoHexScanned();
  }

  lemma HexAllDone(h: nat, sticky: bool, exp2: int, done: seq<char>, fraction: nat)
    requires HexSoFar(h, sticky, exp2, done, fraction)
    ensures AllDigitsOf(true, done) && HexScanned(h, sticky, exp2, HexVal(done), fraction)
  {
  }

  method TakeHexChar(c: char, h0: nat, sticky0: bool, exp0: int, point: bool, ghost done: seq<char>,
                     ghost fraction: nat)
    returns (h: nat, sticky: bool, exp2: int)
    requires IsDigitOf(true, c) && HexSoFar(h0, sticky0, exp0, done, fraction)
    ensures HexSoFar(h, sticky, exp2, done + [c], fraction + if point then 1 else 0) && exp0 - 4 <= exp2 <= exp0 + 4
  {
    hide HexScanned, HexVal, Pow;
    HexPush(done, c);
    h, sticky, exp2 := TakeHexDigit(h0, sticky0, exp0, HexDigit(c), point, HexVal(done), fraction);
  }

  method ScanHex(s: string, p0: nat) returns (any: bool, h: nat, sticky: bool, exp2: int, p: nat)
    requires p0 <= |s|
    ensures var m := MantissaAt(s, p0, false, true);
      (any <==> m.digits != []) && p == m.end && HexScanned(h, sticky, exp2, HexVal(m.digits), m.fraction)
    ensures p0 <= p <= |s| && -4 * (p - p0) <= exp2 <= 4 * (p - p0)
  {
    hide MantissaAt, DoneUpTo, HexSoFar, HexScanned, HexVal, HexDigit, AllDigitsOf, IsDigitOf, Pow;
    p, any, h, sticky, exp2 := p0, false, 0, false, 0;
    var point := false;
    ghost var done: seq<char>, fraction: nat := [], 0;
    NoHexSoFar();
    DoneNothing(s, p0, true);
    while true
      invariant p0 <= p <= |s| && DoneUpTo(s, p0, p, point, true, done, fraction)
      invariant -4 * (p - p0) <= exp2 <= 4 * (p - p0)
      invariant any <==> |done| > 0
      invariant HexSoFar(h, sticky, exp2, done, fraction)
      decreases |s| - p
    {
      if At(s, p) == '.' && !point {
        DonePoint(s, p0, p, true, done, fraction);
        point := true;
        p := p + 1;
        continue;
      }
      if !IsDigitOf(true, At(s, p)) {
        DoneAll(s, p0, p, point, true, done, fraction);
        break;
      }
      any := true;
      DoneDigit(s, p0, p, point, true, done, fraction);
      var c := s[p];
      h, sticky, exp2 := TakeHexChar(c, h, sticky, exp2, point, done, fraction);
      done := done + [c];
      fraction := fraction + if point then 1 else 0;
      p := p + 1;
    }
    HexAllDone(h, sticky, exp2, done, fraction);
  }

  lemma PowSixty()
    ensures Pow(2, 60) == 0x1000_0000_0000_0000
  {
    hide Pow;
    FirstPowers();
    PowAdd(2, 10, 10);
    PowAdd(2, 20, 20);
    PowAdd(2, 40, 20);
  }

  /** None of the top four of 64 bits is set. */
  lemma TopSixty(h: nat)
    ensures h / 0x1000_0000_0000_0000 == 0 <==> h < Pow(2, 60)
  {
    hide Pow;
    PowSixty();
  }

  /** Hexadecimal places are four binary ones. */
  lemma HexKeeps(D: nat, fraction: nat, h: nat, sticky: bool, places: int)
    requires Keeps(16, D, fraction, h, sticky, places)
    ensures Keeps(2, D, 4 * fraction, h, sticky, 4 * places)
  {
    hide Pow;
    PowMultiply(2, 4, places + fraction);
    FirstPowers();
  }
}
