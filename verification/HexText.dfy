/** printf's %a, and both round trips through text. */
module HexText {
  import opened Powers
  import opened Digits
  import opened Rounding
  import opened Numerals
  import opened DigitRounding
  import opened DigitsOf
  import opened RoundTrip
  import opened RealText
  import opened TextOf
  import opened Scanning
  import opened StringToReal
  import opened FloatText
  import Reading

  // ---- %e and back ------------------------------------------------------------------------------------------

  /** Enough digits in text read back as the pattern they were printed from, whatever the layout. */
  method PrintThenRead(f: Format, pattern: nat, upper: bool, prec: nat, width: int, flags: Flags) returns (back: nat)
    requires Readable(f) && pattern < 2 * SignBit(f) && Magnitude(f, pattern) < f.Inf() && EnoughDigits(f, prec + 1)
    ensures back == pattern
  {
    hide Pow, SignBit, Format.Inf, Parse, Negative, PrintsRounded, ReadsAs, ExponentHolds, EnoughDigits;
    var t := FormatE(f, pattern, upper, prec, width, flags);
    var end, range;
    back, end, range := Strtod(f, t);
    ReadBackIs(f, Magnitude(f, pattern), prec + 1, Parse(t).number,
               back - (if pattern >= SignBit(f) then SignBit(f) else 0), range);
  }

  lemma ReadBackIs(f: Format, bits: nat, P: nat, n: Real, back: int, range: bool)
    requires f.Valid() && bits < f.Inf() && P > 0 && EnoughDigits(f, P) && PrintsRounded(f, bits, P, n)
    ensures n.Decimal?
    ensures back >= 0 && ReadsAs(f, n, back, range) ==> back == bits
  {
    hide Pow, Scale, DecVal, LeadsAt, RoundedUnits, Format.Inf, Format.Nearest, EnoughDigits;
    var d, e := DecVal(n.digits), n.exp10;
    var N, D := d * Scale(10, e) * Pow(2, f.Quantum()), Scale(10, -e);
    if bits == 0 {
      AsFraction(10, 0, e);
      ZeroReads(f, 10, e, 0 * Scale(10, e), Scale(10, -e));
    } else {
      var x: int :| LeadsAt(f, bits, x) && e >= x - P + 1
        && d * Pow(10, e - (x - P + 1)) == RoundedUnits(f, bits, x - P + 1);
      EnoughDigitsReadBack(f, bits, x, P);
      ShiftedReads(f, d, e, RoundedUnits(f, bits, x - P + 1), x - P + 1, bits);
    }
    if back >= 0 && ReadsAs(f, n, back, range) {
      f.NearestUnique(N, D, bits, back);
    }
  }

  // ---- %a ---------------------------------------------------------------------------------------------------

  /** How many hexadecimal digits hold the fraction of a significand: thirteen of a double, six of a float. */
  function HexPlaces(f: Format): nat
    requires f.Valid()
  {
    (f.p + 2) / 4
  }

  function HexChar(x: nat, upper: bool): (c: char)
    requires x < 16
    ensures IsDigitOf(true, c) && HexDigit(c) == x && (x < 10 ==> IsDigit(c))
  {
    if x < 10 then '0' + x as char else if upper then 'A' + (x - 10) as char else 'a' + (x - 10) as char
  }

  /** The value as a hexadecimal number with `places` digits after the point, and the power of two it is scaled by. */
  lemma HexValue(f: Format, bits: nat)
    requires f.Valid() && f.p > 2 && 0 <= bits < f.Inf()
    ensures var k := 4 * HexPlaces(f);
      var biased, frac, lead := bits / f.Hidden(), bits % f.Hidden(), if bits / f.Hidden() != 0 then 1 else 0;
      var e := if biased != 0 then biased - f.bias else 1 - f.bias;
      k >= f.p - 1 && e - k + f.Quantum() + k >= 0 &&
      (lead * Pow(2, k) + frac * Pow(2, k - (f.p - 1))) * Pow(2, e + f.Quantum()) == f.Units(bits) * Pow(2, k)
  {
    hide Pow, Format.Hidden;
    var k := 4 * HexPlaces(f);
    var biased, frac := bits / f.Hidden(), bits % f.Hidden();
    var b := if biased != 0 then biased - 1 else 0;
    HexPowers(f, k, b);
    HexProducts(f.Hidden(), frac, biased != 0, Pow(2, k - (f.p - 1)), Pow(2, b), Pow(2, k), Pow(2, f.p - 1 + b));
  }

  lemma HexPowers(f: Format, k: nat, b: nat)
    requires f.Valid() && k >= f.p - 1
    ensures Pow(2, k) == Pow(2, k - (f.p - 1)) * f.Hidden() && Pow(2, f.p - 1 + b) == Pow(2, b) * f.Hidden()
    ensures Pow(2, 0) == 1
  {
    hide Pow;
    PowAdd(2, k - (f.p - 1), f.p - 1);
    PowAdd(2, b, f.p - 1);
    PowZero(2);
    HiddenIs(f);
  }

  lemma HexProducts(h: nat, frac: nat, normal: bool, up: nat, two: nat, whole: nat, scale: nat)
    requires whole == up * h && scale == two * h && (!normal ==> two == 1)
    ensures ((if normal then 1 else 0) * whole + frac * up) * scale
      == (if normal then (h + frac) * two else frac) * whole
  {
    var m := if normal then h + frac else frac;
    Distribute(h, frac, up);
    assert up * h == h * up;
    Interchange(m, up, two, h);
  }

  lemma HiddenIs(f: Format)
    requires f.Valid()
    ensures f.Hidden() == Pow(2, f.p - 1)
  {
  }

  /** Digit i after the point of a fraction of n hexadecimal digits. */
  function Nibble(frac: nat, n: nat, i: nat): (x: nat)
    requires i < n
    ensures x < 16
  {
    frac / Pow(16, n - 1 - i) % 16
  }

  lemma NibbleStep(frac: nat, n: nat, i: nat)
    requires i < n
    ensures frac / Pow(16, n - 1 - i) == 16 * (frac / Pow(16, n - i)) + Nibble(frac, n, i)
  {
    var p := Pow(16, n - 1 - i);
    assert Pow(16, n - i) == 16 * p;
    var q := frac / p;
    DivModIdentity(frac, p);
    DivModIdentity(q, 16);
    var a, b, r := q / 16, q % 16, frac % p;
    Distribute(a * 16, b, p);
    MulAssoc(a, 16, p);
    MulMonotone(b, 15, p);
    DivModUnique(frac, a, 16 * p, b * p + r);
  }

  lemma {:induction false} HexZeros(d: seq<char>, zeros: nat)
    requires AllDigitsOf(true, d)
    ensures AllDigitsOf(true, d + Repeat(zeros, '0')) && HexVal(d + Repeat(zeros, '0')) == HexVal(d) * Pow(16, zeros)
    decreases zeros
  {
    hide HexVal, Pow;
    if zeros == 0 {
      assert d + Repeat(0, '0') == d;
      PowZero(16);
    } else {
      HexZeros(d, zeros - 1);
      assert d + Repeat(zeros, '0') == (d + Repeat(zeros - 1, '0')) + ['0'];
      HexPush(d + Repeat(zeros - 1, '0'), '0');
      PowSucc(16, zeros - 1);
      MulAssoc(HexVal(d), 16, Pow(16, zeros - 1));
      MulSwap(HexVal(d), 16, Pow(16, zeros - 1));
    }
  }

  lemma {:induction false} HexLeadingZeros(Z: seq<char>, d: seq<char>)
    requires AllDigitsOf(true, d) && forall i :: 0 <= i < |Z| ==> Z[i] == '0'
    ensures AllDigitsOf(true, Z + d) && HexVal(Z + d) == HexVal(d)
    decreases |Z| + |d|
  {
    if d != [] {
      assert (Z + d)[..|Z + d| - 1] == Z + d[..|d| - 1];
      HexLeadingZeros(Z, d[..|d| - 1]);
    } else if Z != [] {
      assert Z + d == Z;
      assert Z[..|Z| - 1] + d == Z[..|Z| - 1];
      HexLeadingZeros(Z[..|Z| - 1], d);
    }
  }

  /** A number that is a pattern's value reads as the pattern. */
  lemma ExactReads(f: Format, b: nat, D: nat)
    requires f.Valid() && b < f.Inf() && D > 0
    ensures f.Nearest(f.Units(b) * D, D, b)
  {
    hide Format.Units, Format.Inf;
    f.UnitsMonotone(b, b + 1);
    MulStrict(f.Units(b), f.Units(b + 1), D);
    Distribute(f.Units(b), f.Units(b + 1), D);
    f.RoundAtIsNearest(f.Units(b) * D, D, b);
  }

  /** From T * 2^(E + k + Q) == U * 2^k to the two sides of the fraction T * 2^E. */
  lemma ScaledSides(T: nat, U: nat, E: int, k: nat, Q: nat)
    requires E + k + Q >= 0 && T * Pow(2, E + k + Q) == U * Pow(2, k)
    ensures T * Scale(2, E) * Pow(2, Q) == U * Scale(2, -E)
  {
    hide Pow, Scale;
    ScaleForms(2, E);
    if E >= 0 {
      PowAdd(2, E, Q);
      PowAdd(2, E + Q, k);
      MulAssoc(T, Pow(2, E), Pow(2, Q));
      MulAssoc(T, Pow(2, E + Q), Pow(2, k));
      MulCancelEq(T * Pow(2, E + Q), U, Pow(2, k));
    } else {
      PowAdd(2, E + k + Q, -E);
      PowAdd(2, Q, k);
      MulAssoc(T, Pow(2, E + k + Q), Pow(2, -E));
      MulAssoc(T, Pow(2, Q), Pow(2, k));
      MulSwap(U, Pow(2, k), Pow(2, -E));
      MulCancelEq(T * Pow(2, Q), U * Pow(2, -E), Pow(2, k));
    }
  }

  /** The digits shown, with k' binary places, are the value. */
  lemma ShownIsValue(f: Format, bits: nat, full: nat, T: nat, k: nat, k': nat, e: int)
    requires f.Valid() && bits < f.Inf() && e + f.Quantum() >= 0
    requires full * Pow(2, e + f.Quantum()) == f.Units(bits) * Pow(2, k) && T * Pow(2, k) == full * Pow(2, k')
    ensures T * Scale(2, e - k') * Pow(2, f.Quantum()) == f.Units(bits) * Scale(2, k' - e)
    ensures f.Nearest(T * Scale(2, e - k') * Pow(2, f.Quantum()), Scale(2, k' - e), bits)
  {
    hide Pow, Scale, Format.Units, Format.Inf, Format.Nearest;
    var g, U := e + f.Quantum(), f.Units(bits);
    MulSwap(T, Pow(2, k), Pow(2, g));
    MulSwap(full, Pow(2, k'), Pow(2, g));
    MulSwap(U, Pow(2, k), Pow(2, k'));
    MulCancelEq(T * Pow(2, g), U * Pow(2, k'), Pow(2, k));
    ScaledSides(T, U, e - k', k', f.Quantum());
    ExactReads(f, bits, Scale(2, k' - e));
  }

  // ---- the layout of %a -------------------------------------------------------------------------------------

  /** The fraction's digits worth showing: all of them, or without the zeros at the end. */
  method ShownPlaces(frac: nat, n: nat, all: bool) returns (digits: nat)
    requires frac < Pow(16, n)
    ensures digits <= n && (all ==> digits == n)
    ensures frac == frac / Pow(16, n - digits) * Pow(16, n - digits)
  {
    hide Pow;
    digits := n;
    PowZero(16);
    while !all && digits > 0 && Nibble(frac, n, digits - 1) == 0
      invariant digits <= n && (all ==> digits == n) && frac == frac / Pow(16, n - digits) * Pow(16, n - digits)
    {
      NibbleStep(frac, n, digits - 1);
      PowSucc(16, n - digits);
      var q, p := frac / Pow(16, n - digits + 1), Pow(16, n - digits);
      MulAssoc(q, 16, p);
      digits := digits - 1;
    }
  }

  /** The fraction cut to `prec` digits, to nearest with ties to even, with a carry into the leading digit. */
  method RoundPlaces(lead0: nat, frac0: nat, n: nat, prec: nat) returns (lead: nat, frac: nat)
    requires lead0 <= 1 && prec < n && frac0 < Pow(16, n)
    ensures lead <= 2 && frac < Pow(16, n)
    ensures lead * Pow(16, prec) + frac / Pow(16, n - prec) == RoundEven(lead0 * Pow(16, n) + frac0, Pow(16, n - prec))
  {
    hide Pow, RoundEven;
    HexUnits(n, prec);
    var unit, places := Reading.Power2(4 * (n - prec)), Reading.Power2(4 * prec);
    lead, frac := RoundDigits(lead0, frac0, places, unit, prec > 0);
  }

  method RoundDigits(lead0: nat, frac0: nat, places: nat, unit: nat, some: bool) returns (lead: nat, frac: nat)
    requires unit > 0 && unit % 2 == 0 && places > 0 && frac0 < places * unit
    requires if some then places % 2 == 0 else places == 1
    ensures lead <= lead0 + 1 && frac < places * unit
    ensures lead * places + frac / unit == RoundEven(lead0 * (places * unit) + frac0, unit)
  {
    hide RoundEven;
    var kept := RoundKept(lead0, frac0, places, unit, some);
    lead, frac := Carry(lead0, kept, places, unit);
  }

  method RoundKept(lead: nat, frac: nat, places: nat, unit: nat, some: bool) returns (kept: nat)
    requires unit > 0 && unit % 2 == 0 && places > 0 && frac < places * unit
    requires if some then places % 2 == 0 else places == 1
    ensures kept <= places && lead * places + kept == RoundEven(lead * (places * unit) + frac, unit)
  {
    hide RoundEven;
    kept := frac / unit;
    var rest, half := frac % unit, unit / 2;
    KeptBelow(frac, places, unit);
    DivModIdentity(frac, unit);
    var last := if some then kept else lead;
    RoundsAt(lead, frac, places, unit, kept, rest, last, some);
    if rest > half || (rest == half && last % 2 == 1) {
      kept := kept + 1;
    }
  }

  method Carry(lead0: nat, kept0: nat, places: nat, unit: nat) returns (lead: nat, frac: nat)
    requires unit > 0 && 0 < places && kept0 <= places
    ensures lead <= lead0 + 1 && frac < places * unit && lead * places + frac / unit == lead0 * places + kept0
  {
    var kept := kept0;
    lead := lead0;
    if kept / places != 0 {
      CarriedOut(lead0, kept, places);
      kept := kept % places;
      lead := lead + 1;
    } else {
      NotCarried(kept, places);
    }
    frac := kept * unit;
    MulStrict(kept, places, unit);
    DivModUnique(frac, kept, unit, 0);
  }

  lemma HexUnits(n: nat, prec: nat)
    requires prec < n
    ensures Pow(2, 4 * (n - prec)) == Pow(16, n - prec) && Pow(2, 4 * prec) == Pow(16, prec)
    ensures Pow(16, n) == Pow(16, prec) * Pow(16, n - prec) && Pow(16, n - prec) % 2 == 0 && Pow(16, n - prec) > 0
    ensures if prec > 0 then Pow(16, prec) % 2 == 0 && Pow(16, prec) > 0 else Pow(16, prec) == 1
  {
    hide Pow;
    FirstPowers();
    PowMultiply(2, 4, n - prec);
    PowMultiply(2, 4, prec);
    PowAdd(16, prec, n - prec);
    EvenPower(n - prec);
    PowZero(16);
    if prec > 0 {
      EvenPower(prec);
    }
  }

  lemma EvenPower(k: nat)
    requires k > 0
    ensures Pow(16, k) > 0 && Pow(16, k) % 2 == 0
  {
    var p := Pow(16, k - 1);
    DivModUnique(Pow(16, k), 8 * p, 2, 0);
  }

  lemma KeptBelow(frac: nat, places: nat, unit: nat)
    requires unit > 0 && frac < places * unit
    ensures frac / unit < places
  {
    DivModIdentity(frac, unit);
    if frac / unit >= places {
      MulMonotone(places, frac / unit, unit);
    }
  }

  lemma CarriedOut(lead: nat, kept: nat, places: nat)
    requires 0 < kept <= places && kept / places != 0
    ensures kept % places == 0 && (lead + 1) * places + 0 == lead * places + kept
  {
    Distribute(lead, 1, places);
    if kept < places {
      DivModUnique(kept, 0, places, kept);
    } else {
      DivModUnique(kept, 1, places, 0);
    }
  }

  lemma NotCarried(kept: nat, places: nat)
    requires kept <= places && places > 0 && kept / places == 0
    ensures kept < places
  {
    if kept == places {
      DivModUnique(kept, 1, places, 0);
    }
  }

  /** Rounding the fraction's digits rounds the whole number they end. */
  lemma RoundsAt(lead: nat, frac: nat, places: nat, unit: nat, kept: nat, rest: nat, last: nat, some: bool)
    requires rest < unit && unit % 2 == 0 && frac == kept * unit + rest && kept < places
    requires if some then places % 2 == 0 && last == kept else places == 1 && last == lead
    ensures var up := if rest > unit / 2 || (rest == unit / 2 && last % 2 == 1) then 1 else 0;
      lead * places + (kept + up) == RoundEven(lead * (places * unit) + frac, unit)
  {
    hide RoundEven;
    MulAssoc(lead, places, unit);
    Distribute(lead * places, kept, unit);
    SameParity(lead, places, kept, last, some);
    RoundEvenFrom(lead * (places * unit) + frac, unit, lead * places + kept, rest);
  }

  lemma SameParity(lead: nat, places: nat, kept: nat, last: nat, some: bool)
    requires kept < places && if some then places % 2 == 0 && last == kept else places == 1 && last == lead
    ensures (lead * places + kept) % 2 == last % 2
  {
    if some {
      MulAssoc(lead, places / 2, 2);
      DivModIdentity(kept, 2);
      Distribute(lead * (places / 2), kept / 2, 2);
      DivModUnique(lead * places + kept, lead * (places / 2) + kept / 2, 2, kept % 2);
    }
  }

  lemma RoundEvenFrom(a: nat, b: nat, q: nat, r: nat)
    requires r < b && a == q * b + r
    ensures RoundEven(a, b) == if 2 * r > b then q + 1 else if 2 * r < b then q else q + q % 2
  {
    DivModUnique(a, q, b, r);
  }

  /** The digits of a fraction, a nibble at a time. */
  method HexDigits(frac: nat, n: nat, digits: nat, upper: bool) returns (s: seq<char>)
    requires frac < Pow(16, n) && digits <= n
    ensures |s| == digits && AllDigitsOf(true, s) && HexVal(s) == frac / Pow(16, n - digits)
  {
    hide Pow, HexVal;
    s := [];
    NoFraction(frac, n);
    for i := 0 to digits
      invariant |s| == i && AllDigitsOf(true, s) && HexVal(s) == frac / Pow(16, n - i)
    {
      NibbleStep(frac, n, i);
      HexPush(s, HexChar(Nibble(frac, n, i), upper));
      s := s + [HexChar(Nibble(frac, n, i), upper)];
    }
  }

  lemma NoFraction(frac: nat, n: nat)
    requires frac < Pow(16, n)
    ensures HexVal([]) == frac / Pow(16, n)
  {
    DivModUnique(frac, 0, Pow(16, n), frac);
  }

  /** What the pieces of %a spell. */
  lemma HexPiecesDigits(sign: string, zero: string, lead: char, point: string, rest: seq<char>, zeros: nat,
                        tail: string, width: int, flags: Flags)
    requires IsDigitOf(true, lead) && AllDigitsOf(true, rest)
    ensures var n := PiecesOf(sign, zero, lead, point, rest, zeros, tail, width, flags);
      AllDigitsOf(true, n.whole + n.rest) && HexVal(n.whole + n.rest) == HexVal([lead] + rest) * Pow(16, zeros)
  {
    hide HexVal, Pow;
    var n := PiecesOf(sign, zero, lead, point, rest, zeros, tail, width, flags);
    var Z := n.whole[..|n.whole| - 1];
    WholeOf(sign, zero, lead, point, rest, zeros, tail, width, flags);
    HexZeros([lead] + rest, zeros);
    HexLeadingZeros(Z, ([lead] + rest) + Repeat(zeros, '0'));
    assert (Z + [lead]) + (rest + Repeat(zeros, '0')) == Z + (([lead] + rest) + Repeat(zeros, '0'));
  }

  lemma ParsesAsHex(n: Pieces, t: string, e: int)
    requires n.Valid(true) && t == n.Text() && n.Written() == e
    ensures AllDigitsOf(true, n.whole + n.rest)
    ensures Parse(t) == Parsed(Hexadecimal(n.whole + n.rest, e - 4 * |n.rest|), n.Place().q, e)
    ensures Negative(t) <==> n.sign == "-"
  {
    hide Parse, Unsigned, Negative, NumberStart, DecVal, Pieces.Valid, Pieces.Cut, Pieces.Text, Layout.In;
    NoLongPoint(n, true);
    n.TextCut();
    n.InPlace(t, true);
    n.StartInPlace(t, true);
    ZeroInPlace(n, t);
    HexLaidOut(n.Place(), t, n.Place().p - 2);
    ParseIs(t, n.Place().p - 2);
  }

  lemma ZeroInPlace(n: Pieces, t: string)
    requires n.Valid(true) && n.Cut(t)
    ensures var p := n.Place().p - 2;
      p == |n.spaces| + |n.sign| && p + 2 <= |t| && t[p] == '0' && (t[p + 1] == 'x' || t[p + 1] == 'X')
    ensures |n.rest| == n.Place().c - n.Place().B()
  {
    var p := n.Place().p - 2;
    First(t, p, p + 2);
    assert t[p + 1] == t[p..p + 2][1];
  }

  /** A leading digit, a fraction's digits and zeros, with an exponent of two. */
  method LayOutA(sign: string, lead: nat, rest: seq<char>, zeros: nat, e: int, upper: bool, width: int, flags: Flags)
    returns (t: string)
    requires lead <= 2 && AllDigitsOf(true, rest) && (rest == [] ==> zeros == 0)
    requires sign == "-" || sign == "+" || sign == " " || sign == ""
    ensures var n := Parse(t);
      n.number.Hexadecimal? && AllDigitsOf(true, n.number.digits) && n.written == e
      && n.number.exp2 == e - 4 * (|rest| + zeros)
      && HexVal(n.number.digits) == (lead * Pow(16, |rest|) + HexVal(rest)) * Pow(16, zeros)
    ensures Negative(t) <==> sign == "-"
  {
    hide Pow, DecVal, HexVal, Parse, Negative, PiecesOf, PutNumber;
    var zero := if upper then "0X" else "0x";
    var point := if rest != [] || flags.alt then "." else "";
    var tail := ExponentTail(upper, 'p', e, 1);
    var c := HexChar(lead, upper);
    t := PutNumber(sign + zero, [c] + point + rest, zeros, tail, width, flags);
    PutShape(sign, zero, c, point, rest, zeros, tail, width, flags);
    ShapeValid(sign, zero, c, point, rest, zeros, tail, width, flags, true);
    ghost var n := PiecesOf(sign, zero, c, point, rest, zeros, tail, width, flags);
    HexTail(n, tail, e, sign, zero, c, rest, point, zeros, width, flags);
    ParsesAsHex(n, t, e);
    HexPiecesDigits(sign, zero, c, point, rest, zeros, tail, width, flags);
    LeadAndRest(c, rest);
  }

  lemma HexTail(n: Pieces, tail: string, e: int, sign: string, zero: string, c: char, rest: seq<char>, point: string,
                zeros: nat, width: int, flags: Flags)
    requires n == PiecesOf(sign, zero, c, point, rest, zeros, tail, width, flags)
    requires |tail| > 2 && AllDigits(tail[2..]) && DecVal(tail[2..]) == (if e < 0 then -e else e)
    requires tail[1] == (if e < 0 then '-' else '+')
    ensures n.Written() == e && |n.rest| == |rest| + zeros && (n.sign == "-" <==> sign == "-")
  {
  }

  lemma {:induction false} LeadAndRest(c: char, rest: seq<char>)
    requires IsDigitOf(true, c) && AllDigitsOf(true, rest)
    ensures AllDigitsOf(true, [c] + rest) && HexVal([c] + rest) == HexDigit(c) * Pow(16, |rest|) + HexVal(rest)
    decreases |rest|
  {
    hide HexVal, Pow;
    if rest == [] {
      assert [c] + rest == [] + [c];
      HexPush([], c);
      PowZero(16);
      assert HexVal([]) == 0 by { NoFraction(0, 0); DivModUnique(0, 0, 1, 0); }
    } else {
      var r, d := rest[..|rest| - 1], rest[|rest| - 1];
      LeadAndRest(c, r);
      assert [c] + rest == ([c] + r) + [d] && rest == r + [d];
      HexPush([c] + r, d);
      HexPush(r, d);
      PowSucc(16, |r|);
      MulSwap(HexDigit(c), 16, Pow(16, |r|));
      MulAssoc(HexDigit(c), 16, Pow(16, |r|));
    }
  }

  /** The exponent %a shows a value with: that of its leading 1, of the subnormals, or 0 for zero. */
  function HexExponent(f: Format, bits: nat): int
    requires f.Valid()
  {
    var biased: int := bits / f.Hidden();
    if biased != 0 then biased - f.bias else if bits % f.Hidden() != 0 then 1 - f.bias else 0
  }

  /** The text is the value to `prec` hexadecimal digits after the point, to nearest with ties to even. */
  ghost predicate HexRounded(f: Format, bits: nat, prec: nat, n: Real)
    requires f.Valid() && prec < HexPlaces(f)
  {
    n.Hexadecimal? && AllDigitsOf(true, n.digits) &&
    exists whole: nat ::
      && IsWhole(f, bits, whole, HexExponent(f, bits)) && n.exp2 == HexExponent(f, bits) - 4 * prec
      && HexVal(n.digits) == RoundEven(whole, Pow(16, HexPlaces(f) - prec))
  }

  /** The value is `whole` units of the last of all its hexadecimal digits, shown with exponent e. */
  ghost predicate IsWhole(f: Format, bits: nat, whole: nat, e: int)
    requires f.Valid()
  {
    e + f.Quantum() >= 0 && whole * Pow(2, e + f.Quantum()) == f.Units(bits) * Pow(2, 4 * HexPlaces(f))
  }

  /** A leading digit and n digits of fraction, rounded to `prec` of them. */
  method ShowRounded(sign: string, lead: nat, frac: nat, n: nat, prec: nat, e: int, upper: bool, width: int,
                     flags: Flags)
    returns (t: string)
    requires lead <= 1 && prec < n && frac < Pow(16, n)
    requires sign == "-" || sign == "+" || sign == " " || sign == ""
    ensures var r := Parse(t);
      && r.number.Hexadecimal? && AllDigitsOf(true, r.number.digits) && r.written == e
      && r.number.exp2 == e - 4 * prec
      && HexVal(r.number.digits) == RoundEven(lead * Pow(16, n) + frac, Pow(16, n - prec))
    ensures Negative(t) <==> sign == "-"
  {
    hide Pow, HexVal, Parse, Negative, RoundEven;
    var lead1, frac1 := RoundPlaces(lead, frac, n, prec);
    var shown := HexDigits(frac1, n, prec, upper);
    t := LayOutA(sign, lead1, shown, 0, e, upper, width, flags);
    PowZero(16);
  }

  /** A leading digit and n digits of fraction, all that are not zeros at the end or all that there is room for. */
  method ShowAll(sign: string, lead: nat, frac: nat, n: nat, prec: int, e: int, upper: bool, width: int, flags: Flags)
    returns (t: string, ghost places: nat)
    requires lead <= 1 && (prec < 0 || prec >= n > 0) && frac < Pow(16, n)
    requires sign == "-" || sign == "+" || sign == " " || sign == ""
    ensures var r := Parse(t);
      && r.number.Hexadecimal? && AllDigitsOf(true, r.number.digits) && r.written == e
      && r.number.exp2 == e - 4 * places
      && HexVal(r.number.digits) * Pow(2, 4 * n) == (lead * Pow(2, 4 * n) + frac) * Pow(2, 4 * places)
    ensures Negative(t) <==> sign == "-"
  {
    hide Pow, HexVal, Parse, Negative;
    var digits := ShownPlaces(frac, n, prec >= 0);
    var rest := HexDigits(frac, n, digits, upper);
    var zeros := if prec > n then prec - n else 0;
    t := LayOutA(sign, lead, rest, zeros, e, upper, width, flags);
    places := digits + zeros;
    ShownTimes(lead, frac, n, digits, zeros, HexVal(Parse(t).number.digits));
  }

  /** fmt_hex_float: the value itself, or rounded when the precision is smaller than the digits there are. */
  method FormatA(f: Format, pattern: nat, upper: bool, prec: int, width: int, flags: Flags) returns (t: string)
    requires Readable(f) && f.p > 2 && pattern < 2 * SignBit(f) && Magnitude(f, pattern) < f.Inf()
    ensures (Negative(t) <==> pattern >= SignBit(f)) && ExponentHolds(t)
    ensures 0 <= prec < HexPlaces(f) ==> HexRounded(f, Magnitude(f, pattern), prec, Parse(t).number)
    ensures prec < 0 || prec >= HexPlaces(f) ==>
      (var n := Parse(t).number;
       n.Hexadecimal? && AllDigitsOf(true, n.digits)
       && HexVal(n.digits) * Scale(2, n.exp2) * Pow(2, f.Quantum())
         == f.Units(Magnitude(f, pattern)) * Scale(2, -n.exp2))
  {
    hide Pow, HexVal, Parse, Negative, SignBit, Format.Inf, Format.Units, Scale, RoundEven;
    var bits := Magnitude(f, pattern);
    var n := HexPlaces(f);
    var k := 4 * n;
    HexValue(f, bits);
    FractionRange(f, bits);
    var biased := bits / f.Hidden();
    var frac := bits % f.Hidden() * Reading.Power2(k - (f.p - 1));
    var lead := if biased != 0 then 1 else 0;
    var e: int := if biased != 0 then biased as int - f.bias as int else if frac != 0 then 1 - f.bias as int else 0;
    ZeroExponent(f, bits, lead * Pow(2, k) + frac, e);
    var sign := SignOf(pattern >= SignBit(f), flags);
    WholeUnits(n);
    if 0 <= prec < n {
      t := ShowRounded(sign, lead, frac, n, prec, e, upper, width, flags);
      assert IsWhole(f, bits, lead * Pow(2, k) + frac, HexExponent(f, bits));
      return;
    }
    ghost var places;
    t, places := ShowAll(sign, lead, frac, n, prec, e, upper, width, flags);
    ShownIsValue(f, bits, lead * Pow(2, k) + frac, HexVal(Parse(t).number.digits), k, 4 * places, e);
  }

  lemma WholeUnits(n: nat)
    ensures Pow(2, 4 * n) == Pow(16, n) && Pow(16, 0) == 1
  {
    FirstPowers();
    PowMultiply(2, 4, n);
  }

  lemma FractionRange(f: Format, bits: nat)
    requires f.Valid() && f.p > 2 && bits < f.Inf()
    ensures var k := 4 * HexPlaces(f);
      k >= f.p - 1 && HexPlaces(f) > 0 && bits % f.Hidden() * Pow(2, k - (f.p - 1)) < Pow(16, HexPlaces(f))
    ensures bits / f.Hidden() < f.Top()
  {
    hide Pow, Format.Hidden;
    var k := 4 * HexPlaces(f);
    PowMultiply(2, 4, HexPlaces(f));
    FirstPowers();
    PowAdd(2, f.p - 1, k - (f.p - 1));
    HiddenIs(f);
    MulStrict(bits % f.Hidden(), f.Hidden(), Pow(2, k - (f.p - 1)));
    DivModIdentity(bits, f.Hidden());
    if bits / f.Hidden() >= f.Top() {
      MulMonotone(f.Top(), bits / f.Hidden(), f.Hidden());
    }
  }

  /** The digits shown times the places not shown are the digits there are times those that are. */
  lemma ShownTimes(lead: nat, frac: nat, n: nat, digits: nat, zeros: nat, T: nat)
    requires digits <= n && frac == frac / Pow(16, n - digits) * Pow(16, n - digits)
    requires T == (lead * Pow(16, digits) + frac / Pow(16, n - digits)) * Pow(16, zeros)
    ensures T * Pow(2, 4 * n) == (lead * Pow(2, 4 * n) + frac) * Pow(2, 4 * (digits + zeros))
  {
    hide Pow;
    FirstPowers();
    PowMultiply(2, 4, n);
    PowMultiply(2, 4, digits + zeros);
    PowAdd(16, digits, n - digits);
    PowAdd(16, digits, zeros);
    var d, z, r := Pow(16, digits), Pow(16, zeros), Pow(16, n - digits);
    var q := frac / r;
    var S := lead * d + q;
    assert lead * (d * r) + q * r == S * r by { MulAssoc(lead, d, r); Distribute(lead * d, q, r); }
    ShuffleFour(S, z, d, r);
  }

  lemma ShuffleFour(S: nat, z: nat, d: nat, r: nat)
    ensures (S * z) * (d * r) == (S * r) * (d * z)
  {
    Interchange(S, z, r, d);
    assert d * r == r * d;
    Interchange(S, r, z, d);
    assert d * z == z * d;
  }

  /** The exponent of zero is 0, and no other would read differently. */
  lemma ZeroExponent(f: Format, bits: nat, full: nat, e: int)
    requires f.Valid() && f.p > 2 && bits < f.Inf()
    requires var biased, frac := bits / f.Hidden(), bits % f.Hidden();
      var k := 4 * HexPlaces(f);
      k >= f.p - 1 && full == (if biased != 0 then 1 else 0) * Pow(2, k) + frac * Pow(2, k - (f.p - 1))
      && e == if biased != 0 then biased - f.bias else if frac * Pow(2, k - (f.p - 1)) != 0 then 1 - f.bias else 0
    ensures e == HexExponent(f, bits)
    ensures e + f.Quantum() >= 0 && full * Pow(2, e + f.Quantum()) == f.Units(bits) * Pow(2, 4 * HexPlaces(f))
  {
    hide Pow, Format.Units;
    HexValue(f, bits);
    var k := 4 * HexPlaces(f);
    if bits % f.Hidden() != 0 { MulPositive(bits % f.Hidden(), Pow(2, k - (f.p - 1))); }
    if bits / f.Hidden() == 0 && bits % f.Hidden() * Pow(2, k - (f.p - 1)) == 0 {
      MulCancelEq(f.Units(bits), 0, Pow(2, k));
    }
  }

  /** Every finite value printed with %a reads back as itself. */
  method PrintHexThenRead(f: Format, pattern: nat, upper: bool, prec: int, width: int, flags: Flags) returns (back: nat)
    requires Readable(f) && f.p > 2 && pattern < 2 * SignBit(f) && Magnitude(f, pattern) < f.Inf()
    requires prec < 0 || prec >= HexPlaces(f)
    ensures back == pattern
  {
    hide Pow, SignBit, Format.Inf, Format.Units, Format.Nearest, Parse, Negative, HexVal, Scale, ExponentHolds;
    var t := FormatA(f, pattern, upper, prec, width, flags);
    ghost var bits, n := Magnitude(f, pattern), Parse(t).number;
    ghost var N, D := HexVal(n.digits) * Scale(2, n.exp2) * Pow(2, f.Quantum()), Scale(2, -n.exp2);
    ExactReads(f, bits, D);
    var end, range;
    back, end, range := Strtod(f, t);
    f.NearestUnique(N, D, bits, back - (if pattern >= SignBit(f) then SignBit(f) else 0));
  }
}
