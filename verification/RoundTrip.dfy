/** Enough correctly rounded digits read back as the value they came from, and the fewest that do. */
module RoundTrip {
  import opened Powers
  import opened Rounding
  import opened Sizes
  import opened Digits
  import opened Numerals
  import opened DecimalReading
  import opened DigitRounding
  import opened DigitsOf

  /** d * 10^e is nearest pattern b. */
  ghost predicate ReadsTo(f: Format, d: nat, e: int, b: nat)
    requires f.Valid()
  {
    f.Nearest(d * Scale(10, e) * Pow(2, f.Quantum()), Scale(10, -e), b)
  }

  /** Trailing zeros of the digits belong to the exponent. */
  lemma ShiftZero(d: nat, e: int, X: nat, Y: nat)
    requires Denotes(10, d, false, e + 1, X, Y)
    ensures Denotes(10, 10 * d, false, e, X, Y)
  {
    hide Scale;
    ScaleStep(10, e);
    if e >= 0 {
      MulAssoc(10, Scale(10, e), Y);
      assert d * (10 * (Scale(10, e) * Y)) == (10 * d) * (Scale(10, e) * Y) by { MulAssoc(d, 10, Scale(10, e) * Y); }
    } else {
      assert X * Scale(10, -e) == 10 * (X * Scale(10, -e - 1)) by { MulAssoc(X, 10, Scale(10, -e - 1)); }
    }
  }

  lemma {:induction false} ShiftZeros(d: nat, e: int, k: nat, X: nat, Y: nat)
    requires Denotes(10, d, false, e + k, X, Y)
    ensures Denotes(10, d * Pow(10, k), false, e, X, Y)
    decreases k
  {
    hide Denotes;
    if k == 0 {
      PowZero(10);
    } else {
      ShiftZero(d, e + k - 1, X, Y);
      ShiftZeros(10 * d, e, k - 1, X, Y);
      PowSucc(10, k - 1);
      MulAssoc(d, 10, Pow(10, k - 1));
    }
  }

  /** A number written with trailing zeros moved into its exponent reads the same. */
  lemma ShiftedReads(f: Format, d: nat, e: int, R: nat, place: int, b: nat)
    requires f.Valid() && e >= place && d * Pow(10, e - place) == R
    ensures ReadsTo(f, d, e, b) <==> ReadsTo(f, R, place, b)
  {
    hide Pow, Scale, Format.Nearest, Denotes;
    var W := Pow(2, f.Quantum());
    AsFraction(10, d, e);
    ShiftZeros(d, place, e - place, d * Scale(10, e), Scale(10, -e));
    SameNumber(10, R, place, d * Scale(10, e), Scale(10, -e));
    MulSwap(d * Scale(10, e), W, Scale(10, -place));
    MulSwap(R * Scale(10, place), W, Scale(10, -e));
    f.NearestSameRatio(d * Scale(10, e) * W, Scale(10, -e), R * Scale(10, place) * W, Scale(10, -place), b);
  }

  /** The digits as written and the rounded number they spell read the same. */
  lemma SpelledReads(f: Format, bits: nat, s: seq<char>, exp10: int, place: int, b: nat)
    requires f.Valid() && SpellsRounded(f, bits, s, exp10, place)
    ensures AllDigits(s)
    ensures ReadsTo(f, DecVal(s), exp10 - |s| + 1, b) <==> ReadsTo(f, RoundedUnits(f, bits, place), place, b)
  {
    hide Pow, DecVal, RoundedUnits, ReadsTo;
    ShiftedReads(f, DecVal(s), exp10 - |s| + 1, RoundedUnits(f, bits, place), place, b);
  }

  // ---- enough digits ----------------------------------------------------------------------------------

  /** So many digits are closer together than the values of the format. */
  ghost predicate EnoughDigits(f: Format, n: nat)
  {
    n > 0 && Pow(2, f.p) < Pow(10, n - 1)
  }

  lemma SeventeenAreEnough()
    ensures EnoughDigits(Binary64, 17)
  {
    hide Pow;
    PowersOfTwo();
    SixteenDigits();
  }

  lemma SixteenDigits()
    ensures Pow(2, 53) == 0x20_0000_0000_0000 && Pow(10, 16) == 10000000000000000
  {
    hide Pow;
    FirstPowers();
    PowAdd(2, 10, 10);
    PowAdd(2, 20, 20);
    PowAdd(2, 40, 10);
    PowSucc(2, 50); PowSucc(2, 51); PowSucc(2, 52);
    PowAdd(10, 4, 4);
    PowAdd(10, 8, 8);
  }

  lemma NineAreEnough()
    ensures EnoughDigits(Binary32, 9)
  {
    hide Pow;
    FirstPowers();
    PowAdd(2, 10, 10);
    PowAdd(2, 20, 4);
    PowAdd(10, 4, 4);
  }

  /** S(place) * S(-x) * 10^k == S(x) * S(-place) for place == x - k. */
  lemma ScaleBalance(x: int, k: nat, place: int)
    requires place == x - k
    ensures (Scale(10, place) * Scale(10, -x)) * Pow(10, k) == Scale(10, x) * Scale(10, -place)
  {
    hide Pow, Scale;
    ScaleForms(10, x);
    ScaleForms(10, place);
    if place >= 0 {
      PowAdd(10, place, k);
    } else if x >= 0 {
      PowAdd(10, x, -place);
    } else {
      PowAdd(10, -x, k);
    }
  }

  /** A unit in the last of enough places is less than the gap on either side of the value. */
  lemma PlaceBelowGaps(f: Format, bits: nat, x: int, n: nat)
    requires f.Valid() && bits > 0 && LeadsAt(f, bits, x) && EnoughDigits(f, n)
    ensures var place, W := x - n + 1, Pow(2, f.Quantum());
      && W * Scale(10, place) < f.Gap(bits) * Scale(10, -place)
      && W * Scale(10, place) < f.Gap(bits - 1) * Scale(10, -place)
  {
    hide Pow, Scale, Format.Units;
    var place, W, U := x - n + 1, Pow(2, f.Quantum()), f.Units(bits);
    ScaleBalance(x, n - 1, place);
    MulPositive(W, Scale(10, place));
    LeadScaled(W, U, Scale(10, x), Scale(10, -x), Scale(10, place), Scale(10, -place), Pow(10, n - 1));
    var sig, g := f.UnitsForm(bits);
    var sig', g' := f.UnitsForm(bits - 1);
    f.UnitsNext(bits - 1);
    MulMonotone(sig, Pow(2, f.p), Pow(2, g));
    MulMonotone(sig' + 1, Pow(2, f.p), Pow(2, g'));
    Distribute(sig', 1, Pow(2, g'));
    GapFromUnits(W * Scale(10, place), U, Scale(10, -place), Pow(2, f.p), Pow(10, n - 1), f.Gap(bits));
    GapFromUnits(W * Scale(10, place), U, Scale(10, -place), Pow(2, f.p), Pow(10, n - 1), f.Gap(bits - 1));
  }

  lemma LeadScaled(W: nat, U: nat, sx: nat, nx: nat, sp: nat, np: nat, t: nat)
    requires W * sx <= U * nx && (sp * nx) * t == sx * np && nx > 0
    ensures (W * sp) * t <= U * np
  {
    MulMonotone(W * sx, U * nx, np);
    assert (W * sx) * np == ((W * sp) * t) * nx by {
      MulAssoc(W, sx, np);
      MulAssoc(sp, nx, t);
      MulAssoc(W, sp, nx * t);
      MulAssoc(W * sp, nx, t);
      MulSwap(W * sp, nx, t);
    }
    MulSwap(U, nx, np);
    MulCancelLeq((W * sp) * t, U * np, nx);
  }

  lemma GapFromUnits(e: nat, U: nat, np: nat, twoP: nat, t: nat, gap: nat)
    requires e > 0 && e * t <= U * np && twoP < t && U <= twoP * gap && twoP > 0 && np > 0
    ensures e < gap * np
  {
    MulStrict(twoP, t, e);
    MulMonotone(U, twoP * gap, np);
    MulAssoc(twoP, gap, np);
    assert e * twoP < (gap * np) * twoP;
    MulCancelLess(e, gap * np, twoP);
  }

  /** The number rounded to enough digits reads back as the value. */
  lemma EnoughDigitsReadBack(f: Format, bits: nat, x: int, n: nat)
    requires f.Valid() && 0 < bits < f.Inf() && LeadsAt(f, bits, x) && EnoughDigits(f, n)
    ensures ReadsTo(f, RoundedUnits(f, bits, x - n + 1), x - n + 1, bits)
  {
    hide Pow, Scale, Format.Units, Format.Gap, Format.Inf, LeadsAt, RoundEven, EnoughDigits;
    var place, W, U := x - n + 1, Pow(2, f.Quantum()), f.Units(bits);
    var Sp, Sn, R := Scale(10, place), Scale(10, -place), RoundedUnits(f, bits, place);
    PlaceBelowGaps(f, bits, x, n);
    MulPositive(W, Sp);
    RoundEvenIsNearest(U * Sn, W * Sp);
    f.UnitsNext(bits - 1);
    f.UnitsNext(bits);
    NearEnough(U, W, Sp, Sn, R, f.Gap(bits));
    NearEnough(U, W, Sp, Sn, R, f.Gap(bits - 1));
    var N := R * Sp * W;
    Distribute(U, U, Sn);
    Distribute(U, U + f.Gap(bits), Sn);
    Distribute(U, f.Gap(bits), Sn);
    Distribute(U - f.Gap(bits - 1), U, Sn);
    assert (U - f.Gap(bits - 1)) * Sn == U * Sn - f.Gap(bits - 1) * Sn;
    f.BetweenIsNearest(N, Sn, bits);
  }

  lemma NearEnough(U: nat, W: nat, Sp: nat, Sn: nat, R: nat, gap: nat)
    requires 2 * Off(U * Sn, W * Sp, R) <= W * Sp && W * Sp < gap * Sn
    ensures 2 * (U * Sn) - gap * Sn < 2 * (R * Sp * W) < 2 * (U * Sn) + gap * Sn
  {
    assert R * (W * Sp) == R * Sp * W by { MulAssoc(R, Sp, W); }
  }

  // ---- the fewest digits --------------------------------------------------------------------------------

  lemma LeadUnique(f: Format, bits: nat, x: int, y: int)
    requires f.Valid() && LeadsAt(f, bits, x) && LeadsAt(f, bits, y)
    ensures x == y
  {
    if x < y {
      LeadsOnce(f, bits, x, y);
    } else if y < x {
      LeadsOnce(f, bits, y, x);
    }
  }

  lemma LeadsOnce(f: Format, bits: nat, x: int, y: int)
    requires f.Valid() && LeadsAt(f, bits, x) && x < y
    ensures !LeadsAt(f, bits, y)
  {
    hide Pow, Scale, Format.Units;
    var U, W, k := f.Units(bits), Pow(2, f.Quantum()), y - x - 1;
    ScaleBalance(y, k, x + 1);
    if LeadsAt(f, bits, y) {
      MulPositive(W, Scale(10, x + 1));
      LeadScaled(W, U, Scale(10, y), Scale(10, -y), Scale(10, x + 1), Scale(10, -x - 1), Pow(10, k));
      MulMonotone(1, Pow(10, k), W * Scale(10, x + 1));
    }
  }

  /** The value rounded to n significant digits reads back as it. */
  ghost predicate Survives(f: Format, bits: nat, x: int, n: nat)
    requires f.Valid()
  {
    ReadsTo(f, RoundedUnits(f, bits, x - n + 1), x - n + 1, bits)
  }

  /** Reads n digits made for a pattern back, and says whether they gave that pattern. */
  method TryDigits(f: Format, bits: nat, n: nat, out: array<char>) returns (same: bool, exp10: int, ghost x: int)
    requires Sized(f) && 0 < bits < f.Inf() && out.Length >= f.maxDigits && 0 < n <= f.maxDigits
    modifies out
    ensures LeadsAt(f, bits, x) && SpellsRounded(f, bits, out[..n], exp10, x - n + 1)
    ensures same <==> Survives(f, bits, x, n)
  {
    hide Pow, Scale, DecVal, Format.Nearest, Format.Inf, LeadsAt, SpellsRounded, RoundedUnits, Denotes;
    var m, x10 := ToDigits(f, bits, true, n, out);
    x :| LeadsAt(f, bits, x) && SpellsRounded(f, bits, out[..m], x10, x - n + 1);
    exp10 := x10;
    ghost var e := x10 - n + 1;
    SpelledReads(f, bits, out[..n], x10, x - n + 1, bits);
    ghost var X, Y := DecVal(out[..n]) * Scale(10, e), Scale(10, -e);
    AsFraction(10, DecVal(out[..n]), e);
    var got, _ := Decimal(f, out[..n], false, x10 - (n - 1), X, Y);
    if ReadsTo(f, DecVal(out[..n]), e, bits) {
      f.NearestUnique(X * Pow(2, f.Quantum()), Y, bits, got);
    }
    same := got == bits;
  }

  /** The fewest significant digits, up to nine, that read back as exactly the float. */
  method Shortest(bits: nat, out: array<char>) returns (n: nat, exp10: int)
    requires 0 < bits < Binary32.Inf() && out.Length >= Binary32.maxDigits
    modifies out
    ensures 1 <= n <= 9
    ensures exists x: int ::
      && LeadsAt(Binary32, bits, x) && SpellsRounded(Binary32, bits, out[..n], exp10, x - n + 1)
      && Survives(Binary32, bits, x, n) && forall k: nat :: 1 <= k < n ==> !Survives(Binary32, bits, x, k)
  {
    hide Pow, LeadsAt, SpellsRounded, Survives, Format.Inf, RoundedUnits;
    Binary32Sized();
    ghost var x: int := 0;
    n := 1;
    while n < 9
      invariant 1 <= n <= 9 && (n > 1 ==> LeadsAt(Binary32, bits, x))
      invariant forall k: nat :: 1 <= k < n ==> !Survives(Binary32, bits, x, k)
      decreases 9 - n
    {
      var same, x10, y := TryDigits(Binary32, bits, n, out);
      if n > 1 { LeadUnique(Binary32, bits, x, y); }
      x := y;
      if same {
        return n, x10;
      }
      n := n + 1;
    }
    var m, x10 := ToDigits(Binary32, bits, true, 9, out);
    ghost var y :| LeadsAt(Binary32, bits, y) && SpellsRounded(Binary32, bits, out[..m], x10, y - 9 + 1);
    LeadUnique(Binary32, bits, x, y);
    NineSurvive(bits, x);
    return 9, x10;
  }

  lemma NineSurvive(bits: nat, x: int)
    requires 0 < bits < Binary32.Inf() && LeadsAt(Binary32, bits, x)
    ensures Survives(Binary32, bits, x, 9)
  {
    hide LeadsAt;
    NineAreEnough();
    EnoughDigitsReadBack(Binary32, bits, x, 9);
  }

  lemma SeventeenSurvive(bits: nat, x: int)
    requires 0 < bits < Binary64.Inf() && LeadsAt(Binary64, bits, x)
    ensures Survives(Binary64, bits, x, 17)
  {
    hide LeadsAt;
    SeventeenAreEnough();
    EnoughDigitsReadBack(Binary64, bits, x, 17);
  }
}
