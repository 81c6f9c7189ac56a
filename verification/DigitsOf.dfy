/** The digits of a binary value, correctly rounded on its exact expansion. */
module DigitsOf {
  import opened Powers
  import opened Rounding
  import opened Sizes
  import opened Digits
  import opened Numerals
  import opened DigitRounding
  import opened Printing

  /** The value of a pattern in units of 10^place, rounded to the nearest integer, ties to even. */
  function RoundedUnits(f: Format, bits: nat, place: int): nat
    requires f.Valid()
  {
    MulPositive(Pow(2, f.Quantum()), Scale(10, place));
    RoundEven(f.Units(bits) * Scale(10, -place), Pow(2, f.Quantum()) * Scale(10, place))
  }

  /** Read from its leading digit at 10^exp10 on, s spells the value to the nearest multiple of 10^place. */
  ghost predicate SpellsRounded(f: Format, bits: nat, s: seq<char>, exp10: int, place: int)
    requires f.Valid()
  {
    AllDigits(s) && s != [] && s[0] != '0' && exp10 - |s| + 1 >= place &&
    DecVal(s) * Pow(10, exp10 - |s| + 1 - place) == RoundedUnits(f, bits, place)
  }

  /** The value lies between 10^x and 10^(x + 1). */
  ghost predicate LeadsAt(f: Format, bits: nat, x: int)
    requires f.Valid()
  {
    Pow(2, f.Quantum()) * Scale(10, x) <= f.Units(bits) * Scale(10, -x)
    && f.Units(bits) * Scale(10, -x - 1) < Pow(2, f.Quantum()) * Scale(10, x + 1)
  }

  // ---- from the exact digits to the value ------------------------------------------------------

  /** S(-place) * 10^k == 10^-E * S(place) for place == E + k and E <= 0. */
  lemma PlaceBalance(E: int, k: int, place: int)
    requires E <= 0 && place == E + k
    ensures k >= 0 ==> Scale(10, -place) * Pow(10, k) == Pow(10, -E) * Scale(10, place)
    ensures k <= 0 ==> Scale(10, -place) == (Pow(10, -E) * Pow(10, -k)) * Scale(10, place)
  {
    hide Pow, Scale;
    ScaleForms(10, place);
    if k >= 0 {
      if place >= 0 {
        PowAdd(10, place, -E);
      } else {
        PowAdd(10, -place, k);
      }
    }
    if k <= 0 {
      PowZero(10);
      PowAdd(10, -E, -k);
      if place >= 0 { assert place == 0 && E == 0 && k == 0; }
    }
  }

  lemma ExactIs(f: Format, bits: nat, D: nat, E: int)
    requires f.Valid() && E <= 0 && Denotes(10, D, false, E, f.Units(bits), Pow(2, f.Quantum()))
    ensures f.Units(bits) * Pow(10, -E) == D * Pow(2, f.Quantum())
  {
    hide Format.Units;
    PowZero(10);
    ScaleForms(10, E);
  }

  lemma RoundedBelow(f: Format, bits: nat, D: nat, E: int, k: nat)
    requires f.Valid() && E <= 0 && Denotes(10, D, false, E, f.Units(bits), Pow(2, f.Quantum()))
    ensures RoundedUnits(f, bits, E + k) == RoundEven(D, Pow(10, k))
  {
    hide Pow, Scale, Format.Units, RoundEven, Denotes;
    var U, W, place := f.Units(bits), Pow(2, f.Quantum()), E + k;
    ExactIs(f, bits, D, E);
    PlaceBalance(E, k, place);
    MulPositive(W, Scale(10, place));
    CrossProducts(U, W, D, Scale(10, -place), Scale(10, place), Pow(10, k), Pow(10, -E));
    RoundEvenSameRatio(U * Scale(10, -place), W * Scale(10, place), D, Pow(10, k));
  }

  lemma CrossProducts(U: nat, W: nat, D: nat, sn: nat, sp: nat, tk: nat, te: nat)
    requires U * te == D * W && sn * tk == te * sp
    ensures (U * sn) * tk == D * (W * sp)
  {
    MulAssoc(U, sn, tk);
    MulAssoc(U, te, sp);
    MulAssoc(D, W, sp);
  }

  lemma RoundedAbove(f: Format, bits: nat, D: nat, E: int, k: nat)
    requires f.Valid() && E <= 0 && Denotes(10, D, false, E, f.Units(bits), Pow(2, f.Quantum()))
    ensures RoundedUnits(f, bits, E - k) == D * Pow(10, k)
  {
    hide Pow, Scale, Format.Units, RoundEven, Denotes;
    var U, W, place := f.Units(bits), Pow(2, f.Quantum()), E - k;
    ExactIs(f, bits, D, E);
    PlaceBalance(E, 0 - k as int, place);
    MulPositive(W, Scale(10, place));
    WholeProducts(U, W, D, Scale(10, -place), Scale(10, place), Pow(10, k), Pow(10, -E));
    RoundEvenWhole(D * Pow(10, k), W * Scale(10, place));
  }

  lemma WholeProducts(U: nat, W: nat, D: nat, sn: nat, sp: nat, tk: nat, te: nat)
    requires U * te == D * W && sn == (te * tk) * sp
    ensures U * sn == (D * tk) * (W * sp)
  {
    MulAssoc(te, tk, sp);
    MulAssoc(U, te, tk * sp);
    MulAssoc(D, W, tk * sp);
    assert W * (tk * sp) == tk * (W * sp) by { MulAssoc(W, tk, sp); MulAssoc(tk, W, sp); }
    MulAssoc(D, tk, W * sp);
  }

  lemma LeadOfExact(f: Format, bits: nat, s: seq<char>, x: int)
    requires f.Valid() && AllDigits(s) && s != [] && s[0] != '0' && x - |s| + 1 <= 0
    requires Denotes(10, DecVal(s), false, x - |s| + 1, f.Units(bits), Pow(2, f.Quantum()))
    ensures LeadsAt(f, bits, x)
  {
    hide Pow, Scale, Format.Units, Denotes, DecVal;
    var n, E := |s|, x - |s| + 1;
    var U, W, D := f.Units(bits), Pow(2, f.Quantum()), DecVal(s);
    DecLead(s);
    DecBound(s);
    ExactIs(f, bits, D, E);
    PlaceBalance(E, n - 1, x);
    PlaceBalance(E, n, x + 1);
    CrossProducts(U, W, D, Scale(10, -x), Scale(10, x), Pow(10, n - 1), Pow(10, -E));
    CrossProducts(U, W, D, Scale(10, -x - 1), Scale(10, x + 1), Pow(10, n), Pow(10, -E));
    MulPositive(W, Scale(10, x + 1));
    LeadBounds(U * Scale(10, -x), W * Scale(10, x), D, Pow(10, n - 1));
    LeadBelow(U * Scale(10, -x - 1), W * Scale(10, x + 1), D, Pow(10, n));
  }

  lemma LeadBounds(a: nat, b: nat, D: nat, t: nat)
    requires a * t == D * b && D >= t > 0
    ensures b <= a
  {
    MulMonotone(t, D, b);
    MulCancelLeq(b, a, t);
  }

  lemma LeadBelow(a: nat, b: nat, D: nat, t: nat)
    requires a * t == D * b && D < t && b > 0
    ensures a < b
  {
    MulStrict(D, t, b);
    MulCancelLess(a, b, t);
  }

  // ---- what was written ------------------------------------------------------------------------------

  /** Enough digits for the exact value. */
  lemma WroteExact(f: Format, bits: nat, D: nat, n: nat, s: seq<char>, x10: int, place: int)
    requires f.Valid() && x10 - n + 1 <= 0 && Denotes(10, D, false, x10 - n + 1, f.Units(bits), Pow(2, f.Quantum()))
    requires AllDigits(s) && |s| >= n > 0 && D >= Pow(10, n - 1) && DecVal(s) == D * Pow(10, |s| - n)
    requires place <= x10 - |s| + 1
    ensures SpellsRounded(f, bits, s, x10, place)
  {
    hide Pow, Format.Units, Denotes, DecVal, RoundedUnits;
    var E := x10 - n + 1;
    RoundedAbove(f, bits, D, E, E - place);
    PowAdd(10, |s| - n, x10 - |s| + 1 - place);
    MulAssoc(D, Pow(10, |s| - n), Pow(10, x10 - |s| + 1 - place));
    PowAdd(10, n - 1, |s| - n);
    MulMonotone(Pow(10, n - 1), D, Pow(10, |s| - n));
    FirstNotZero(s);
  }

  lemma FirstNotZero(s: seq<char>)
    requires AllDigits(s) && s != [] && DecVal(s) >= Pow(10, |s| - 1)
    ensures s[0] != '0'
  {
    hide Pow, DecVal;
    if s[0] == '0' {
      DecZeroFirst(s);
      DecBound(s[1..]);
    }
  }

  /** Fewer digits than the exact value has: the rounded ones, with a carry or without. */
  lemma WroteRounded(f: Format, bits: nat, d: seq<char>, s: seq<char>, x0: int, x10: int)
    requires f.Valid() && AllDigits(d) && d != [] && d[0] != '0' && x0 - |d| + 1 <= 0
    requires Denotes(10, DecVal(d), false, x0 - |d| + 1, f.Units(bits), Pow(2, f.Quantum()))
    requires AllDigits(s) && 0 < |s| < |d|
    requires var R := RoundEven(DecVal(d), Pow(10, |d| - |s|));
      if x10 == x0 then DecVal(s) == R
      else x10 == x0 + 1 && R == Pow(10, |s|) && DecVal(s) == Pow(10, |s| - 1)
    ensures SpellsRounded(f, bits, s, x10, x0 - |s| + 1)
  {
    hide Pow, Format.Units, Denotes, DecVal, RoundedUnits, RoundEven;
    var n, k, E := |d|, |s|, x0 - |d| + 1;
    RoundedBelow(f, bits, DecVal(d), E, n - k);
    PowZero(10);
    PowOne(10);
    PowSucc(10, k - 1);
    if x10 == x0 {
      RoundedNotSmall(d, k);
    }
    FirstNotZero(s);
  }

  lemma RoundedNotSmall(d: seq<char>, k: nat)
    requires AllDigits(d) && d != [] && d[0] != '0' && 0 < k < |d|
    ensures RoundEven(DecVal(d), Pow(10, |d| - k)) >= Pow(10, k - 1)
  {
    hide Pow, DecVal;
    DecSplit(d, k);
    DivModUnique(DecVal(d), DecVal(d[..k]), Pow(10, |d| - k), DecVal(d[k..]));
    DecLead(d[..k]);
  }

  /** A zero put after the digits that carried. */
  lemma OnePlaceMore(f: Format, bits: nat, s: seq<char>, x10: int, place: int)
    requires f.Valid() && SpellsRounded(f, bits, s, x10, place) && place < x10 - |s| + 1
    ensures SpellsRounded(f, bits, s + ['0'], x10, place)
  {
    hide Pow, DecVal, RoundedUnits;
    DecPush(s, '0');
    var k := x10 - |s| - place;
    PowSucc(10, k);
    assert (10 * DecVal(s)) * Pow(10, k) == DecVal(s) * (10 * Pow(10, k)) by { MulAssoc(DecVal(s), 10, Pow(10, k)); }
  }

  lemma BelowFirstDigit(d: seq<char>, k: nat)
    requires AllDigits(d) && d != [] && k >= |d|
    ensures RoundEven(DecVal(d), Pow(10, k)) ==
      if k == |d| && (d[0] > '5' || (d[0] == '5' && DecVal(d[1..]) > 0)) then 1 else 0
  {
    hide Pow, DecVal;
    if k == |d| {
      DecSplit(d, 1);
      assert d[..1] == [d[0]];
      DecSingle(d[0]);
      PowSucc(10, |d| - 1);
      AgainstHalf(DecVal(d), 0, Digit(d[0]), DecVal(d[1..]), Pow(10, |d| - 1));
    } else {
      DecBound(d);
      PowMonotone(10, |d| + 1, k);
      PowSucc(10, |d|);
      DivModUnique(DecVal(d), 0, Pow(10, k), DecVal(d));
    }
  }

  // ---- the conversion ------------------------------------------------------------------------------------

  /**
   * The value rounded to `count` significant digits, or to a multiple of 10^-count with count cut to the room there is;
   * out begins with the n digits of what it rounds to, none for zero.
   */
  method ToDigits(f: Format, bits: nat, significant: bool, count0: int, out: array<char>) returns (n: nat, exp10: int)
    requires Sized(f) && 0 < bits < f.Inf() && out.Length >= f.maxDigits
    modifies out
    ensures n <= f.maxDigits && AllDigits(out[..n])
    ensures significant ==> n == Min(Max(count0, 1), f.maxDigits)
    ensures significant ==> exists x: int ::
      LeadsAt(f, bits, x) && x <= exp10 <= x + 1 && SpellsRounded(f, bits, out[..n], exp10, x - Max(count0, 1) + 1)
    ensures !significant && n == 0 ==> RoundedUnits(f, bits, -Min(count0, f.maxDigits)) == 0
    ensures !significant && n > 0 ==> SpellsRounded(f, bits, out[..n], exp10, -Min(count0, f.maxDigits))
  {
    hide Pow, DecVal, Denotes, SpellsRounded, RoundedUnits, LeadsAt, Format.Inf, RoundEven;
    var d := new char[f.maxDigits];
    var m, x10 := ExactDigits(f, bits, d);
    ghost var s := d[..m];
    LeadOfExact(f, bits, s, x10);
    DecLead(s);
    var keep: int;
    var count := count0;
    if significant {
      keep := if count < 1 then 1 else count;
    } else {
      if count > f.maxDigits {
        count := f.maxDigits;
      }
      keep := x10 + 1 + count;
      if keep <= 0 {
        RoundedBelow(f, bits, DecVal(s), x10 - m + 1, m - keep);
        BelowFirstDigit(s, m - keep);
        var up := false;
        if keep == 0 {
          var rest := NonzeroRest(d, 1, m);
          up := d[0] > '5' || (d[0] == '5' && rest);
        }
        if !up {
          return 0, 0;
        }
        out[0] := '1';
        JustOne(f, bits, out[..1], -count);
        return 1, -count;
      }
    }
    ghost var asked := x10 - keep + 1;
    if keep > f.maxDigits {
      keep := f.maxDigits;
    }
    var before := x10;
    x10 := RoundTo(d, m, keep, out, x10);
    if keep >= m {
      WroteExact(f, bits, DecVal(s), m, out[..keep], x10, asked);
    } else {
      WroteRounded(f, bits, s, out[..keep], before, x10);
    }
    if !significant && x10 != before && keep < f.maxDigits {
      OnePlaceMore(f, bits, out[..keep], x10, asked);
      ghost var digits := out[..keep];
      out[keep] := '0';
      keep := keep + 1;
      assert out[..keep] == digits + ['0'];
    }
    SpellsDigits(f, bits, out[..keep], x10, asked);
    return keep, x10;
  }

  lemma SpellsDigits(f: Format, bits: nat, s: seq<char>, x10: int, place: int)
    requires f.Valid() && SpellsRounded(f, bits, s, x10, place)
    ensures AllDigits(s)
  {
  }

  lemma JustOne(f: Format, bits: nat, s: seq<char>, place: int)
    requires f.Valid() && s == ['1'] && RoundedUnits(f, bits, place) == 1
    ensures SpellsRounded(f, bits, s, place, place)
  {
    DecSingle('1');
    PowZero(10);
  }
}
