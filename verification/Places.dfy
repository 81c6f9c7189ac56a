/** Where the clamp on the number of decimal places shows: exactly for the values with more binary places than it. */
module Places {
  import opened Powers
  import opened Rounding
  import opened Sizes
  import opened Numerals
  import opened DigitRounding
  import opened DigitsOf
  import Reading

  /** The value in units of 10^-k, rounded. */
  function AtPlaces(f: Format, bits: nat, k: nat): nat
    requires f.Valid()
  {
    RoundedUnits(f, bits, 0 - k as int)
  }

  /** The digits made for `count` places, with zeros after them, are the value rounded at that many places. */
  ghost predicate PlacesExact(f: Format, bits: nat, count: nat)
    requires f.Valid()
  {
    count > f.maxDigits ==>
      AtPlaces(f, bits, count) == AtPlaces(f, bits, f.maxDigits) * Pow(10, count - f.maxDigits)
  }

  /** A request for as many places as the format has binary ones is met only if none is cut. */
  lemma MetInFull(f: Format, bits: nat)
    requires f.Valid() && f.maxDigits <= f.Quantum() && PlacesExact(f, bits, f.Quantum())
    ensures f.Units(bits) % Pow(2, f.Quantum() - f.maxDigits) == 0
  {
    hide Pow, Format.Units, AtPlaces;
    var Q, m := f.Quantum(), f.maxDigits;
    if Q == m {
      PowZero(2);
    } else {
      ExactAtQuantum(f, bits);
      TensToTwos(f.Units(bits), AtPlaces(f, bits, m), Q, Q - m);
    }
  }

  /** Every request for decimal places is met if and only if the value has at most maxDigits binary places. */
  lemma PlacesClamp(f: Format, bits: nat)
    requires f.Valid() && f.maxDigits <= f.Quantum()
    ensures (forall count: nat :: PlacesExact(f, bits, count)) <==>
      f.Units(bits) % Pow(2, f.Quantum() - f.maxDigits) == 0
  {
    hide Pow, Format.Units, AtPlaces;
    if f.Units(bits) % Pow(2, f.Quantum() - f.maxDigits) == 0 {
      forall count: nat ensures PlacesExact(f, bits, count) {
        if count > f.maxDigits { WholeAtClamp(f, bits, count); }
      }
    }
    if forall count: nat :: PlacesExact(f, bits, count) {
      MetInFull(f, bits);
    }
  }

  /** The smallest double has more: asked for all its 1074 places, 780 are made and zeros put after them. */
  lemma SmallestDoubleIsCut()
    ensures !PlacesExact(Binary64, 1, 1074)
  {
    hide Pow;
    assert Binary64.Quantum() == 1074;
    if PlacesExact(Binary64, 1, 1074) {
      MetInFull(Binary64, 1);
      HiddenLarge();
      PowMonotone(2, 1, 294);
      PowOne(2);
      assert Binary64.Units(1) == 1 by { Reading.SubnormalPattern(Binary64, 0); }
      DivModUnique(1, 0, Pow(2, 294), 1);
      assert false;
    }
  }

  lemma HiddenLarge()
    ensures Binary64.Hidden() > 1
  {
    hide Pow;
    PowMonotone(2, 1, 52);
    PowOne(2);
  }

  lemma RoundedAtPlaces(f: Format, bits: nat, k: nat)
    requires f.Valid()
    ensures AtPlaces(f, bits, k) == RoundEven(f.Units(bits) * Pow(10, k), Pow(2, f.Quantum()))
  {
    PowZero(10);
    ScaleForms(10, k);
  }

  lemma ExactAtQuantum(f: Format, bits: nat)
    requires f.Valid()
    ensures AtPlaces(f, bits, f.Quantum()) == f.Units(bits) * Pow(5, f.Quantum())
  {
    hide Pow, Format.Units, RoundEven, AtPlaces;
    var Q, U := f.Quantum(), f.Units(bits);
    RoundedAtPlaces(f, bits, Q);
    var fives, twos := Pow(5, Q), Pow(2, Q);
    PowProduct(2, 5, Q);
    Commute(twos, fives);
    MulAssoc(U, fives, twos);
    RoundEvenWhole(U * fives, twos);
  }

  lemma WholeAtClamp(f: Format, bits: nat, count: nat)
    requires f.Valid() && f.maxDigits <= f.Quantum() && count > f.maxDigits
    requires f.Units(bits) % Pow(2, f.Quantum() - f.maxDigits) == 0
    ensures PlacesExact(f, bits, count)
  {
    hide Pow, Format.Units, RoundEven, AtPlaces;
    var Q, m, U := f.Quantum(), f.maxDigits, f.Units(bits);
    var z := U / Pow(2, Q - m);
    DivModIdentity(U, Pow(2, Q - m));
    PowAdd(2, Q - m, m);
    PowProduct(2, 5, m);
    RoundedAtPlaces(f, bits, m);
    RoundedAtPlaces(f, bits, count);
    var w, p := Pow(2, Q), Pow(10, count - m);
    var v := z * Pow(5, m);
    assert U * Pow(10, m) == v * w by { Interchange(z, Pow(2, Q - m), Pow(5, m), Pow(2, m)); }
    RoundEvenWhole(v, w);
    PowAdd(10, m, count - m);
    MulAssoc(U, Pow(10, m), p);
    MulSwap(v, w, p);
    RoundEvenWhole(v * p, w);
  }

  /** 2^k divides u when 10^k divides u * 5^j. */
  lemma {:induction false} TensToTwos(u: nat, r: nat, j: nat, k: nat)
    requires u * Pow(5, j) == r * Pow(10, k)
    ensures u % Pow(2, k) == 0
    decreases k
  {
    hide Pow;
    if k == 0 {
      PowZero(2);
      DivModUnique(u, u, 1, 0);
    } else {
      PowSucc(10, k - 1);
      PowSucc(2, k - 1);
      var odd, ten := Pow(5, j), Pow(10, k - 1);
      OddPower(j);
      assert r * (10 * ten) == 2 * (r * (5 * ten)) by { MulAssoc(r, 2, 5 * ten); MulAssoc(2, r, 5 * ten); }
      EvenFactor(u, odd, r * (5 * ten));
      var h := u / 2;
      assert 2 * (h * odd) == 2 * (r * (5 * ten)) by { MulAssoc(2, h, odd); }
      assert h * odd == (5 * r) * ten by { MulAssoc(r, 5, ten); }
      TensToTwos(h, 5 * r, j, k - 1);
      var t := Pow(2, k - 1);
      DivModIdentity(h, t);
      assert u == (h / t) * (2 * t) by { MulAssoc(h / t, 2, t); MulAssoc(2, h / t, t); }
      DivModUnique(u, h / t, 2 * t, 0);
    }
  }

  lemma {:induction false} OddPower(j: nat)
    ensures Pow(5, j) % 2 == 1
  {
    hide Pow;
    if j == 0 {
      PowZero(5);
    } else {
      OddPower(j - 1);
      PowSucc(5, j - 1);
      FiveTimes(Pow(5, j - 1));
    }
  }

  lemma FiveTimes(p: nat)
    requires p % 2 == 1
    ensures 5 * p % 2 == 1
  {
  }

  lemma EvenFactor(u: nat, odd: nat, half: nat)
    requires u * odd == 2 * half && odd % 2 == 1
    ensures u % 2 == 0
  {
    var a, r := u / 2, u % 2;
    assert (2 * a + r) * odd == 2 * (a * odd) + r * odd;
  }
}
