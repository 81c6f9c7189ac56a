/** Binary interchange formats by their bit patterns, and what it means to round to the nearest of them. */
module Rounding {
  import opened Powers

  /** A format of p significand bits, its exponent bias, and the sizes the conversion file of that format declares. */
  datatype Format = Format(p: nat, bias: nat, limbs: nat, maxDigits: nat, chunks: nat, decimalTop: int,
                           decimalBottom: int)
  {
    ghost predicate Valid()
    {
      p >= 2 && bias >= 2
    }

    /** The biased exponent of infinity. */
    function Top(): nat
    {
      2 * bias + 1
    }

    /** The weight of the hidden bit, which is also the smallest normal pattern. */
    function Hidden(): (r: nat)
      requires p >= 1
      ensures r > 0
    {
      Pow(2, p - 1)
    }

    /** The pattern of infinity. */
    function Inf(): nat
      requires p >= 1
    {
      Top() * Hidden()
    }

    /** The smallest subnormal is 2^-Quantum. */
    function Quantum(): nat
      requires Valid()
    {
      bias + p - 2
    }

    /** What a pattern is worth, in units of the smallest subnormal. Infinity counts as the next power of two. */
    function Units(b: nat): nat
      requires p >= 1
    {
      var biased, frac := b / Hidden(), b % Hidden();
      if biased == 0 then frac else (Hidden() + frac) * Pow(2, biased - 1)
    }

    /** The distance from one pattern's value to the next. */
    function Gap(b: nat): (r: nat)
      requires p >= 1
      ensures r > 0
    {
      if b / Hidden() == 0 then 1 else Pow(2, b / Hidden() - 1)
    }

    lemma UnitsNext(b: nat)
      requires p >= 1
      ensures Units(b + 1) == Units(b) + Gap(b)
    {
      var h, q, r := Hidden(), b / Hidden(), b % Hidden();
      DivModIdentity(b, h);
      if r + 1 < h {
        DivModUnique(b + 1, q, h, r + 1);
        if q > 0 { Distribute(h + r, 1, Pow(2, q - 1)); }
      } else {
        Distribute(q, 1, h);
        DivModUnique(b + 1, q + 1, h, 0);
        if q == 0 {
          assert Pow(2, 0) == 1;
        } else {
          Distribute(h + r, 1, Pow(2, q - 1));
          Distribute(h, h, Pow(2, q - 1));
          MulAssoc(h, 2, Pow(2, q - 1));
        }
      }
    }

    lemma {:induction false} UnitsMonotone(b: nat, c: nat)
      requires p >= 1 && b < c
      ensures Units(b) < Units(c)
      decreases c
    {
      UnitsNext(c - 1);
      if b == c - 1 {
      } else {
        UnitsMonotone(b, c - 1);
      }
    }

    /** How far N/D is from the value of a pattern, in units times D. */
    function Distance(N: int, D: int, b: nat): nat
      requires p >= 1
    {
      var d := N - Units(b) * D;
      if d < 0 then -d else d
    }

    /** b is the pattern nearest N/D, and the even one of two that are equally near. */
    ghost predicate Nearest(N: nat, D: nat, b: nat)
      requires p >= 1
    {
      b <= Inf() &&
      forall c: nat :: c <= Inf() && c != b ==>
        Distance(N, D, b) < Distance(N, D, c) || (Distance(N, D, b) == Distance(N, D, c) && b % 2 == 0)
    }

    /** The pattern is the one nearest X/Y, and range says whether that overflows, or underflows and is not exact. */
    ghost predicate RoundsTo(X: nat, Y: nat, b: nat, range: bool)
      requires Valid()
    {
      && Nearest(X * Pow(2, Quantum()), Y, b)
      && (range <==> b == Inf() || (b < Hidden() && X * Pow(2, Quantum()) != Units(b) * Y))
    }

    /** Between two adjacent patterns: the nearer, or the even one at the midpoint. */
    function RoundAt(N: nat, D: nat, b: nat): nat
      requires p >= 1
    {
      var middle := (Units(b) + Units(b + 1)) * D;
      if 2 * N < middle then b
      else if 2 * N > middle then b + 1
      else if b % 2 == 0 then b else b + 1
    }

    lemma RoundAtIsNearest(N: nat, D: nat, b: nat)
      requires p >= 1 && D > 0 && b < Inf()
      requires Units(b) * D <= N < Units(b + 1) * D
      ensures Nearest(N, D, RoundAt(N, D, b))
    {
      hide Units, Inf;
      var r := RoundAt(N, D, b);
      Distribute(Units(b), Units(b + 1), D);
      forall c: nat | c <= Inf() && c != r
        ensures Distance(N, D, r) < Distance(N, D, c) || (Distance(N, D, r) == Distance(N, D, c) && r % 2 == 0)
      {
        if c < b {
          UnitsMonotone(c, b);
          MulStrict(Units(c), Units(b), D);
        } else if c > b + 1 {
          UnitsMonotone(b + 1, c);
          MulStrict(Units(b + 1), Units(c), D);
        }
      }
    }

    lemma OverflowIsNearest(N: nat, D: nat)
      requires p >= 1 && D > 0
      requires N >= Units(Inf()) * D
      ensures Nearest(N, D, Inf())
    {
      hide Units, Inf;
      forall c: nat | c <= Inf() && c != Inf()
        ensures Distance(N, D, Inf()) < Distance(N, D, c)
      {
        UnitsMonotone(c, Inf());
        MulStrict(Units(c), Units(Inf()), D);
      }
    }

    /** Infinity is the answer exactly from halfway between the largest finite value and the next power of two. */
    lemma OverflowThreshold(N: nat, D: nat)
      requires Valid() && D > 0
      ensures Nearest(N, D, Inf()) <==> 2 * N >= (Units(Inf() - 1) + Units(Inf())) * D
    {
      hide Units;
      var m := Inf() - 1;
      assert Inf() > 0 && Inf() % 2 == 0 by { InfEven(); }
      UnitsMonotone(m, m + 1);
      MulStrict(Units(m), Units(m + 1), D);
      Distribute(Units(m), Units(m + 1), D);
      if Nearest(N, D, Inf()) {
        assert Distance(N, D, Inf()) <= Distance(N, D, m);
      }
      if 2 * N >= (Units(m) + Units(m + 1)) * D {
        if N >= Units(m + 1) * D {
          OverflowIsNearest(N, D);
        } else {
          RoundAtIsNearest(N, D, m);
        }
      }
    }

    lemma InfEven()
      requires Valid()
      ensures Inf() > 0 && Inf() % 2 == 0 && Hidden() % 2 == 0
    {
      var h := Pow(2, p - 2);
      assert Hidden() == 2 * h;
      assert Inf() == 2 * (Top() * h) by { MulAssoc(2, Top(), h); MulAssoc(Top(), 2, h); }
      MulPositive(Top(), Hidden());
    }

    /** No other pattern is nearest. */
    lemma NearestUnique(N: nat, D: nat, b: nat, c: nat)
      requires p >= 1 && D > 0 && Nearest(N, D, b) && Nearest(N, D, c)
      ensures b == c
    {
      hide Units, Inf;
      if b + 1 < c {
        BetweenIsNearer(N, D, b, c);
      } else if c + 1 < b {
        BetweenIsNearer(N, D, c, b);
      }
    }

    lemma BetweenIsNearer(N: nat, D: nat, b: nat, c: nat)
      requires p >= 1 && D > 0 && b + 1 < c && Distance(N, D, b) == Distance(N, D, c)
      ensures Distance(N, D, b + 1) < Distance(N, D, b)
    {
      hide Units, Inf;
      UnitsMonotone(b, b + 1);
      UnitsMonotone(b + 1, c);
      MulStrict(Units(b), Units(b + 1), D);
      MulStrict(Units(b + 1), Units(c), D);
    }

    /** The fraction's terms can be multiplied by any positive number. */
    lemma NearestScaled(N: nat, D: nat, k: nat, b: nat)
      requires p >= 1 && k > 0
      ensures Nearest(N * k, D * k, b) <==> Nearest(N, D, b)
    {
      hide Units, Inf;
      DistanceScaled(N, D, k, b);
      forall c: nat
        ensures Distance(N * k, D * k, c) == Distance(N, D, c) * k
        ensures Distance(N, D, b) < Distance(N, D, c) <==> Distance(N * k, D * k, b) < Distance(N * k, D * k, c)
        ensures Distance(N, D, b) == Distance(N, D, c) <==> Distance(N * k, D * k, b) == Distance(N * k, D * k, c)
      {
        DistanceScaled(N, D, k, c);
        CompareScaled(Distance(N, D, b), Distance(N, D, c), k);
      }
    }

    /** Two fractions of the same value round the same way. */
    lemma NearestSameRatio(N1: nat, D1: nat, N2: nat, D2: nat, b: nat)
      requires p >= 1 && D1 > 0 && D2 > 0 && N1 * D2 == N2 * D1
      ensures Nearest(N1, D1, b) <==> Nearest(N2, D2, b)
    {
      hide Nearest;
      NearestScaled(N1, D1, D2, b);
      NearestScaled(N2, D2, D1, b);
      assert D1 * D2 == D2 * D1;
    }

    lemma SameRatioExact(N1: nat, D1: nat, N2: nat, D2: nat, u: nat)
      requires D1 > 0 && D2 > 0 && N1 * D2 == N2 * D1
      ensures N1 == u * D1 <==> N2 == u * D2
    {
      if N1 == u * D1 {
        MulSwap(u, D1, D2);
        MulCancelEq(N2, u * D2, D1);
      }
      if N2 == u * D2 {
        MulSwap(u, D2, D1);
        MulCancelEq(N1, u * D1, D2);
      }
    }

    /** b is nearest when the number lies between the two midpoints beside b, or on one of them and b is even. */
    ghost predicate BetweenMidpoints(N: nat, D: nat, b: nat)
      requires p >= 1
    {
      b <= Inf() &&
      (b > 0 ==> (Units(b - 1) + Units(b)) * D < 2 * N || ((Units(b - 1) + Units(b)) * D == 2 * N && b % 2 == 0)) &&
      (b < Inf() ==> 2 * N < (Units(b) + Units(b + 1)) * D || (2 * N == (Units(b) + Units(b + 1)) * D && b % 2 == 0))
    }

    lemma NearestIsBetween(N: nat, D: nat, b: nat)
      requires p >= 1 && D > 0 && Nearest(N, D, b)
      ensures BetweenMidpoints(N, D, b)
    {
      hide Units, Inf;
      if b > 0 {
        UnitsMonotone(b - 1, b);
        MulStrict(Units(b - 1), Units(b), D);
        Distribute(Units(b - 1), Units(b), D);
        assert Distance(N, D, b) <= Distance(N, D, b - 1);
      }
      if b < Inf() {
        UnitsMonotone(b, b + 1);
        MulStrict(Units(b), Units(b + 1), D);
        Distribute(Units(b), Units(b + 1), D);
        assert Distance(N, D, b) <= Distance(N, D, b + 1);
      }
    }

    lemma BetweenIsNearest(N: nat, D: nat, b: nat)
      requires p >= 1 && D > 0 && BetweenMidpoints(N, D, b)
      ensures Nearest(N, D, b)
    {
      hide Units, Inf;
      if b > 0 { Distribute(Units(b - 1), Units(b), D); }
      Distribute(Units(b), Units(b + 1), D);
      forall c: nat | c <= Inf() && c != b
        ensures Distance(N, D, b) < Distance(N, D, c) || (Distance(N, D, b) == Distance(N, D, c) && b % 2 == 0)
      {
        if c < b {
          UnitsMonotone(c, b);
          if c < b - 1 { UnitsMonotone(c, b - 1); MulStrict(Units(c), Units(b - 1), D); }
          MulStrict(Units(c), Units(b), D);
        } else {
          UnitsMonotone(b, c);
          if c > b + 1 { UnitsMonotone(b + 1, c); MulStrict(Units(b + 1), Units(c), D); }
          MulStrict(Units(b), Units(c), D);
        }
      }
    }

    /** A pattern's value is a significand of at most p bits times a power of two. */
    lemma UnitsForm(b: nat) returns (sig: nat, g: nat)
      requires Valid()
      ensures sig < Pow(2, p) && Units(b) == sig * Pow(2, g) && Gap(b) == Pow(2, g)
    {
      var biased, frac := b / Hidden(), b % Hidden();
      DivModIdentity(b, Hidden());
      assert Pow(2, p) == 2 * Pow(2, p - 1);
      if biased == 0 {
        sig, g := frac, 0;
        assert Pow(2, 0) == 1;
      } else {
        sig, g := Hidden() + frac, biased - 1;
      }
    }

    lemma DistanceScaled(N: nat, D: nat, k: nat, b: nat)
      requires p >= 1 && k > 0
      ensures Distance(N * k, D * k, b) == Distance(N, D, b) * k
    {
      hide Units;
      var u := Units(b);
      MulAssoc(u, D, k);
      var d := N - u * D;
      assert N * k - u * (D * k) == d * k;
      if d < 0 {
        assert d * k < 0;
      }
    }
  }

  const Binary64 := Format(53, 1023, 132, 780, 90, 310, -325)
  const Binary32 := Format(24, 127, 40, 120, 16, 40, -46)

  lemma CompareScaled(x: nat, y: nat, k: nat)
    requires k > 0
    ensures x < y <==> x * k < y * k
    ensures x == y <==> x * k == y * k
  {
    if x < y {
      MulStrict(x, y, k);
    } else if y < x {
      MulStrict(y, x, k);
    }
  }
}
