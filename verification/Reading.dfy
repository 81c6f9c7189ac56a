/** Decimal and hexadecimal numbers to binary: the significand comes from a quotient of big integers. */
module Reading {
  import opened Powers
  import opened BigInts
  import opened Rounding

  // ---- the quotient ----------------------------------------------------------------------------

  /** x * 2^s for s >= 0, x unchanged otherwise: the two sides of num * 2^s / den. */
  function Up(x: nat, s: int): (r: nat)
    ensures x > 0 ==> r > 0
  {
    if s >= 0 then x * Pow(2, s) else x
  }

  /** floor(num * 2^s / den), a bit in each turn of the loop, and whether the division leaves a rest. */
  method ScaledQuotient(f: Format, num: Big, den: Big, s: int) returns (q: nat, sticky: bool)
    requires f.Valid() && f.limbs > 0 && num.Valid() && den.Valid() && den.Value() > 0
    requires num.w.Length <= f.limbs && den.w.Length <= f.limbs
    requires Up(num.Value(), s) < Pow(2, 32 * f.limbs)
    requires Up(den.Value(), -s) * Pow(2, f.p + 2) < Pow(2, 32 * f.limbs)
    requires Up(num.Value(), s) < Up(den.Value(), -s) * Pow(2, f.p + 3)
    ensures q == Up(num.Value(), s) / Up(den.Value(), -s)
    ensures sticky <==> Up(num.Value(), s) % Up(den.Value(), -s) != 0
  {
    hide Pow, Up, Big.Value;
    ghost var A, D := Up(num.Value(), s), Up(den.Value(), -s);
    var a, b := Prepare(f, num, den, s);
    q := 0;
    var bit := f.p + 2;
    while bit >= 0
      invariant -1 <= bit && a.Valid() && b.Valid() && fresh({a, b, a.w, b.w}) && a != b && a.w != b.w
      invariant bit >= 0 ==> b.Value() == D * Pow(2, bit)
      invariant a.Value() + q * D == A && a.Value() < D * Pow(2, bit + 1)
    {
      var c := a.Cmp(b);
      if c >= 0 {
        QuotientBit(q, D, bit);
        a.Sub(b);
        q := q + Power2(bit);
      }
      HalveDivisor(D, bit);
      b.Shr1();
      bit := bit - 1;
    }
    sticky := a.n != 0;
    a.ZeroIsEmpty();
    LastRemainder(A, q, D, a.Value());
  }

  /** 1 << bit. */
  function Power2(bit: nat): (r: nat)
    ensures r == Pow(2, bit)
  {
    Pow(2, bit)
  }

  method Prepare(f: Format, num: Big, den: Big, s: int) returns (a: Big, b: Big)
    requires f.Valid() && f.limbs > 0 && num.Valid() && den.Valid() && den.Value() > 0
    requires num.w.Length <= f.limbs && den.w.Length <= f.limbs
    requires Up(num.Value(), s) < Pow(2, 32 * f.limbs)
    requires Up(den.Value(), -s) * Pow(2, f.p + 2) < Pow(2, 32 * f.limbs)
    ensures fresh({a, b, a.w, b.w}) && a.Valid() && b.Valid() && a != b && a.w != b.w
    ensures a.Value() == Up(num.Value(), s)
    ensures b.Value() == Up(den.Value(), -s) * Pow(2, f.p + 2)
  {
    hide Pow, Big.Value, Big.Capacity;
    a := CopyOf(f, num);
    b := CopyOf(f, den);
    NoSmaller(Up(den.Value(), -s), Pow(2, f.p + 2));
    if s >= 0 {
      PowZero(2);
      a.Shl(s);
    } else {
      b.Shl(-s);
    }
    b.Shl(f.p + 2);
  }

  /** A working copy, as large as the format's numbers get. */
  method CopyOf(f: Format, from: Big) returns (a: Big)
    requires f.limbs > 0 && from.Valid() && from.w.Length <= f.limbs
    ensures fresh({a, a.w}) && a.Valid() && a.Value() == from.Value()
    ensures a.Capacity() == Pow(2, 32 * f.limbs)
  {
    a := new Big(f.limbs);
    a.CapacityBits();
    a.Copy(from);
  }

  lemma NoSmaller(x: nat, y: nat)
    requires y > 0
    ensures x <= x * y
  {
    MulMonotone(1, y, x);
  }

  lemma QuotientBit(q: nat, D: nat, bit: nat)
    ensures (q + Pow(2, bit)) * D == q * D + D * Pow(2, bit)
  {
  }

  lemma HalveDivisor(D: nat, bit: nat)
    ensures D * Pow(2, bit + 1) == D * Pow(2, bit) + D * Pow(2, bit)
    ensures bit > 0 ==> D * Pow(2, bit) / 2 == D * Pow(2, bit - 1)
  {
    assert Pow(2, bit + 1) == 2 * Pow(2, bit);
    if bit > 0 {
      assert Pow(2, bit) == 2 * Pow(2, bit - 1);
      assert D * Pow(2, bit) == 2 * (D * Pow(2, bit - 1));
    }
  }

  lemma LastRemainder(A: nat, q: nat, D: nat, r: nat)
    requires r + q * D == A && r < D * Pow(2, 0) && D > 0
    ensures q == A / D && r == A % D
  {
    assert Pow(2, 0) == 1;
    DivModUnique(A, q, D, r);
  }

  // ---- rounding the quotient -------------------------------------------------------------------

  /** q and sticky are what floor(X * 2^s / Y) and its remainder say. */
  ghost predicate Quotient(X: nat, Y: nat, s: int, q: nat, sticky: bool)
  {
    Y > 0 && q == Up(X, s) / Up(Y, -s) && (sticky <==> Up(X, s) % Up(Y, -s) != 0)
  }

  /** The number being read is X/Y: num/den itself or, when digits were dropped, anything that leaves
      the same quotient as num/den at every scale the conversion looks at, and a remainder. */
  ghost predicate StandsFor(f: Format, num: nat, den: nat, dropped: bool, X: nat, Y: nat)
  {
    Y > 0 && den > 0 &&
    if !dropped then X == num && Y == den
    else forall s: int :: Up(num, s) < Up(den, -s) * Pow(2, f.p + 3) ==>
      Quotient(X, Y, s, Up(num, s) / Up(den, -s), true)
  }

  lemma StandsAt(f: Format, num: nat, den: nat, dropped: bool, X: nat, Y: nat, s: int, q: nat, sticky: bool)
    requires StandsFor(f, num, den, dropped, X, Y)
    requires Up(num, s) < Up(den, -s) * Pow(2, f.p + 3)
    requires Quotient(num, den, s, q, sticky)
    ensures Quotient(X, Y, s, q, sticky || dropped)
  {
  }

  /** The scale the conversion starts from gives p + 1 or p + 2 bits of quotient, and nothing is cut. */
  lemma FirstQuotientFits(f: Format, num: nat, den: nat, bn: nat, bd: nat)
    requires f.Valid() && 32 * f.limbs >= f.p + 2
    requires 0 < bn && Pow(2, bn - 1) <= num < Pow(2, bn)
    requires 0 < bd && Pow(2, bd - 1) <= den < Pow(2, bd)
    requires num < Pow(2, 32 * f.limbs - f.p - 2) && den < Pow(2, 32 * f.limbs - f.p - 2)
    ensures var s := f.p as int + 1 - (bn as int - bd as int);
      Up(num, s) < Pow(2, 32 * f.limbs) && Up(den, -s) * Pow(2, f.p + 2) < Pow(2, 32 * f.limbs)
      && Up(den, -s) * Pow(2, f.p) <= Up(num, s) < Up(den, -s) * Pow(2, f.p + 2)
      && Up(num, s) < Up(den, -s) * Pow(2, f.p + 3)
  {
    hide Pow, Up;
    var s := f.p as int + 1 - (bn as int - bd as int);
    var c := 32 * f.limbs;
    BitsBelow(num, bn, c - f.p - 2);
    BitsBelow(den, bd, c - f.p - 2);
    UpBits(num, bn, s);
    UpBits(den, bd, -s);
    var a, d := bn + (if s >= 0 then s else 0), bd + (if s < 0 then -s else 0);
    assert a == d + f.p + 1;
    BitsApart(Up(num, s), Up(den, -s), d, f.p, c);
    WiderBound(Up(num, s), Up(den, -s), f.p);
  }

  lemma BitsApart(x: nat, y: nat, d: nat, p: nat, c: nat)
    requires d > 0 && d + p + 2 <= c && Pow(2, d + p) <= x < Pow(2, d + p + 1) && Pow(2, d - 1) <= y < Pow(2, d)
    ensures x < Pow(2, c) && y * Pow(2, p + 2) < Pow(2, c) && y * Pow(2, p) <= x < y * Pow(2, p + 2)
  {
    hide Pow;
    PowAdd(2, d, p + 2);
    PowAdd(2, d, p);
    PowAdd(2, d - 1, p + 2);
    MulStrict(y, Pow(2, d), Pow(2, p + 2));
    MulMonotone(y, Pow(2, d), Pow(2, p));
    MulMonotone(Pow(2, d - 1), y, Pow(2, p + 2));
    PowMonotone(2, d + p + 1, c);
    PowMonotone(2, d + p + 2, c);
  }

  lemma WiderBound(x: nat, y: nat, p: nat)
    requires x < y * Pow(2, p + 2)
    ensures x < y * Pow(2, p + 3)
  {
    PowMonotone(2, p + 2, p + 3);
    MulMonotone(Pow(2, p + 2), Pow(2, p + 3), y);
  }

  lemma BitsBelow(x: nat, b: nat, k: nat)
    requires b > 0 && Pow(2, b - 1) <= x < Pow(2, k)
    ensures b <= k
  {
    if b > k {
      PowMonotone(2, k, b - 1);
    }
  }

  lemma UpBits(x: nat, b: nat, s: int)
    requires b > 0 && Pow(2, b - 1) <= x < Pow(2, b)
    ensures var c := b + (if s >= 0 then s else 0);
      Pow(2, c - 1) <= Up(x, s) < Pow(2, c)
  {
    if s >= 0 {
      PowAdd(2, b - 1, s);
      PowAdd(2, b, s);
      MulMonotone(Pow(2, b - 1), x, Pow(2, s));
      MulStrict(x, Pow(2, b), Pow(2, s));
    }
  }

  /** A quotient as a pair of inequalities. */
  lemma QuotientBounds(X: nat, Y: nat, s: int, q: nat, sticky: bool)
    requires Quotient(X, Y, s, q, sticky)
    ensures Y > 0 && q * Up(Y, -s) <= Up(X, s) < (q + 1) * Up(Y, -s)
    ensures sticky <==> Up(X, s) != q * Up(Y, -s)
  {
    DivModIdentity(Up(X, s), Up(Y, -s));
    Distribute(q, 1, Up(Y, -s));
  }

  lemma QuotientFromBounds(X: nat, Y: nat, s: int, q: nat, sticky: bool)
    requires Y > 0 && q * Up(Y, -s) <= Up(X, s) < (q + 1) * Up(Y, -s)
    requires sticky <==> Up(X, s) != q * Up(Y, -s)
    ensures Quotient(X, Y, s, q, sticky)
  {
    Distribute(q, 1, Up(Y, -s));
    DivModUnique(Up(X, s), q, Up(Y, -s), Up(X, s) - q * Up(Y, -s));
  }

  lemma UpStep(x: nat, s: int)
    ensures s >= 1 ==> Up(x, s) == 2 * Up(x, s - 1)
    ensures s <= 0 ==> Up(x, s) == x
  {
    if s >= 1 {
      assert Pow(2, s) == 2 * Pow(2, s - 1);
      assert x * (2 * Pow(2, s - 1)) == 2 * (x * Pow(2, s - 1));
    }
    assert Pow(2, 0) == 1;
  }

  lemma HalveQuotient(X: nat, Y: nat, s: int, q: nat, sticky: bool)
    requires Quotient(X, Y, s, q, sticky)
    ensures Quotient(X, Y, s - 1, q / 2, sticky || q % 2 == 1)
  {
    hide Up, Quotient, Pow;
    QuotientBounds(X, Y, s, q, sticky);
    UpStep(X, s);
    UpStep(X, s - 1);
    UpStep(Y, 1 - s);
    UpStep(Y, -s);
    if s >= 1 {
      HalveNumerator(Up(X, s - 1), q, Up(Y, -s));
    } else {
      DoubleDenominator(Up(X, s), q, Up(Y, -s));
    }
    QuotientFromBounds(X, Y, s - 1, q / 2, sticky || q % 2 == 1);
  }

  lemma HalveNumerator(A: nat, q: nat, D: nat)
    requires q * D <= 2 * A < (q + 1) * D
    ensures (q / 2) * D <= A < (q / 2 + 1) * D
    ensures A == (q / 2) * D <==> 2 * A == q * D && q % 2 == 0
  {
    var h, r := q / 2, q % 2;
    assert q * D == 2 * (h * D) + r * D;
    Distribute(q, 1, D);
    Distribute(h, 1, D);
    if r == 1 { assert r * D == D; }
  }

  lemma DoubleDenominator(A: nat, q: nat, D: nat)
    requires q * D <= A < (q + 1) * D
    ensures (q / 2) * (2 * D) <= A < (q / 2 + 1) * (2 * D)
    ensures A == (q / 2) * (2 * D) <==> A == q * D && q % 2 == 0
  {
    var h, r := q / 2, q % 2;
    assert q * D == 2 * (h * D) + r * D;
    assert h * (2 * D) == 2 * (h * D);
    Distribute(q, 1, D);
    Distribute(h, 1, 2 * D);
    if r == 1 { assert r * D == D; }
  }

  /** The quotient's place in units of the smallest subnormal: X/Y is X * 2^Quantum / Y of them. */
  lemma ToUnits(f: Format, X: nat, Y: nat, s: int, q: nat, sticky: bool)
    requires f.Valid() && Quotient(X, Y, s, q, sticky) && s <= f.Quantum() + 2
    ensures var N, W := X * Pow(2, f.Quantum()), Pow(2, f.Quantum() + 2 - s) * Y;
      q * W <= 4 * N < (q + 1) * W && (sticky <==> 4 * N != q * W)
  {
    hide Up, Quotient, Pow;
    var Q := f.Quantum();
    var u := Q + 2 - s;
    QuotientBounds(X, Y, s, q, sticky);
    FourTimes(X, Q);
    UpForms(X, Y, s);
    if s >= 0 {
      PowAdd(2, s, u);
      ScaleNumerator(q, Y, X, Pow(2, s), Pow(2, u));
    } else {
      PowAdd(2, -s, Q + 2);
      ScaleDenominator(q, Y, X, Pow(2, -s), Pow(2, Q + 2));
    }
  }

  lemma ScaleNumerator(q: nat, Y: nat, X: nat, ps: nat, pu: nat)
    requires pu > 0 && q * Y <= X * ps < (q + 1) * Y
    ensures q * (pu * Y) <= X * (ps * pu) < (q + 1) * (pu * Y)
    ensures X * (ps * pu) == q * (pu * Y) <==> X * ps == q * Y
  {
    ScaleBounds(q, Y, X * ps, pu);
    MulAssoc(X, ps, pu);
  }

  lemma ScaleDenominator(q: nat, Y: nat, X: nat, ps: nat, pt: nat)
    requires pt > 0 && q * (Y * ps) <= X < (q + 1) * (Y * ps)
    ensures q * ((ps * pt) * Y) <= X * pt < (q + 1) * ((ps * pt) * Y)
    ensures X * pt == q * ((ps * pt) * Y) <==> X == q * (Y * ps)
  {
    ScaleBounds(q, Y * ps, X, pt);
    MulAssoc(Y, ps, pt);
  }

  lemma UpForms(X: nat, Y: nat, s: int)
    ensures s >= 0 ==> Up(X, s) == X * Pow(2, s) && Up(Y, -s) == Y
    ensures s < 0 ==> Up(X, s) == X && Up(Y, -s) == Y * Pow(2, -s)
  {
    assert Pow(2, 0) == 1;
  }

  lemma FourTimes(x: nat, k: nat)
    ensures x * Pow(2, k + 2) == 4 * (x * Pow(2, k))
  {
    assert Pow(2, k + 2) == 2 * Pow(2, k + 1) == 4 * Pow(2, k);
  }

  lemma ScaleBounds(q: nat, D: nat, A: nat, k: nat)
    requires k > 0 && q * D <= A < (q + 1) * D
    ensures q * (k * D) <= A * k < (q + 1) * (k * D)
    ensures q * (D * k) <= A * k < (q + 1) * (D * k)
    ensures A * k == q * (k * D) <==> A == q * D
    ensures k * D == D * k
  {
    MulMonotone(q * D, A, k);
    MulStrict(A, (q + 1) * D, k);
    MulAssoc(q, D, k);
    MulAssoc(q + 1, D, k);
    CompareScaled(A, q * D, k);
  }

  /** Half the quotient is the pattern below the number; its last bit and the remainder decide the rounding. */
  lemma RoundQuotient(f: Format, N: nat, Y: nat, b: nat, g: nat, q: nat, sticky: bool)
    requires f.Valid() && Y > 0 && b < f.Inf() && b % 2 == (q / 2) % 2
    requires f.Units(b) == (q / 2) * g && f.Units(b + 1) == (q / 2 + 1) * g
    requires var W := (2 * g) * Y; q * W <= 4 * N < (q + 1) * W && (sticky <==> 4 * N != q * W)
    ensures f.Nearest(N, Y, if q % 2 == 1 && (sticky || (q / 2) % 2 == 1) then b + 1 else b)
    ensures (q % 2 == 1 || sticky) <==> N != f.Units(b) * Y
    ensures f.Units(b) * Y <= N
  {
    hide Format.Units, Format.Nearest, Format.Inf;
    var m, r, w := q / 2, q % 2, g * Y;
    HalfSteps(m, r, g, Y);
    MulAssoc(m, g, Y);
    MulAssoc(m + 1, g, Y);
    Distribute(m, 1, w);
    Distribute(f.Units(b), f.Units(b + 1), Y);
    f.RoundAtIsNearest(N, Y, b);
  }

  lemma HalfSteps(m: nat, r: nat, g: nat, Y: nat)
    requires r <= 1
    ensures (2 * m + r) * ((2 * g) * Y) == 4 * (m * (g * Y)) + r * (2 * (g * Y))
    ensures (2 * m + r + 1) * ((2 * g) * Y) == 4 * (m * (g * Y)) + r * (2 * (g * Y)) + 2 * (g * Y)
  {
    var w := g * Y;
    assert (2 * g) * Y == 2 * w;
    assert (2 * m + r) * (2 * w) == 4 * (m * w) + r * (2 * w);
    Distribute(2 * m + r, 1, 2 * w);
  }

  /** A significand of p bits and a biased exponent, as the pattern spells them. */
  lemma NormalPattern(f: Format, biased: nat, m: nat)
    requires f.Valid() && biased >= 1 && f.Hidden() <= m < 2 * f.Hidden()
    ensures var b := biased * f.Hidden() + (m - f.Hidden());
      f.Units(b) == m * Pow(2, biased - 1) && f.Units(b + 1) == (m + 1) * Pow(2, biased - 1)
      && b % 2 == m % 2 && (biased < f.Top() ==> b < f.Inf()) && b >= f.Hidden()
  {
    hide Pow, Format.Hidden, Format.Units, Format.Gap, Format.Inf;
    NormalUnits(f, biased, m);
    Distribute(m, 1, Pow(2, biased - 1));
    PatternRange(f, biased, m - f.Hidden());
    f.InfEven();
    SameParity(m, f.Hidden());
  }

  lemma SameParity(m: nat, h: nat)
    requires h <= m && h % 2 == 0
    ensures (m - h) % 2 == m % 2
  {
  }

  lemma NormalUnits(f: Format, biased: nat, m: nat)
    requires f.Valid() && biased >= 1 && f.Hidden() <= m < 2 * f.Hidden()
    ensures var b := biased * f.Hidden() + (m - f.Hidden());
      f.Units(b) == m * Pow(2, biased - 1) && f.Units(b + 1) == m * Pow(2, biased - 1) + Pow(2, biased - 1)
  {
    hide Pow, Format.Hidden;
    var h := f.Hidden();
    f.UnitsNext(biased * h + (m - h));
    DivModUnique(biased * h + (m - h), biased, h, m - h);
  }

  lemma PatternRange(f: Format, biased: nat, frac: nat)
    requires f.Valid() && biased >= 1 && frac < f.Hidden()
    ensures var b := biased * f.Hidden() + frac;
      b % 2 == frac % 2 && (biased < f.Top() ==> b < f.Inf()) && b >= f.Hidden()
  {
    hide Pow, Format.Hidden;
    var h := f.Hidden();
    f.InfEven();
    assert (biased * h + frac) % 2 == frac % 2 by {
      assert biased * h == 2 * (biased * (h / 2));
    }
    MulMonotone(1, biased, h);
    Distribute(biased, 1, h);
    if biased < f.Top() {
      MulMonotone(biased + 1, f.Top(), h);
    }
  }

  lemma SubnormalPattern(f: Format, m: nat)
    requires f.Valid() && m < f.Hidden()
    ensures f.Units(m) == m && f.Units(m + 1) == m + 1 && m + 1 < f.Inf()
  {
    f.UnitsNext(m);
    DivModUnique(m, 0, f.Hidden(), m);
    MulMonotone(3, f.Top(), f.Hidden());
  }

  lemma FirstQuotient(f: Format, num: nat, den: nat, dropped: bool, X: nat, Y: nat, s: int, q: nat, sticky: bool)
    requires StandsFor(f, num, den, dropped, X, Y)
    requires Up(den, -s) * Pow(2, f.p) <= Up(num, s) < Up(den, -s) * Pow(2, f.p + 2)
    requires Up(num, s) < Up(den, -s) * Pow(2, f.p + 3)
    requires Quotient(num, den, s, q, sticky)
    ensures Quotient(X, Y, s, q, sticky || dropped)
    ensures Pow(2, f.p) <= q < 2 * Pow(2, f.p + 1)
  {
    hide Up, Quotient, StandsFor, Pow;
    StandsAt(f, num, den, dropped, X, Y, s, q, sticky);
    QuotientBounds(num, den, s, q, sticky);
    QuotientRange(Up(num, s), Up(den, -s), q, Pow(2, f.p), Pow(2, f.p + 2));
    PowSucc(2, f.p + 1);
  }

  lemma QuotientRange(A: nat, D: nat, q: nat, lo: nat, hi: nat)
    requires D > 0 && D * lo <= A < D * hi && q * D <= A < (q + 1) * D
    ensures lo <= q < hi
  {
    MulCancelLess(lo, q + 1, D);
    MulCancelLess(q, hi, D);
  }

  /** Half a quotient between 2^p and 2^(p+1) is a normal significand. */
  lemma SignificandRange(f: Format, q: nat)
    requires f.Valid() && Pow(2, f.p) <= q < Pow(2, f.p + 1)
    ensures f.Hidden() <= q / 2 < 2 * f.Hidden() == Pow(2, f.p)
  {
    assert Pow(2, f.p) == 2 * Pow(2, f.p - 1);
    assert Pow(2, f.p + 1) == 2 * Pow(2, f.p);
  }

  lemma NormalRounds(f: Format, X: nat, Y: nat, s: int, q: nat, sticky: bool)
    requires f.Valid() && Quotient(X, Y, s, q, sticky) && Pow(2, f.p) <= q < Pow(2, f.p + 1)
    requires 1 <= f.p - s + f.bias < f.Top()
    ensures f.Hidden() <= q / 2 < 2 * f.Hidden() == Pow(2, f.p)
    ensures var b := (f.p - s + f.bias) * f.Hidden() + (q / 2 - f.Hidden());
      var up := q % 2 == 1 && (sticky || (q / 2) % 2 == 1);
      f.Hidden() <= b < f.Inf() && f.Nearest(X * Pow(2, f.Quantum()), Y, if up then b + 1 else b)
  {
    hide Quotient, Format.Units, Format.Nearest, Format.Inf, Format.Hidden, Pow;
    var u := f.p - s + f.bias;
    var m := q / 2;
    SignificandRange(f, q);
    NormalPattern(f, u, m);
    ToUnits(f, X, Y, s, q, sticky);
    PowSucc(2, u - 1);
    assert Y > 0 by { QuotientBounds(X, Y, s, q, sticky); }
    RoundQuotient(f, X * Pow(2, f.Quantum()), Y, u * f.Hidden() + (m - f.Hidden()), Pow(2, u - 1), q, sticky);
  }

  /** The significand rounded up when the quotient's last bit says so, and packed; 2^p carries into the exponent. */
  method RoundNormal(f: Format, biased0: nat, q: nat, sticky: bool) returns (bits: nat, range: bool)
    requires f.Valid() && 1 <= biased0 < f.Top() && f.Hidden() <= q / 2 < 2 * f.Hidden() == Pow(2, f.p)
    ensures bits == biased0 * f.Hidden() + (q / 2 - f.Hidden())
      + (if q % 2 == 1 && (sticky || (q / 2) % 2 == 1) then 1 else 0)
    ensures range <==> bits == f.Inf()
  {
    hide Pow, Format.Hidden, Format.Inf;
    var biased, m := biased0, q / 2;
    if q % 2 == 1 && (sticky || m % 2 == 1) {
      m := m + 1;
    }
    NormalFields(f, biased, m);
    if m == Power2(f.p) {
      m := m / 2;
      biased := biased + 1;
      if biased >= f.Top() {
        return f.Inf(), true;
      }
    }
    return biased * f.Hidden() + m % f.Hidden(), false;
  }

  /** What the fields of a rounded normal number spell, with a significand that may have reached 2^p. */
  lemma NormalFields(f: Format, biased: nat, m: nat)
    requires f.Valid() && 1 <= biased < f.Top() && f.Hidden() <= m <= 2 * f.Hidden()
    ensures var r := biased * f.Hidden() + (m - f.Hidden());
      if m == 2 * f.Hidden() then m / 2 == f.Hidden() && m / 2 % f.Hidden() == 0 && r == (biased + 1) * f.Hidden()
        && (biased + 1 == f.Top() <==> r == f.Inf())
      else r == biased * f.Hidden() + m % f.Hidden() && r < f.Inf()
  {
    hide Pow, Format.Hidden;
    var h := f.Hidden();
    Distribute(biased, 1, h);
    if m == 2 * h {
      DivModUnique(h, 1, h, 0);
      CompareScaled(biased + 1, f.Top(), h);
    } else {
      DivModUnique(m, 1, h, m - h);
      PatternRange(f, biased, m - h);
    }
  }

  lemma Overflows(f: Format, X: nat, Y: nat, s: int, q: nat, sticky: bool)
    requires f.Valid() && Quotient(X, Y, s, q, sticky) && Pow(2, f.p) <= q
    requires f.p - s + f.bias >= f.Top()
    ensures f.Nearest(X * Pow(2, f.Quantum()), Y, f.Inf())
  {
    hide Quotient, Format.Units, Format.Nearest, Format.Inf, Format.Hidden, Pow;
    var u, t := f.p - s + f.bias, f.Top();
    var N := X * Pow(2, f.Quantum());
    ToUnits(f, X, Y, s, q, sticky);
    assert Y > 0 by { QuotientBounds(X, Y, s, q, sticky); }
    InfUnits(f);
    PowMonotone(2, t, u);
    MulMonotone2(Pow(2, f.p), q, Pow(2, t), Pow(2, u));
    MulMonotone(Pow(2, f.p) * Pow(2, t), q * Pow(2, u), Y);
    MulAssoc(q, Pow(2, u), Y);
    MulAssoc(4, f.Units(f.Inf()), Y);
    f.OverflowIsNearest(N, Y);
  }

  lemma InfUnits(f: Format)
    requires f.Valid()
    ensures 4 * f.Units(f.Inf()) == Pow(2, f.p) * Pow(2, f.Top())
  {
    hide Pow, Format.Hidden;
    var h, t := f.Hidden(), f.Top();
    DivModUnique(t * h, t, h, 0);
    assert f.Units(f.Inf()) == h * Pow(2, t - 1);
    PowSucc(2, t - 1);
    PowSucc(2, f.p - 1);
    assert h == Pow(2, f.p - 1) by { HiddenPower(f); }
    Interchange(2, 2, h, Pow(2, t - 1));
  }

  lemma HiddenPower(f: Format)
    requires f.Valid()
    ensures f.Hidden() == Pow(2, f.p - 1)
  {
  }

  lemma SubnormalFits(f: Format, num: nat, den: nat, s: int, q: nat, sticky: bool)
    requires f.Valid() && 32 * f.limbs >= f.p + 2 && den < Pow(2, 32 * f.limbs - f.p - 2)
    requires Quotient(num, den, s, q, sticky) && q < Pow(2, f.p + 1) && s >= f.Quantum() + 2
    ensures var t := f.Quantum() + 1;
      Up(num, t) < Up(den, -t) * Pow(2, f.p) && Up(num, t) < Up(den, -t) * Pow(2, f.p + 3)
      && Up(num, t) < Pow(2, 32 * f.limbs) && Up(den, -t) * Pow(2, f.p + 2) < Pow(2, 32 * f.limbs)
  {
    hide Quotient, Pow, Up;
    var t, c := f.Quantum() + 1, 32 * f.limbs;
    QuotientBounds(num, den, s, q, sticky);
    UpForms(num, den, s);
    UpForms(num, den, t);
    PowMonotone(2, t + 1, s);
    PowSucc(2, t);
    PowSucc(2, f.p);
    SubnormalScale(num, den, Pow(2, s), Pow(2, t), q, Pow(2, f.p));
    PowMonotone(2, f.p, f.p + 2);
    PowMonotone(2, f.p, f.p + 3);
    PowAdd(2, c - f.p - 2, f.p + 2);
    SubnormalRoom(num * Pow(2, t), den, Pow(2, f.p), Pow(2, f.p + 2), Pow(2, f.p + 3), Pow(2, c - f.p - 2));
  }

  lemma SubnormalScale(num: nat, den: nat, ps: nat, pt: nat, q: nat, bound: nat)
    requires num * ps < (q + 1) * den && 2 * pt <= ps && q < 2 * bound
    ensures num * pt < den * bound
  {
    MulMonotone(2 * pt, ps, num);
    MulMonotone(q + 1, 2 * bound, den);
    assert (2 * pt) * num == 2 * (num * pt);
    assert (2 * bound) * den == 2 * (den * bound);
  }

  lemma SubnormalRoom(x: nat, den: nat, a: nat, b: nat, c: nat, cap: nat)
    requires x < den * a && a <= b && a <= c && den < cap && b > 0
    ensures x < den * c && den * b < cap * b && x < cap * b
  {
    MulMonotone(a, c, den);
    MulMonotone(a, b, den);
    MulStrict(den, cap, b);
  }

  lemma SubnormalRounds(f: Format, X: nat, Y: nat, q: nat, sticky: bool)
    requires f.Valid() && Quotient(X, Y, f.Quantum() + 1, q, sticky) && q < Pow(2, f.p)
    ensures var N, m, up := X * Pow(2, f.Quantum()), q / 2, q % 2 == 1 && (sticky || (q / 2) % 2 == 1);
      m < f.Hidden() && m + 1 < f.Inf() && f.Nearest(N, Y, if up then m + 1 else m)
      && (q % 2 == 1 || sticky <==> N != f.Units(m) * Y) && (up ==> N != f.Units(m + 1) * Y)
  {
    hide Quotient, Format.Units, Format.Nearest, Format.Inf, Format.Hidden, Pow;
    var N := X * Pow(2, f.Quantum());
    var m := q / 2;
    assert q / 2 < f.Hidden() by { HiddenPower(f); PowSucc(2, f.p - 1); }
    SubnormalPattern(f, m);
    ToUnits(f, X, Y, f.Quantum() + 1, q, sticky);
    assert Pow(2, 1) == 2 by { PowOne(2); }
    assert Y > 0 by { QuotientBounds(X, Y, f.Quantum() + 1, q, sticky); }
    RoundQuotient(f, N, Y, m, 1, q, sticky);
    SubnormalBelow(m, q, N, Y);
  }

  lemma SubnormalBelow(m: nat, q: nat, N: nat, Y: nat)
    requires Y > 0 && q <= 2 * m + 1 && 4 * N < (q + 1) * (2 * Y)
    ensures N < (m + 1) * Y
  {
    MulMonotone(q + 1, 2 * (m + 1), 2 * Y);
    assert (2 * (m + 1)) * (2 * Y) == 4 * ((m + 1) * Y);
  }

  /** Below the normal range: the quotient again, in units of half the smallest subnormal. */
  method NearestSubnormal(f: Format, num: Big, den: Big, dropped: bool, ghost X: nat, ghost Y: nat)
    returns (bits: nat, range: bool)
    requires f.Valid() && f.limbs > 0 && num.Valid() && den.Valid()
    requires num.w.Length <= f.limbs && den.w.Length <= f.limbs
    requires StandsFor(f, num.Value(), den.Value(), dropped, X, Y)
    requires var N, D := Up(num.Value(), f.Quantum() + 1), Up(den.Value(), -(f.Quantum() + 1));
      N < D * Pow(2, f.p) && N < D * Pow(2, f.p + 3) && N < Pow(2, 32 * f.limbs)
      && D * Pow(2, f.p + 2) < Pow(2, 32 * f.limbs)
    ensures f.RoundsTo(X, Y, bits, range)
  {
    hide Pow, Up, Big.Value, Quotient, StandsFor, Format.Units, Format.Nearest, Format.Inf, Format.Hidden;
    var s := f.Quantum() + 1;
    DenPositive(f, num.Value(), den.Value(), dropped, X, Y);
    var q, sticky := ScaledQuotient(f, num, den, s);
    AreQuotients(num.Value(), den.Value(), s, q, sticky);
    StandsAt(f, num.Value(), den.Value(), dropped, X, Y, s, q, sticky);
    SmallQuotient(num.Value(), den.Value(), s, q, sticky, Pow(2, f.p));
    sticky := sticky || dropped;
    SubnormalRounds(f, X, Y, q, sticky);
    var m := q / 2;
    var inexact := q % 2 == 1 || sticky;
    if q % 2 == 1 && (sticky || m % 2 == 1) {
      m := m + 1;
    }
    return m, inexact && m < f.Hidden();
  }

  lemma DenPositive(f: Format, num: nat, den: nat, dropped: bool, X: nat, Y: nat)
    requires StandsFor(f, num, den, dropped, X, Y)
    ensures den > 0
  {
  }

  /** The pattern nearest num/den (both nonzero), ties to even; X/Y is the number that num/den stands for. */
  method NearestOf(f: Format, num: Big, den: Big, dropped: bool, ghost X: nat, ghost Y: nat)
    returns (bits: nat, range: bool)
    requires f.Valid() && 32 * f.limbs >= f.p + 2 && num.Valid() && den.Valid()
    requires num.w.Length <= f.limbs && den.w.Length <= f.limbs
    requires 0 < num.Value() < Pow(2, 32 * f.limbs - f.p - 2)
    requires 0 < den.Value() < Pow(2, 32 * f.limbs - f.p - 2)
    requires StandsFor(f, num.Value(), den.Value(), dropped, X, Y)
    ensures f.RoundsTo(X, Y, bits, range)
  {
    hide Pow, Up, Big.Value, Quotient, StandsFor, Format.Units, Format.Nearest, Format.Inf, Format.Hidden;
    var bn := num.Bits();
    var bd := den.Bits();
    var s: int := f.p as int + 1 - (bn as int - bd as int);
    FirstQuotientFits(f, num.Value(), den.Value(), bn, bd);
    var q, sticky := ScaledQuotient(f, num, den, s);
    AreQuotients(num.Value(), den.Value(), s, q, sticky);
    FirstQuotient(f, num.Value(), den.Value(), dropped, X, Y, s, q, sticky);
    ghost var exact := sticky;
    sticky := sticky || dropped;
    if q >= Power2(f.p + 1) {
      HalveQuotient(X, Y, s, q, sticky);
      HalveQuotient(num.Value(), den.Value(), s, q, exact);
      HalfRange(q, f.p);
      exact := exact || q % 2 == 1;
      sticky := sticky || q % 2 == 1;
      q := q / 2;
      s := s - 1;
    }
    var biased: int := f.p - s + f.bias;
    if biased >= f.Top() {
      Overflows(f, X, Y, s, q, sticky);
      return f.Inf(), true;
    }
    if biased >= 1 {
      NormalRounds(f, X, Y, s, q, sticky);
      bits, range := RoundNormal(f, biased, q, sticky);
      return;
    }
    SubnormalFits(f, num.Value(), den.Value(), s, q, exact);
    bits, range := NearestSubnormal(f, num, den, dropped, X, Y);
  }

  lemma AreQuotients(num: nat, den: nat, s: int, q: nat, sticky: bool)
    requires den > 0 && q == Up(num, s) / Up(den, -s)
    requires sticky <==> Up(num, s) % Up(den, -s) != 0
    ensures Quotient(num, den, s, q, sticky)
  {
  }

  lemma HalfRange(q: nat, p: nat)
    requires Pow(2, p + 1) <= q < 2 * Pow(2, p + 1)
    ensures Pow(2, p) <= q / 2 < Pow(2, p + 1)
  {
    PowSucc(2, p);
  }

  lemma SmallQuotient(num: nat, den: nat, s: int, q: nat, sticky: bool, bound: nat)
    requires Quotient(num, den, s, q, sticky) && Up(num, s) < Up(den, -s) * bound
    ensures q < bound
  {
    hide Quotient, Up;
    QuotientBounds(num, den, s, q, sticky);
    MulCancelLess(q, bound, Up(den, -s));
  }
}
