/** Hexadecimal significands times a power of two to the nearest binary value. */
module BinaryReading {
  import opened Powers
  import opened Rounding
  import opened BigInts
  import opened Reading
  import opened Numerals

  /** The double and float files have room for any 64-bit significand at every exponent that is not an early exit. */
  ghost predicate Roomy(f: Format)
  {
    f.Valid() && f.p + 3 <= 60 && f.limbs > 1
    && f.bias + 2 + f.p + 2 <= 32 * f.limbs && 64 + f.Quantum() + 2 + f.p + 2 < 32 * f.limbs
  }

  lemma BothRoomy()
    ensures Roomy(Binary64) && Roomy(Binary32)
  {
  }

  lemma UpScale(x: nat, s: int)
    ensures Up(x, s) == x * Scale(2, s)
  {
  }

  lemma Balance(e: int, s: int, j: nat)
    requires e + s + j == 0
    ensures Scale(2, -e) * Scale(2, -s) == Pow(2, j) * (Scale(2, e) * Scale(2, s))
  {
    hide Pow, Scale;
    ScaleForms(2, e);
    ScaleForms(2, s);
    if e >= 0 {
      PowAdd(2, j, e);
    } else if s >= 0 {
      PowAdd(2, j, s);
    } else {
      PowAdd(2, -e, -s);
    }
  }

  /** The highest bit of a 64-bit number. */
  method TopBit(h: nat) returns (top: nat)
    requires 0 < h < Pow(2, 64)
    ensures top <= 63 && Pow(2, top) <= h < Pow(2, top + 1)
  {
    hide Pow;
    top := 63;
    while h / Power2(top) % 2 == 0
      invariant top <= 63 && h < Pow(2, top + 1)
      decreases top
    {
      BitClear(h, top);
      top := top - 1;
    }
    BitSet(h, top);
  }

  lemma BitClear(h: nat, top: nat)
    requires 0 < h < Pow(2, top + 1) && h / Pow(2, top) % 2 == 0
    ensures h < Pow(2, top) && top > 0
  {
    var p := Pow(2, top);
    DivModIdentity(h, p);
    if h >= p {
      DivModUnique(h, 1, p, h - p);
    }
  }

  lemma BitSet(h: nat, top: nat)
    requires h / Pow(2, top) % 2 != 0
    ensures Pow(2, top) <= h
  {
    if h < Pow(2, top) {
      DivModUnique(h, 0, Pow(2, top), h);
    }
  }

  /** Sixty bits and more leave the same quotient whatever follows them. */
  lemma DroppedBitsStandFor(f: Format, h: nat, e: int, X: nat, Y: nat)
    requires Roomy(f) && h >= Pow(2, 60) && Denotes(2, h, true, e, X, Y)
    ensures StandsFor(f, h * Scale(2, e), Scale(2, -e), true, X, Y)
  {
    hide Pow, Scale, Up, Quotient, Denotes;
    DenotesPositive(2, h, true, e, X, Y);
    var num, den := h * Scale(2, e), Scale(2, -e);
    forall s: int | Up(num, s) < Up(den, -s) * Pow(2, f.p + 3)
      ensures Quotient(X, Y, s, Up(num, s) / Up(den, -s), true)
    {
      SameFloor(f, h, e, Up(num, s), Up(den, -s), X, Y, s);
    }
  }

  lemma SameFloor(f: Format, h: nat, e: int, N: nat, D: nat, X: nat, Y: nat, s: int)
    requires D > 0 && N == Up(h * Scale(2, e), s) && D == Up(Scale(2, -e), -s) && N < D * Pow(2, f.p + 3)
    requires Denotes(2, h, true, e, X, Y) && h >= Pow(2, 60) && Roomy(f)
    ensures Quotient(X, Y, s, N / D, true)
  {
    hide Pow, Scale, Up, Quotient;
    UpScale(h * Scale(2, e), s);
    UpScale(Scale(2, -e), -s);
    UpScale(X, s);
    UpScale(Y, -s);
    BelowOne(f, h, e, s);
    var j, c := -(e + s), Scale(2, e) * Scale(2, s);
    MulPositive(Scale(2, e), Scale(2, s));
    Balance(e, s, j);
    MulAssoc(h, Scale(2, e), Scale(2, s));
    var q := h / Pow(2, j);
    FloorOfScaled(h, Pow(2, j), c);
    InsideFloor(h, Scale(2, e), Scale(2, -e), Scale(2, s), Scale(2, -s), Pow(2, j), X, Y, q);
    QuotientFromBounds(X, Y, s, q, true);
  }

  /** A quotient of at most p + 3 bits of a number of 60 and more lies below its last bit. */
  lemma BelowOne(f: Format, h: nat, e: int, s: int)
    requires Roomy(f) && h >= Pow(2, 60)
    requires (h * Scale(2, e)) * Scale(2, s) < (Scale(2, -e) * Scale(2, -s)) * Pow(2, f.p + 3)
    ensures e + s < 0
  {
    hide Pow, Scale;
    if e + s >= 0 {
      Balance(-e, -s, e + s);
      MulAssoc(h, Scale(2, e), Scale(2, s));
      var D := Scale(2, -e) * Scale(2, -s);
      MulMonotone(1, Pow(2, e + s), D);
      MulMonotone(D, Scale(2, e) * Scale(2, s), h);
      PowMonotone(2, f.p + 3, 60);
      MulMonotone(Pow(2, f.p + 3), h, D);
      assert false;
    }
  }

  lemma FloorOfScaled(h: nat, k: nat, c: nat)
    requires k > 0 && c > 0
    ensures (h * c) / (k * c) == h / k
  {
    DivModIdentity(h, k);
    var q, r := h / k, h % k;
    MulAssoc(q, k, c);
    Distribute(q * k, r, c);
    MulStrict(r, k, c);
    DivModUnique(h * c, q, k * c, r * c);
  }

  lemma InsideFloor(h: nat, te: nat, ne: nat, ts: nat, ns: nat, k: nat, X: nat, Y: nat, q: nat)
    requires te > 0 && ne > 0 && ts > 0 && ns > 0 && k > 0 && Y > 0
    requires ne * ns == k * (te * ts) && q == h / k
    requires h * (te * Y) < X * ne < (h + 1) * (te * Y)
    ensures q * (Y * ns) < X * ts < (q + 1) * (Y * ns)
  {
    DivModIdentity(h, k);
    var c := (te * ts) * Y;
    Distribute(q, 1, k);
    MulMonotone(q * k, h, c);
    MulMonotone(h + 1, (q + 1) * k, c);
    ScaledEnds(h, te, ts, Y, X, ne);
    ScaledEnds(h + 1, te, ts, Y, X, ne);
    QuotientEnds(q, k, te, ts, ne, ns, Y);
    QuotientEnds(q + 1, k, te, ts, ne, ns, Y);
    MulStrict(h * (te * Y), X * ne, ts);
    MulStrict(X * ne, (h + 1) * (te * Y), ts);
    MulCancelLess(q * (Y * ns), X * ts, ne);
    MulCancelLess(X * ts, (q + 1) * (Y * ns), ne);
  }

  lemma ScaledEnds(h: nat, te: nat, ts: nat, Y: nat, X: nat, ne: nat)
    ensures (h * (te * Y)) * ts == h * ((te * ts) * Y)
    ensures (X * ne) * ts == (X * ts) * ne
  {
    MulAssoc(h, te * Y, ts);
    MulSwap(te, Y, ts);
    MulSwap(X, ne, ts);
  }

  lemma QuotientEnds(q: nat, k: nat, te: nat, ts: nat, ne: nat, ns: nat, Y: nat)
    requires ne * ns == k * (te * ts)
    ensures (q * (Y * ns)) * ne == (q * k) * ((te * ts) * Y)
  {
    calc {
      (q * (Y * ns)) * ne;
      { MulAssoc(q, Y * ns, ne); }
      q * ((Y * ns) * ne);
      { MulAssoc(Y, ns, ne); }
      q * (Y * (ns * ne));
      q * (Y * (k * (te * ts)));
      { MulAssoc(Y, k, te * ts); MulAssoc(k, Y, te * ts); }
      q * (k * (Y * (te * ts)));
      { MulAssoc(q, k, Y * (te * ts)); }
      (q * k) * ((te * ts) * Y);
    }
  }

  // ---- the conversion ------------------------------------------------------------------------

  /** The significand and the exponent as a fraction of big integers. */
  method BinaryOperands(f: Format, h: nat, top: nat, exp2: int) returns (num: Big, den: Big)
    requires Roomy(f) && top <= 63 && 0 < h < Pow(2, top + 1) && -(f.Quantum() + 2) <= top + exp2 <= f.bias + 1
    ensures fresh(num) && fresh(num.w) && fresh(den) && fresh(den.w) && num != den && num.w != den.w
    ensures num.Valid() && den.Valid() && num.w.Length == f.limbs && den.w.Length == f.limbs
    ensures num.Value() == h * Scale(2, exp2) < Pow(2, 32 * f.limbs - f.p - 2)
    ensures den.Value() == Scale(2, -exp2) < Pow(2, 32 * f.limbs - f.p - 2)
  {
    hide Pow, Scale, Big.Value, Big.Capacity;
    num := new Big(f.limbs);
    den := new Big(f.limbs);
    num.CapacityBits();
    den.CapacityBits();
    PowMonotone(2, top + 1, 64);
    num.SetLong(h);
    den.Set(1);
    BinaryFits(f, h, top, exp2);
    ScaleForms(2, exp2);
    if exp2 >= 0 {
      num.Shl(exp2);
    } else {
      den.Shl(-exp2);
    }
  }

  /** That fraction, rounded. */
  method BinaryFraction(f: Format, h: nat, top: nat, sticky: bool, exp2: int, ghost X: nat, ghost Y: nat)
    returns (bits: nat, range: bool)
    requires Roomy(f) && top <= 63 && 0 < h < Pow(2, top + 1) && Denotes(2, h, sticky, exp2, X, Y)
    requires (sticky ==> h >= Pow(2, 60)) && -(f.Quantum() + 2) <= top + exp2 <= f.bias + 1
    ensures f.RoundsTo(X, Y, bits, range)
  {
    hide Pow, Scale, Denotes, Big.Value, Big.Capacity, Format.Nearest, Format.Units, Format.Inf, Format.Hidden,
      StandsFor;
    var num, den := BinaryOperands(f, h, top, exp2);
    MulPositive(h, Scale(2, exp2));
    BinaryStandsFor(f, h, sticky, exp2, X, Y);
    ghost var X' := if sticky then X else num.Value();
    ghost var Y' := if sticky then Y else den.Value();
    bits, range := NearestOf(f, num, den, sticky, X', Y');
    if !sticky {
      ExactTransfer(f, 2, h, exp2, X, Y, bits);
    }
  }

  /** The value nearest X/Y, of which h and exp2 are known, and of what follows only whether it is zero. The
      exits are at 2^1025 and 2^-1076 for a double, 2^129 and 2^-151 for a float. */
  method Binary(f: Format, h: nat, sticky: bool, exp2: int, ghost X: nat, ghost Y: nat)
    returns (bits: nat, range: bool)
    requires Roomy(f) && h < Pow(2, 64) && Denotes(2, h, sticky, exp2, X, Y)
    requires sticky ==> h >= Pow(2, 60)
    ensures f.RoundsTo(X, Y, bits, range)
  {
    hide Pow, Scale, Denotes, Big.Value, Big.Capacity, Format.Nearest, Format.Units, Format.Inf, Format.Hidden,
      StandsFor;
    HiddenBelowInf(f);
    if h == 0 {
      ZeroReads(f, 2, exp2, X, Y);
      return 0, false;
    }
    var top := TopBit(h);
    if top + exp2 > f.bias + 1 {
      TooLarge(f, 2, h, top + 1, sticky, exp2, X, Y, f.bias + 1);
      return f.Inf(), true;
    }
    if top + exp2 < -(f.Quantum() + 2) {
      TooSmall(f, 2, h, top + 1, sticky, exp2, X, Y, f.Quantum() + 1);
      return 0, true;
    }
    bits, range := BinaryFraction(f, h, top, sticky, exp2, X, Y);
  }

  lemma BinaryFits(f: Format, h: nat, top: nat, e: int)
    requires Roomy(f) && top <= 63 && h < Pow(2, top + 1) && -(f.Quantum() + 2) <= top + e <= f.bias + 1
    ensures var c := Pow(2, 32 * f.limbs - f.p - 2);
      h * Scale(2, e) < c && Scale(2, -e) < c && c <= Pow(2, 32 * f.limbs)
  {
    hide Pow, Scale;
    var k := 32 * f.limbs - f.p - 2;
    ScaleForms(2, e);
    if e >= 0 {
      MulStrict(h, Pow(2, top + 1), Pow(2, e));
      PowAdd(2, top + 1, e);
      PowMonotone(2, top + 1 + e, k);
    } else {
      PowMonotone(2, top + 1, k);
      PowStrict(2, -e, k);
    }
    PowMonotone(2, k, 32 * f.limbs);
    PowMonotone(2, 1, k);
    assert Pow(2, 1) == 2 by { PowOne(2); }
  }

  lemma BinaryStandsFor(f: Format, h: nat, sticky: bool, e: int, X: nat, Y: nat)
    requires Roomy(f) && Denotes(2, h, sticky, e, X, Y) && (sticky ==> h >= Pow(2, 60))
    ensures StandsFor(f, h * Scale(2, e), Scale(2, -e), sticky,
      if sticky then X else h * Scale(2, e), if sticky then Y else Scale(2, -e))
  {
    if sticky {
      DroppedBitsStandFor(f, h, e, X, Y);
    }
  }
}
