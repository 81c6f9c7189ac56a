/** The sizes the two conversion files declare are large enough: the inequalities everything else takes for granted. */
module Sizes {
  import opened Powers
  import opened Rounding

  /** LIMBS, FCONV_MAX_DIGITS and the early exits of a format fit its exponent range. */
  ghost predicate Sized(f: Format)
  {
    f.Valid() && f.maxDigits > 0 && f.decimalTop > 0 && f.decimalBottom < 0 && 32 * f.limbs >= f.p + 2
    && f.decimalTop < f.maxDigits <= 9 * f.chunks && f.p <= 64 && f.p <= f.bias && f.limbs > 1
    && Pow(2, f.bias + 1) <= Pow(10, f.decimalTop)
    && Pow(2, f.Quantum() + 1) <= Pow(10, 1 - f.decimalBottom)
    && Pow(10, f.maxDigits + 1 - f.decimalBottom) < Pow(2, 32 * f.limbs - f.p - 2)
    && Pow(2, f.p) * Pow(5, f.Quantum()) <= Pow(10, f.maxDigits - 1)
  }

  lemma PowersOfTwo()
    ensures Pow(2, 10) == 1024 && Pow(2, 31) == 0x8000_0000
    ensures Pow(2, 93) <= Pow(10, 28) && Pow(2, 62) <= Pow(10, 19) && Pow(2, 10) <= Pow(10, 4)
  {
    hide Pow;
    FirstPowers();
    PowAdd(2, 10, 10);
    PowAdd(2, 20, 10);
    PowSucc(2, 30);
    PowAdd(2, 31, 31);
    PowAdd(2, 62, 31);
    PowAdd(10, 5, 5);
    PowAdd(10, 10, 4);
    PowAdd(10, 14, 5);
    PowAdd(10, 14, 14);
  }

  /** (b^i)^k against (c^j)^k. */
  lemma ChunkBound(b: nat, i: nat, c: nat, j: nat, k: nat)
    requires Pow(b, i) <= Pow(c, j)
    ensures Pow(b, i * k) <= Pow(c, j * k)
  {
    PowMultiply(b, i, k);
    PowMultiply(c, j, k);
    PowBaseMonotone(Pow(b, i), Pow(c, j), k);
  }

  /** Bounds of two powers with the same bases add up. */
  lemma AddBound(b: nat, i: nat, j: nat, c: nat, u: nat, v: nat)
    requires Pow(b, i) <= Pow(c, u) && Pow(b, j) <= Pow(c, v)
    ensures Pow(b, i + j) <= Pow(c, u + v)
  {
    PowAdd(b, i, j);
    PowAdd(c, u, v);
    MulMonotone2(Pow(b, i), Pow(c, u), Pow(b, j), Pow(c, v));
  }

  lemma SmallPowers()
    ensures Pow(2, 3) <= Pow(10, 1) && Pow(10, 3) <= Pow(2, 10) && Pow(5, 10) <= Pow(10, 7) && Pow(10, 1) >= 10
    ensures Pow(5, 3) <= Pow(10, 3)
  {
  }

  /** 2^(3k) <= 10^k. */
  lemma Octal(k: nat)
    ensures Pow(2, 3 * k) <= Pow(10, k)
  {
    SmallPowers();
    ChunkBound(2, 3, 10, 1, k);
  }

  lemma Binary64Sized()
    ensures Sized(Binary64)
  {
    hide Pow;
    PowersOfTwo();
    SmallPowers();
    Octal(18);
    TopBound();
    ChunkBound(2, 93, 10, 28, 11);
    AddBound(2, 1023, 54, 10, 308, 18);
    PowMonotone(2, 1075, 1077);
    ChunkBound(10, 3, 2, 10, 369);
    PowMonotone(10, 1106, 1107);
    PowStrict(2, 3690, 4169);
    ChunkBound(5, 10, 10, 7, 108);
    PowMonotone(5, 1074, 1080);
    PowMonotone(2, 53, 54);
    PowMonotone(10, 774, 779);
    assert Pow(2, 53) * Pow(5, 1074) <= Pow(10, 779) by {
      PowAdd(10, 18, 756);
      MulMonotone2(Pow(2, 53), Pow(10, 18), Pow(5, 1074), Pow(10, 756));
    }
  }

  lemma TopBound()
    ensures Pow(2, 1024) <= Pow(10, 310)
  {
    hide Pow;
    PowersOfTwo();
    SmallPowers();
    ChunkBound(2, 93, 10, 28, 11);
    PowMonotone(2, 1, 3);
    AddBound(2, 1023, 1, 10, 308, 1);
    PowMonotone(10, 309, 310);
  }

  lemma Binary32Sized()
    ensures Sized(Binary32)
  {
    hide Pow;
    PowersOfTwo();
    SmallPowers();
    Octal(8);
    Octal(12);
    Octal(19);
    AddBound(2, 93, 36, 10, 28, 12);
    PowMonotone(2, 128, 129);
    AddBound(2, 93, 57, 10, 28, 19);
    ChunkBound(10, 3, 2, 10, 56);
    PowMonotone(10, 167, 168);
    PowStrict(2, 560, 1254);
    ChunkBound(5, 10, 10, 7, 15);
    PowMonotone(5, 149, 150);
    PowMonotone(10, 113, 119);
    assert Pow(2, 24) * Pow(5, 149) <= Pow(10, 119) by {
      PowAdd(10, 8, 105);
      MulMonotone2(Pow(2, 24), Pow(10, 8), Pow(5, 149), Pow(10, 105));
    }
  }
}
