/** The allocator's size classes and its bitmaps of the lists that hold anything. */
module SizeClasses {
  import opened Powers
  import LimbArithmetic

  const FL_COUNT: nat := 26
  const SL_COUNT: nat := 8
  const BINS: nat := 208

  // ---- bitmaps -----------------------------------------------------------------------------------

  /** Bit i of a word. */
  predicate Bit(x: nat, i: nat)
  {
    if i == 0 then x % 2 == 1 else Bit(x / 2, i - 1)
  }

  /** x | (1 << i) */
  function SetBit(x: nat, i: nat): nat
  {
    if i == 0 then x - x % 2 + 1 else 2 * SetBit(x / 2, i - 1) + x % 2
  }

  /** x & ~(1 << i) */
  function ClearBit(x: nat, i: nat): nat
  {
    if i == 0 then x - x % 2 else 2 * ClearBit(x / 2, i - 1) + x % 2
  }

  /** x & (~0 << s) */
  function From(x: nat, s: nat): nat
  {
    if s == 0 then x else 2 * From(x / 2, s - 1)
  }

  /** __builtin_ctz */
  function Ctz(x: nat): nat
    requires x != 0
  {
    if x % 2 == 1 then 0 else 1 + Ctz(x / 2)
  }

  lemma {:induction false} SetBitIs(x: nat, i: nat, j: nat)
    ensures Bit(SetBit(x, i), j) <==> j == i || Bit(x, j)
    decreases i
  {
    if i > 0 {
      if j > 0 { SetBitIs(x / 2, i - 1, j - 1); }
      TwiceAndBit(SetBit(x / 2, i - 1), x % 2);
    } else {
      assert SetBit(x, 0) == 2 * (x / 2) + 1;
      TwiceAndBit(x / 2, 1);
    }
  }

  lemma TwiceAndBit(y: nat, r: nat)
    requires r < 2
    ensures (2 * y + r) / 2 == y && (2 * y + r) % 2 == r
  {
  }

  lemma {:induction false} ClearBitIs(x: nat, i: nat, j: nat)
    ensures Bit(ClearBit(x, i), j) <==> j != i && Bit(x, j)
    decreases i
  {
    if i > 0 {
      if j > 0 { ClearBitIs(x / 2, i - 1, j - 1); }
      TwiceAndBit(ClearBit(x / 2, i - 1), x % 2);
    } else {
      assert ClearBit(x, 0) == 2 * (x / 2) + 0;
      TwiceAndBit(x / 2, 0);
    }
  }

  lemma {:induction false} FromIs(x: nat, s: nat, j: nat)
    ensures Bit(From(x, s), j) <==> j >= s && Bit(x, j)
    decreases s
  {
    if s == 0 || j == 0 {
    } else {
      FromIs(x / 2, s - 1, j - 1);
      assert From(x, s) / 2 == From(x / 2, s - 1);
    }
  }

  lemma {:induction false} CtzIs(x: nat, j: nat)
    requires x != 0
    ensures Bit(x, Ctz(x)) && (j < Ctz(x) ==> !Bit(x, j))
    decreases x
  {
    if x % 2 == 1 {
    } else {
      CtzIs(x / 2, if j > 0 then j - 1 else 0);
    }
  }

  lemma {:induction false} NoBitsIsZero(j: nat)
    ensures !Bit(0, j)
    decreases j
  {
    if j > 0 { NoBitsIsZero(j - 1); }
  }

  // ---- classes --------------------------------------------------------------------------------------

  /** The position of the highest set bit. */
  function TopBit(x: nat): (t: nat)
    requires x > 0
    ensures Pow(2, t) <= x < Pow(2, t + 1)
  {
    LimbArithmetic.BitLength(x) - 1
  }

  lemma TopBitUnique(x: nat, t: nat)
    requires Pow(2, t) <= x < Pow(2, t + 1)
    ensures x > 0 && TopBit(x) == t
  {
    if TopBit(x) < t {
      PowMonotone(2, TopBit(x) + 1, t);
    } else if TopBit(x) > t {
      PowMonotone(2, t + 1, TopBit(x));
    }
  }

  lemma SixtyFour()
    ensures Pow(2, 6) == 64 && Pow(2, 3) == 8 && Pow(2, 5) == 32
  {
  }

  lemma LargeTop(size: nat)
    requires size >= 64
    ensures TopBit(size) >= 6
  {
    SixtyFour();
    if TopBit(size) < 6 { PowMonotone(2, TopBit(size) + 1, 6); }
  }

  /** The width of a class of sizes from 2^t: an eighth of it. */
  function Grain(size: nat): (g: nat)
    requires size >= 64
    ensures g > 0
  {
    LargeTop(size);
    Pow(2, TopBit(size) - 3)
  }

  /** The class of a size: one for each multiple of 8 below 64, then eight for each power of two. */
  function BinOf(size: nat): nat
  {
    if size < 64 then size / 8
    else
      LargeTop(size);
      (TopBit(size) - 5) * SL_COUNT + size / Grain(size) % SL_COUNT
  }

  lemma GrainCount(size: nat, g: nat)
    requires g > 0 && 8 * g <= size < 16 * g
    ensures 8 <= size / g < 16 && (size / g) * g <= size < (size / g + 1) * g
  {
    DivModIdentity(size, g);
    var q := size / g;
    Distribute(q, 1, g);
    MulCancelLess(7, q, g);
    MulCancelLess(q, 16, g);
  }

  /** Eight grains make the power of two below a size, sixteen the one above it. */
  lemma GrainPowers(size: nat)
    requires size >= 64
    ensures TopBit(size) >= 6
    ensures Pow(2, TopBit(size)) == 8 * Grain(size)
    ensures Pow(2, TopBit(size) + 1) == 16 * Grain(size)
  {
    hide Pow;
    LargeTop(size);
    SixtyFour();
    PowAdd(2, TopBit(size) - 3, 3);
    PowSucc(2, TopBit(size));
  }

  /** Between 8 and 15 grains make up a size, and its class follows from their number. */
  lemma Grains(size: nat)
    requires size >= 64
    ensures TopBit(size) >= 6
    ensures 8 <= size / Grain(size) < 16
    ensures (size / Grain(size)) * Grain(size) <= size < (size / Grain(size) + 1) * Grain(size)
    ensures BinOf(size) == (TopBit(size) - 6) * 8 + size / Grain(size)
  {
    hide Pow, Grain, TopBit;
    GrainPowers(size);
    GrainCount(size, Grain(size));
    var q := size / Grain(size);
    assert q % 8 == q - 8;
  }

  /** The larger of two sizes is never in the lower class. */
  lemma BinMonotone(s: nat, r: nat)
    requires s <= r
    ensures BinOf(s) <= BinOf(r)
  {
    hide Pow, Grain, TopBit;
    if s >= 64 {
      Grains(s);
      Grains(r);
      TopMonotone(s, r);
      if TopBit(s) == TopBit(r) {
        SameGrain(s, r);
        DivMonotone(s, r, Grain(s));
      }
    } else if r >= 64 {
      Grains(r);
    }
  }

  lemma TopMonotone(s: nat, r: nat)
    requires 0 < s <= r
    ensures TopBit(s) <= TopBit(r)
  {
    if TopBit(r) < TopBit(s) {
      PowMonotone(2, TopBit(r) + 1, TopBit(s));
    }
  }

  lemma SameGrain(s: nat, r: nat)
    requires s >= 64 && r >= 64 && TopBit(s) == TopBit(r)
    ensures Grain(s) == Grain(r)
  {
  }

  lemma DivMonotone(s: nat, r: nat, g: nat)
    requires s <= r && g > 0
    ensures s / g <= r / g
  {
    hide Pow;
    DivModIdentity(s, g);
    DivModIdentity(r, g);
    if r / g < s / g {
      MulMonotone(r / g + 1, s / g, g);
      Distribute(r / g, 1, g);
    }
  }

  /** A size whose class is at least r's is no smaller than the first size of r's class. */
  lemma ReachesClass(s: nat, r: nat)
    requires r >= 64 && BinOf(s) >= BinOf(r)
    ensures s >= (r / Grain(r)) * Grain(r)
  {
    hide Pow, Grain, TopBit;
    Grains(r);
    if s < r {
      assert s >= 64;
      Grains(s);
      TopMonotone(s, r);
      assert TopBit(s) == TopBit(r);
      SameGrain(s, r);
      MulMonotone(r / Grain(r), s / Grain(r), Grain(r));
    }
  }

  /** The size find() looks for: rounded up so that no block of its class is too small. */
  function Rounded(size: nat): nat
  {
    if size < 64 then size else size + Grain(size) - 1
  }

  lemma RoundedReaches(size: nat)
    requires size >= 64
    ensures Rounded(size) >= 64
    ensures (Rounded(size) / Grain(Rounded(size))) * Grain(Rounded(size)) >= size
  {
    hide Pow, Grain, TopBit;
    var g, r := Grain(size), Rounded(size);
    TopMonotone(size, r);
    GrainPowers(size);
    GrainPowers(r);
    Grains(r);
    if TopBit(r) == TopBit(size) {
      SameGrain(size, r);
      Distribute(r / g, 1, g);
    } else {
      hide *;
      PowMonotone(2, TopBit(size) + 1, TopBit(r));
      MulMonotone(8, r / Grain(r), Grain(r));
    }
  }

  /** Good fit: every block in a class at or above the rounded size's is large enough. */
  lemma GoodFit(size: nat, s: nat)
    requires size % 8 == 0 && BinOf(s) >= BinOf(Rounded(size))
    ensures s >= size
  {
    hide Pow, Grain, TopBit;
    if size >= 64 {
      RoundedReaches(size);
      ReachesClass(s, Rounded(size));
    } else if s < 64 {
      assert s / 8 >= size / 8;
    }
  }

  /** The class looked in is the size's own exactly when the size is the first of its class. */
  lemma RoundingStays(size: nat)
    ensures BinOf(Rounded(size)) >= BinOf(size)
    ensures BinOf(Rounded(size)) == BinOf(size) <==> size < 64 || size % Grain(size) == 0
  {
    hide Pow, Grain, TopBit;
    if size >= 64 {
      var g, r := Grain(size), Rounded(size);
      Grains(size);
      Grains(r);
      GrainPowers(size);
      TopMonotone(size, r);
      DivModIdentity(size, g);
      Distribute(size / g, 1, g);
      if size % g == 0 {
        MulMonotone(size / g + 1, 16, g);
        TopBitUnique(r, TopBit(size));
        SameGrain(size, r);
        DivModUnique(r, size / g, g, g - 1);
      } else if TopBit(r) == TopBit(size) {
        SameGrain(size, r);
        DivModUnique(r, size / g + 1, g, size % g - 1);
      }
    }
  }

  /** 136 is not. */
  lemma OneThirtySix()
    ensures Grain(136) == 16 && BinOf(Rounded(136)) > BinOf(136)
  {
    hide Grain, TopBit, BinOf, Rounded;
    SixtyFour();
    assert Pow(2, 7) == 128 && Pow(2, 8) == 256 && Pow(2, 4) == 16;
    TopBitUnique(136, 7);
    GrainPowers(136);
    RoundingStays(136);
  }

  /** The rounding costs less than an eighth of the size. */
  lemma RoundingIsSmall(size: nat)
    ensures size <= Rounded(size) && 8 * (Rounded(size) - size) <= size
  {
    hide Pow, TopBit;
    if size >= 64 {
      GrainPowers(size);
    }
  }

  /** The 208 lists cover exactly the payloads below 2^31. */
  lemma BinRange(size: nat)
    ensures BinOf(size) < BINS <==> size < 0x8000_0000
  {
    hide Pow, Grain, TopBit;
    if size >= 64 {
      Grains(size);
      TopBelow31(size);
    }
  }

  lemma TopBelow31(size: nat)
    requires size > 0
    ensures TopBit(size) <= 30 <==> size < 0x8000_0000
  {
    hide Pow;
    assert Pow(2, 31) == 0x8000_0000 by { PowerOf31(); }
    if TopBit(size) <= 30 {
      PowMonotone(2, TopBit(size) + 1, 31);
    } else {
      PowMonotone(2, 31, TopBit(size));
    }
  }

  lemma PowerOf31()
    ensures Pow(2, 31) == 0x8000_0000
  {
    hide Pow;
    LimbArithmetic.LongIsTwoLimbs();
    PowSucc(2, 31);
  }
}
