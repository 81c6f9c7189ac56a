/** Natural powers, and the few facts about products and quotients the conversions rest on. */
module Powers {

  function Min(a: int, b: int): int
  {
    if a < b then a else b
  }

  function Max(a: int, b: int): int
  {
    if a < b then b else a
  }

  function Pow(b: nat, e: nat): (r: nat)
    ensures b > 0 ==> r > 0
    decreases e
  {
    if e == 0 then 1 else b * Pow(b, e - 1)
  }

  lemma {:induction false} PowAdd(b: nat, e: nat, f: nat)
    ensures Pow(b, e + f) == Pow(b, e) * Pow(b, f)
    decreases e
  {
    if e == 0 {
    } else {
      PowAdd(b, e - 1, f);
      assert Pow(b, e + f) == b * Pow(b, (e - 1) + f);
      MulAssoc(b, Pow(b, e - 1), Pow(b, f));
    }
  }

  lemma PowZero(b: nat)
    ensures Pow(b, 0) == 1
  {
  }

  lemma PowOne(b: nat)
    ensures Pow(b, 1) == b
  {
  }

  lemma PowSucc(b: nat, e: nat)
    ensures Pow(b, e + 1) == b * Pow(b, e)
  {
  }

  /** Powers to make larger ones of. */
  lemma FirstPowers()
    ensures Pow(2, 4) == 16 && Pow(2, 10) == 1024 && Pow(10, 4) == 1_0000 && Pow(10, 5) == 10_0000
  {
  }

  lemma {:induction false} PowMultiply(b: nat, e: nat, f: nat)
    ensures Pow(Pow(b, e), f) == Pow(b, e * f)
    decreases f
  {
    if f == 0 {
    } else {
      PowMultiply(b, e, f - 1);
      assert e * f == e + e * (f - 1);
      PowAdd(b, e, e * (f - 1));
    }
  }

  lemma {:induction false} PowProduct(a: nat, b: nat, e: nat)
    ensures Pow(a * b, e) == Pow(a, e) * Pow(b, e)
    decreases e
  {
    if e == 0 {
    } else {
      PowProduct(a, b, e - 1);
      var x, y := Pow(a, e - 1), Pow(b, e - 1);
      assert (a * b) * (x * y) == (a * x) * (b * y) by { Interchange(a, b, x, y); }
    }
  }

  lemma {:induction false} PowMonotone(b: nat, e: nat, f: nat)
    requires b > 0 && e <= f
    ensures Pow(b, e) <= Pow(b, f)
  {
    PowAdd(b, e, f - e);
    MulMonotone(1, Pow(b, f - e), Pow(b, e));
  }

  lemma PowStrict(b: nat, e: nat, f: nat)
    requires b > 1 && e < f
    ensures Pow(b, e) < Pow(b, f)
  {
    PowMonotone(b, e + 1, f);
    assert Pow(b, e + 1) == b * Pow(b, e);
    MulMonotone(2, b, Pow(b, e));
  }

  /** A larger base gives a larger power. */
  lemma {:induction false} PowBaseMonotone(a: nat, b: nat, e: nat)
    requires a <= b
    ensures Pow(a, e) <= Pow(b, e)
    decreases e
  {
    if e == 0 {
    } else {
      PowBaseMonotone(a, b, e - 1);
      MulMonotone2(a, b, Pow(a, e - 1), Pow(b, e - 1));
    }
  }

  // ---- products -------------------------------------------------------------------------

  lemma Commute(x: int, y: int)
    ensures x * y == y * x
  {
  }

  lemma MulPositive(x: int, y: int)
    requires x > 0 && y > 0
    ensures x * y > 0
  {
  }

  lemma MulAssoc(x: int, y: int, z: int)
    ensures (x * y) * z == x * (y * z)
  {
  }

  lemma MulSwap(x: int, y: int, z: int)
    ensures (x * y) * z == (x * z) * y
  {
    MulAssoc(x, y, z);
    MulAssoc(x, z, y);
  }

  lemma Interchange(a: int, b: int, x: int, y: int)
    ensures (a * b) * (x * y) == (a * x) * (b * y)
  {
    calc {
      (a * b) * (x * y);
      a * (b * (x * y));
      { assert b * (x * y) == x * (b * y); }
      a * (x * (b * y));
      (a * x) * (b * y);
    }
  }

  lemma Distribute(x: int, y: int, z: int)
    ensures (x + y) * z == x * z + y * z
  {
  }

  lemma MulMonotone(x: int, y: int, z: int)
    requires x <= y && 0 <= z
    ensures x * z <= y * z
  {
  }

  lemma MulStrict(x: int, y: int, z: int)
    requires x < y && 0 < z
    ensures x * z < y * z
  {
  }

  lemma MulMonotone2(x: int, y: int, u: int, v: int)
    requires 0 <= x <= y && 0 <= u <= v
    ensures x * u <= y * v
  {
    MulMonotone(x, y, u);
    MulMonotone(u, v, y);
  }

  /** Cancels a positive factor of an inequality. */
  lemma MulCancelLess(x: int, y: int, z: int)
    requires x * z < y * z && 0 < z
    ensures x < y
  {
    if y <= x {
      MulMonotone(y, x, z);
    }
  }

  lemma MulCancelLeq(x: int, y: int, z: int)
    requires x * z <= y * z && 0 < z
    ensures x <= y
  {
    if y < x {
      MulStrict(y, x, z);
    }
  }

  lemma MulCancelEq(x: int, y: int, z: int)
    requires x * z == y * z && 0 < z
    ensures x == y
  {
    MulCancelLeq(x, y, z);
    MulCancelLeq(y, x, z);
  }

  /** A quotient and a remainder in range are the quotient and the remainder. */
  lemma DivModUnique(a: int, q: int, d: int, r: int)
    requires 0 <= r < d && a == q * d + r
    ensures a / d == q && a % d == r
  {
    var q', r' := a / d, a % d;
    assert q' * d + r' == a && 0 <= r' < d;
    assert (q + 1) * d == q * d + d && (q' + 1) * d == q' * d + d;
    if q < q' {
      MulMonotone(q + 1, q', d);
    } else if q' < q {
      MulMonotone(q' + 1, q, d);
    }
  }

  lemma DivModIdentity(a: int, d: int)
    requires d > 0
    ensures a == (a / d) * d + a % d && 0 <= a % d < d
  {
  }
}
