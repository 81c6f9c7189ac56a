/** The fixed-capacity big integers of the conversions: every operation works on the limbs in place. */
module BigInts {
  import opened Powers
  import opened Limbs
  import opened LimbArithmetic

  class Big {
    const w: array<u32>
    var n: nat

    constructor (limbs: nat)
      requires limbs > 0
      ensures Valid() && Value() == 0 && w.Length == limbs && fresh(w)
    {
      w := new u32[limbs];
      n := 0;
    }

    ghost predicate InRange()
      reads this
    {
      n <= w.Length
    }

    ghost predicate Valid()
      reads this, w
    {
      InRange() && (n > 0 ==> w[n - 1] != 0)
    }

    ghost function Value(): nat
      requires InRange()
      reads this, w
    {
      LV(w[..n])
    }

    /** One more than the largest number that fits. */
    ghost function Capacity(): (r: nat)
      ensures r > 0
    {
      Pow(B, w.Length)
    }

    method Set(x: u32)
      requires w.Length > 0
      modifies this, w
      ensures Valid() && Value() == x
    {
      w[0] := x;
      n := if x != 0 then 1 else 0;
      assert w[..1] == [x];
      assert LV([x]) == x by { LVPush([], x); }
    }

    /** Two limbs at once, as the conversions set a 64-bit significand. */
    method SetLong(x: nat)
      requires w.Length > 1 && x < Pow(2, 64)
      modifies this, w
      ensures x != 0 ==> Valid()
      ensures InRange() && Value() == x
    {
      LongIsTwoLimbs();
      DivModIdentity(x, B);
      assert x / B < B;
      w[0] := x % B;
      w[1] := x / B;
      n := if w[1] != 0 then 2 else 1;
      assert w[..1] == [x % B] && w[..2] == [x % B, x / B];
      LVPair(x % B, x / B);
    }

    method Copy(from: Big)
      requires from.Valid() && from.n <= w.Length && from != this && from.w != w
      modifies this, w
      ensures Valid() && Value() == from.Value()
    {
      n := from.n;
      for i := 0 to from.n
        invariant from.Valid() && n == from.n == old(from.n)
        invariant w[..i] == from.w[..i]
      {
        w[i] := from.w[i];
      }
      assert n > 0 ==> w[..n][n - 1] == from.w[..n][n - 1];
    }

    /** Drops the zero limbs at the top. */
    method Trim()
      requires InRange()
      modifies this
      ensures Valid() && Value() == old(Value())
    {
      while n > 0 && w[n - 1] == 0
        invariant InRange() && Value() == old(Value())
        decreases n
      {
        assert w[..n][..n - 1] == w[..n - 1];
        n := n - 1;
      }
    }

    lemma Bounded()
      requires InRange()
      ensures Value() < Pow(B, n) <= Capacity()
    {
      LVBound(w[..n]);
      PowMonotone(B, n, w.Length);
    }

    lemma ZeroIsEmpty()
      requires Valid()
      ensures Value() == 0 <==> n == 0
    {
      if n != 0 {
        LVTop(w[..n]);
      }
    }

    lemma CapacityBits()
      ensures Capacity() == Pow(2, 32 * w.Length)
    {
      LimbPower(w.Length);
    }

    method AddSmall(x: u32)
      requires Valid()
      modifies this, w
      ensures InRange() && Value() == (old(Value()) + x) % Capacity()
      ensures old(Value()) + x < Capacity() ==> Valid() && Value() == old(Value()) + x
    {
      hide Pending, LV, Pow;
      ghost var v := Value();
      var a: u32 := x;
      var i := 0;
      PendingEnds(w[..n], x);
      while a != 0
        invariant i <= n && InRange()
        invariant Pending(w[..n], a, i) == v + x
        invariant n > 0 && w[n - 1] == 0 ==> a != 0 && i == n
        decreases w.Length + 1 - i
      {
        if i == n {
          if n == w.Length {
            AddCut(w[..n], a, v + x);
            return;
          }
          ghost var s := w[..n];
          w[n] := 0;
          n := n + 1;
          assert w[..n] == s + [0];
          PendingExtended(s, a, i);
        }
        ghost var s := w[..n];
        var before := w[i];
        var sum: u32 := (before + a) % B;
        w[i] := sum;
        assert w[..n] == s[i := sum];
        AddLimb(s, i, a);
        a := if w[i] < before then 1 else 0;
        i := i + 1;
      }
      NothingPending(w[..n], i);
      Bounded();
      SmallMod(v + x, Capacity());
    }

    method Shl(k: int)
      requires Valid()
      modifies this, w
      ensures Valid()
      ensures k <= 0 ==> Value() == old(Value())
      ensures k >= 0 ==> Value() == old(Value()) * Pow(2, k) % Capacity()
      ensures k >= 0 && old(Value()) * Pow(2, k) < Capacity() ==> Value() == old(Value()) * Pow(2, k)
    {
      hide LV;
      ghost var v := Value();
      ghost var s := w[..n];
      if n == 0 || k <= 0 {
        Bounded();
        if k == 0 { assert Pow(2, 0) == 1; }
        SmallMod(v, Capacity());
        return;
      }
      var limbs, bits := k / 32, k % 32;
      var m := n + limbs + 1;
      if m > w.Length {
        m := w.Length;
      }
      var i := m;
      while i > 0
        invariant 0 <= i <= m <= w.Length && n == old(n)
        invariant forall j :: 0 <= j < n && j < i ==> w[j] == s[j]
        invariant forall j :: i <= j < m ==> w[j] == if j < limbs then 0 else ShiftedLimb(s, bits, j - limbs)
      {
        i := i - 1;
        var from := i - limbs;
        var hi: u32 := if 0 <= from < n then w[from] else 0;
        var lo: u32 := if 0 <= from - 1 < n then w[from - 1] else 0;
        ShiftTerms(s, bits, from, hi, lo);
        // The two parts of a limb share no bit, so that joining them is adding them.
        w[i] := if bits == 0 then hi else Kept(bits, hi) + PushedOut(bits, lo);
      }
      ShiftResult(s, limbs, bits, w[..m], w.Length);
      n := m;
      Trim();
    }

    method Shr1()
      requires Valid()
      modifies this, w
      ensures Valid() && Value() == old(Value()) / 2
    {
      hide Halved, LV, Pow;
      ghost var s := w[..n];
      HalvedStarts(s);
      for i := 0 to n
        invariant n == old(n) && InRange() && Halved(w[..i], s)
        invariant forall j :: i <= j < n ==> w[j] == s[j]
      {
        var next: u32 := if i + 1 < n then w[i + 1] else 0;
        ghost var before := w[..i];
        w[i] := w[i] / 2 + (next % 2) * 0x8000_0000;
        HalvedStep(before, s, w[i]);
        assert w[..i + 1] == before + [w[i]];
      }
      HalvedEnds(w[..n], s);
      Trim();
    }

    method MulSmall(m: u32)
      requires Valid()
      modifies this, w
      ensures InRange() && Value() == old(Value()) * m % Capacity()
      ensures m > 0 && old(Value()) * m < Capacity() ==> Valid() && Value() == old(Value()) * m
    {
      hide Multiplied, LV, Pow;
      ghost var s := w[..n];
      MultiplyStarts(s, m);
      var carry: u32 := 0;
      for i := 0 to n
        invariant n == old(n) && InRange()
        invariant forall k :: i <= k < n ==> w[k] == s[k]
        invariant Multiplied(w[..i], s, m, carry)
        invariant m > 0 && carry == 0 && i > 0 && s[i - 1] != 0 ==> w[i - 1] != 0
      {
        ghost var before := w[..i];
        MultiplyStep(before, s, m, carry);
        var t := w[i] * m + carry;
        var low: u32 := t % B;
        w[i] := low;
        carry := t / B;
        assert w[..i + 1] == before + [low];
      }
      MultiplyEnds(w[..n], s, m, carry, w.Length);
      if carry != 0 && n < w.Length {
        ghost var before := w[..n];
        w[n] := carry;
        n := n + 1;
        assert w[..n] == before + [carry];
      }
    }

    method Cmp(that: Big) returns (r: int)
      requires Valid() && that.Valid()
      ensures r < 0 <==> Value() < that.Value()
      ensures r > 0 <==> Value() > that.Value()
    {
      if n != that.n {
        LongerIsLarger(w[..n], that.w[..that.n]);
        return if n < that.n then -1 else 1;
      }
      var i := n;
      while i > 0
        invariant 0 <= i <= n
        invariant forall k :: i <= k < n ==> w[k] == that.w[k]
      {
        i := i - 1;
        if w[i] != that.w[i] {
          if w[i] < that.w[i] {
            LVLess(w[..n], that.w[..n], i);
            return -1;
          }
          LVLess(that.w[..n], w[..n], i);
          return 1;
        }
      }
      assert w[..n] == that.w[..n];
      return 0;
    }

    method Sub(that: Big)
      requires Valid() && that.Valid() && that != this && that.w != w
      requires Value() >= that.Value()
      modifies this, w
      ensures Valid() && Value() == old(Value()) - that.Value()
    {
      hide Subtracted, LV, Pow;
      ghost var s, t := w[..n], that.w[..that.n];
      if that.n > n { LongerIsLarger(s, t); }
      ghost var u := Padded(t, n);
      SubtractStarts(u, s);
      var borrow: u32 := 0;
      for i := 0 to n
        invariant n == old(n) && InRange() && that.n == |t| <= n && that.w[..that.n] == t
        invariant borrow <= 1
        invariant forall j :: i <= j < n ==> w[j] == s[j]
        invariant Subtracted(w[..i], u, s, borrow)
      {
        var bw: u32 := if i < that.n then that.w[i] else 0;
        assert bw == u[i];
        assert w[i] == s[i];
        ghost var before := w[..i];
        SubtractStep(before, u, s, borrow);
        var t: u32 := (w[i] - bw - borrow) % B;
        borrow := if w[i] < bw || (w[i] == bw && borrow != 0) then 1 else 0;
        w[i] := t;
        assert w[..i + 1] == before + [t];
      }
      SubtractEnds(w[..n], u, s, borrow);
      Trim();
    }

    /** The number of significant bits. */
    method Bits() returns (r: nat)
      requires Valid()
      ensures Value() == 0 ==> r == 0
      ensures Value() != 0 ==> r > 0 && Pow(2, r - 1) <= Value() < Pow(2, r)
    {
      if n == 0 {
        return 0;
      }
      r := (n - 1) * 32 + 32 - LeadingZeros(w[n - 1]);
      BitsOf(w[..n]);
    }

    /** this /= d, and the remainder. */
    method DivModSmall(d: u32) returns (rem: u32)
      requires Valid() && d > 0
      modifies this, w
      ensures Valid() && old(Value()) == Value() * d + rem && rem < d
    {
      hide Divided, LV, Pow;
      rem := 0;
      var i := n;
      DivideStarts(w[..n], d);
      while i > 0
        invariant n == old(n) && 0 <= i <= n && InRange() && rem < d
        invariant Divided(w[..n], i, rem, d) == old(Value())
      {
        i := i - 1;
        ghost var s := w[..n];
        var t := rem * B + w[i];
        DigitRange(rem, w[i], d);
        var q: u32 := t / d;
        w[i] := q;
        assert w[..n] == s[i := q];
        DivideStep(s, i, rem, d);
        rem := t % d;
      }
      DivideEnds(w[..n], rem, d);
      Trim();
    }

    /** Multiplies by base^k, a chunk of the power at a time. */
    method MulPow(chunkPower: u32, chunk: nat, base: nat, k0: nat)
      requires Valid() && base > 1 && chunk > 0 && chunkPower == Pow(base, chunk)
      requires Value() * Pow(base, k0) < Capacity()
      modifies this, w
      ensures Valid() && Value() == old(Value()) * Pow(base, k0)
    {
      hide LV, Pow;
      ghost var v := Value() * Pow(base, k0);
      var k: nat := k0;
      while k >= chunk
        invariant k <= k0 && Valid() && Value() * Pow(base, k) == v
      {
        TakeChunk(Value(), base, chunk, k, v);
        MulSmall(chunkPower);
        k := k - chunk;
      }
      var rest := SmallPower(base, k, chunk);
      if rest != 1 {
        MulSmall(rest);
      }
    }

    static method SmallPower(base: nat, k: nat, chunk: nat) returns (rest: u32)
      requires base > 1 && k < chunk && Pow(base, chunk) < B
      ensures rest == Pow(base, k)
    {
      rest := 1;
      for i := 0 to k
        invariant rest == Pow(base, i)
      {
        PowMonotone(base, i + 1, chunk);
        rest := rest * base;
      }
    }

    method MulPow10(k: nat)
      requires Valid() && Value() * Pow(10, k) < Capacity()
      modifies this, w
      ensures Valid() && Value() == old(Value()) * Pow(10, k)
    {
      assert Pow(10, 9) == 1000000000;
      MulPow(1000000000, 9, 10, k);
    }

    method MulPow5(k: nat)
      requires Valid() && Value() * Pow(5, k) < Capacity()
      modifies this, w
      ensures Valid() && Value() == old(Value()) * Pow(5, k)
    {
      assert Pow(5, 13) == 1220703125;
      MulPow(1220703125, 13, 5, k);
    }
  }
}
