/** The number a sequence of 32-bit limbs spells, least significant limb first. */
module Limbs {
  import opened Powers

  const B: nat := 0x1_0000_0000

  type u32 = x: int | 0 <= x < 0x1_0000_0000

  function LV(s: seq<u32>): nat
  {
    if s == [] then 0 else LV(s[..|s| - 1]) + s[|s| - 1] * Pow(B, |s| - 1)
  }

  lemma LVPush(s: seq<u32>, x: u32)
    ensures LV(s + [x]) == LV(s) + x * Pow(B, |s|)
  {
    assert (s + [x])[..|s|] == s;
  }

  /** One more limb of a prefix. */
  lemma LVStep(s: seq<u32>, i: nat)
    requires i < |s|
    ensures LV(s[..i + 1]) == LV(s[..i]) + s[i] * Pow(B, i)
  {
    assert s[..i + 1][..i] == s[..i];
  }

  lemma {:induction false} LVBound(s: seq<u32>)
    ensures LV(s) < Pow(B, |s|)
  {
    if s == [] {
    } else {
      var k := |s| - 1;
      LVBound(s[..k]);
      MulMonotone(s[k], B - 1, Pow(B, k));
      assert (B - 1) * Pow(B, k) == B * Pow(B, k) - Pow(B, k);
    }
  }

  lemma {:induction false} LVUpdate(s: seq<u32>, i: nat, x: u32)
    requires i < |s|
    ensures LV(s[i := x]) == LV(s) + (x - s[i]) * Pow(B, i)
  {
    var k := |s| - 1;
    var t := s[i := x];
    if i == k {
      assert t[..k] == s[..k];
      assert (x - s[i]) * Pow(B, i) == x * Pow(B, i) - s[i] * Pow(B, i);
    } else {
      assert t[..k] == s[..k][i := x];
      LVUpdate(s[..k], i, x);
    }
  }

  /** Appending a sequence of limbs. */
  lemma {:induction false} LVAppend(s: seq<u32>, t: seq<u32>)
    ensures LV(s + t) == LV(s) + LV(t) * Pow(B, |s|)
    decreases |t|
  {
    if t == [] {
      assert s + t == s;
    } else {
      var k := |t| - 1;
      LVAppend(s, t[..k]);
      assert (s + t)[..|s| + k] == s + t[..k];
      PowAdd(B, k, |s|);
      Regroup(LV(t[..k]), t[k], Pow(B, k), Pow(B, |s|));
    }
  }

  lemma Regroup(v: nat, x: nat, p: nat, r: nat)
    ensures (v + x * p) * r == v * r + x * (p * r)
  {
    MulAssoc(x, p, r);
    assert (v + x * p) * r == v * r + (x * p) * r;
  }

  lemma {:induction false} LVZeros(s: seq<u32>)
    requires forall i :: 0 <= i < |s| ==> s[i] == 0
    ensures LV(s) == 0
  {
    if s == [] {
    } else {
      LVZeros(s[..|s| - 1]);
    }
  }

  /** A non-zero top limb bounds the number from below. */
  lemma LVTop(s: seq<u32>)
    requires s != [] && s[|s| - 1] != 0
    ensures LV(s) >= Pow(B, |s| - 1) > 0
  {
    MulMonotone(1, s[|s| - 1], Pow(B, |s| - 1));
  }

  /** The highest limb that differs decides. */
  lemma {:induction false} LVLess(s: seq<u32>, t: seq<u32>, i: nat)
    requires |s| == |t| && i < |s| && s[i] < t[i]
    requires forall k :: i < k < |s| ==> s[k] == t[k]
    ensures LV(s) < LV(t)
  {
    var k := |s| - 1;
    if i == k {
      LVBound(s[..k]);
      MulMonotone(s[k] + 1, t[k], Pow(B, k));
      assert (s[k] + 1) * Pow(B, k) == s[k] * Pow(B, k) + Pow(B, k);
    } else {
      LVLess(s[..k], t[..k], i);
    }
  }

  lemma LVMod(v: nat, q: nat, s: seq<u32>, n: nat)
    requires |s| == n && v == q * Pow(B, n) + LV(s)
    ensures v % Pow(B, n) == LV(s)
  {
    LVBound(s);
    DivModUnique(v, q, Pow(B, n), LV(s));
  }
}
