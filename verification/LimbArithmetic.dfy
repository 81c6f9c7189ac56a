/** What the loops over limbs rest on: one limb's step of each of them, and what a whole run of steps adds up to. */
module LimbArithmetic {
  import opened Powers
  import opened Limbs

  // ---- multiplying limb by limb ---------------------------------------------------------------

  /** Each limb of t and the carry out of it make up the limb of s times p and the carry in. */
  ghost predicate CarryChain(s: seq<u32>, t: seq<u32>, c: seq<nat>, p: nat)
  {
    |t| == |s| && |c| == |s| + 1 && c[0] == 0
    && forall i :: 0 <= i < |s| ==> t[i] + c[i + 1] * B == s[i] * p + c[i]
  }

  lemma {:induction false} ChainValue(s: seq<u32>, t: seq<u32>, c: seq<nat>, p: nat, i: nat)
    requires CarryChain(s, t, c, p) && i <= |s|
    ensures LV(t[..i]) + c[i] * Pow(B, i) == LV(s[..i]) * p
  {
    hide LV, Pow;
    if i == 0 {
      NoLimb();
    } else {
      ChainValue(s, t, c, p, i - 1);
      LVStep(t, i - 1);
      LVStep(s, i - 1);
      PowSucc(B, i - 1);
      ChainStep(LV(t[..i - 1]), LV(s[..i - 1]), t[i - 1], s[i - 1], c[i - 1], c[i], p, Pow(B, i - 1), B);
    }
  }

  lemma NoLimb()
    ensures LV([]) == 0 && Pow(B, 0) == 1
  {
  }

  lemma ChainStep(t: nat, v: nat, y: nat, x: nat, c: nat, c': nat, p: nat, r: nat, b: nat)
    requires t + c * r == v * p && y + c' * b == x * p + c
    ensures (t + y * r) + c' * (b * r) == (v + x * r) * p
  {
    calc {
      (t + y * r) + c' * (b * r);
      { MulAssoc(c', b, r); }
      t + (y * r + (c' * b) * r);
      { assert (y + c' * b) * r == y * r + (c' * b) * r; }
      t + (x * p + c) * r;
      { assert (x * p + c) * r == (x * p) * r + c * r; }
      t + c * r + (x * p) * r;
      v * p + (x * p) * r;
      { MulAssoc(x, p, r); MulAssoc(x, r, p); }
      v * p + (x * r) * p;
      { assert (v + x * r) * p == v * p + (x * r) * p; }
      (v + x * r) * p;
    }
  }

  // ---- shifting by less than a limb ---------------------------------------------------------

  /** What is left of a limb in its place, and what goes to the limb above, when it moves up by `bits`. */
  function Kept(bits: nat, x: u32): (r: nat)
    requires bits < 32
  {
    x * Pow(2, bits) % B
  }

  function PushedOut(bits: nat, x: u32): (r: nat)
    requires bits < 32
  {
    x / Pow(2, 32 - bits)
  }

  lemma SplitLimb(bits: nat, x: u32)
    requires bits < 32
    ensures x * Pow(2, bits) == PushedOut(bits, x) * B + Kept(bits, x)
    ensures Kept(bits, x) + Pow(2, bits) <= B && PushedOut(bits, x) < Pow(2, bits)
  {
    LongIsTwoLimbs();
    PowAdd(2, 32 - bits, bits);
    SplitBy(x, Pow(2, bits), Pow(2, 32 - bits), B);
  }

  lemma SplitBy(x: nat, p: nat, q: nat, b: nat)
    requires p > 0 && q > 0 && b == q * p && x < b
    ensures x * p == (x / q) * b + x * p % b
    ensures x * p % b + p <= b && x / q < p
  {
    var u, v := x / q, x % q;
    DivModIdentity(x, q);
    SplitProduct(x, u, v, p, q);
    SplitRange(u, v, p, q);
    DivModUnique(x * p, u, b, v * p);
  }

  lemma SplitProduct(x: nat, u: nat, v: nat, p: nat, q: nat)
    requires x == u * q + v
    ensures x * p == u * (q * p) + v * p
  {
    MulAssoc(u, q, p);
  }

  lemma SplitRange(u: nat, v: nat, p: nat, q: nat)
    requires v < q && u * q + v < q * p
    ensures u < p && v * p + p <= q * p
  {
    if u >= p {
      MulMonotone(p, u, q);
    }
    MulMonotone(v + 1, q, p);
    assert (v + 1) * p == v * p + p;
  }

  /** Limb `i` of the number `s` shifted left by `bits` bits: what stays of s[i] beside what s[i - 1] pushed out. */
  function ShiftedLimb(s: seq<u32>, bits: nat, i: nat): (r: u32)
    requires bits < 32
  {
    var hi := if i < |s| then s[i] else 0;
    var lo := if 0 < i <= |s| then s[i - 1] else 0;
    SplitLimb(bits, hi);
    SplitLimb(bits, lo);
    Kept(bits, hi) + PushedOut(bits, lo)
  }

  lemma ShiftedValue(s: seq<u32>, bits: nat, t: seq<u32>)
    requires bits < 32 && |t| == |s| + 1
    requires forall i :: 0 <= i < |t| ==> t[i] == ShiftedLimb(s, bits, i)
    ensures LV(t) == LV(s) * Pow(2, bits)
  {
    hide LV, Pow;
    var c := seq(|s| + 1, i requires 0 <= i <= |s| => if i == 0 then 0 else PushedOut(bits, s[i - 1]));
    var low := t[..|s|];
    forall i | 0 <= i < |s| ensures low[i] + c[i + 1] * B == s[i] * Pow(2, bits) + c[i] {
      ShiftedLink(s, bits, i);
    }
    ChainValue(s, low, c, Pow(2, bits), |s|);
    assert s[..|s|] == s && low[..|s|] == low;
    assert t == low + [t[|s|]];
    LVPush(low, t[|s|]);
    ShiftedLast(s, bits);
  }

  lemma ShiftedLink(s: seq<u32>, bits: nat, i: nat)
    requires bits < 32 && i < |s|
    ensures ShiftedLimb(s, bits, i) + PushedOut(bits, s[i]) * B
         == s[i] * Pow(2, bits) + if i == 0 then 0 else PushedOut(bits, s[i - 1])
  {
    SplitLimb(bits, s[i]);
    NothingShifted(bits);
  }

  lemma ShiftedLast(s: seq<u32>, bits: nat)
    requires bits < 32
    ensures ShiftedLimb(s, bits, |s|) == if s == [] then 0 else PushedOut(bits, s[|s| - 1])
  {
    NothingShifted(bits);
  }

  lemma NothingShifted(bits: nat)
    requires bits < 32
    ensures Kept(bits, 0) == 0 && PushedOut(bits, 0) == 0
  {
    DivModUnique(0, 0, Pow(2, 32 - bits), 0);
  }

  /** Shifting by whole limbs as well, and keeping only the low |r| of them. */
  lemma ShiftedAndCut(s: seq<u32>, limbs: nat, bits: nat, r: seq<u32>)
    requires bits < 32 && |r| <= limbs + |s| + 1
    requires forall i :: 0 <= i < |r| ==>
      r[i] == if i < limbs then 0 else ShiftedLimb(s, bits, i - limbs)
    ensures LV(r) == LV(s) * Pow(2, 32 * limbs + bits) % Pow(B, |r|)
    ensures |r| == limbs + |s| + 1 ==> LV(r) == LV(s) * Pow(2, 32 * limbs + bits)
  {
    var t := seq(|s| + 1, i requires 0 <= i => ShiftedLimb(s, bits, i));
    var zeros: seq<u32> := seq(limbs, _ => 0);
    ShiftedValue(s, bits, t);
    ShiftedByLimbs(zeros, t, LV(s), bits);
    var all := zeros + t;
    assert r == all[..|r|];
    LowLimbs(all, |r|);
    if |r| == |all| { assert r == all; }
  }

  lemma ShiftedByLimbs(zeros: seq<u32>, t: seq<u32>, v: nat, bits: nat)
    requires forall i :: 0 <= i < |zeros| ==> zeros[i] == 0
    requires LV(t) == v * Pow(2, bits)
    ensures LV(zeros + t) == v * Pow(2, 32 * |zeros| + bits)
  {
    LVZeros(zeros);
    LVAppend(zeros, t);
    LongIsTwoLimbs();
    PowMultiply(2, 32, |zeros|);
    PowAdd(2, bits, 32 * |zeros|);
    MulAssoc(v, Pow(2, bits), Pow(B, |zeros|));
  }

  lemma LowLimbs(all: seq<u32>, k: nat)
    requires k <= |all|
    ensures LV(all[..k]) == LV(all) % Pow(B, k)
  {
    assert all == all[..k] + all[k..];
    LVAppend(all[..k], all[k..]);
    LVMod(LV(all), LV(all[k..]), all[..k], k);
  }

  /** The number of significant bits of a limb. */
  function BitLength(x: nat): (r: nat)
    ensures x == 0 <==> r == 0
    ensures x != 0 ==> Pow(2, r - 1) <= x < Pow(2, r)
  {
    if x == 0 then 0 else 1 + BitLength(x / 2)
  }

  lemma LVPair(x: u32, y: u32)
    ensures LV([x]) == x && LV([x, y]) == x + y * B
  {
    LVPush([], x);
    LVPush([x], y);
    assert [x] + [y] == [x, y];
    assert Pow(B, 1) == B;
  }

  lemma LongIsTwoLimbs()
    ensures Pow(2, 32) == B && Pow(2, 64) == B * B
  {
    hide Pow;
    FirstPowers();
    PowAdd(2, 4, 4);
    PowAdd(2, 8, 8);
    PowAdd(2, 16, 16);
    PowAdd(2, 32, 32);
  }

  /** __builtin_clz of a limb. */
  function LeadingZeros(x: u32): (r: nat)
    requires x != 0
    ensures r == 32 - BitLength(x) < 32
  {
    LimbBitLength(x);
    32 - BitLength(x)
  }

  lemma LimbBitLength(x: u32)
    ensures BitLength(x) <= 32
  {
    LongIsTwoLimbs();
    if BitLength(x) > 32 {
      PowMonotone(2, 32, BitLength(x) - 1);
    }
  }

  /** The number and what is still to be added to it at limb i. */
  ghost function Pending(s: seq<u32>, a: nat, i: nat): nat
  {
    LV(s) + a * Pow(B, i)
  }

  lemma PendingEnds(s: seq<u32>, a: nat)
    ensures Pending(s, a, 0) == LV(s) + a
  {
    assert Pow(B, 0) == 1;
  }

  lemma NothingPending(s: seq<u32>, i: nat)
    ensures Pending(s, 0, i) == LV(s)
  {
  }

  lemma PendingExtended(s: seq<u32>, a: nat, i: nat)
    ensures Pending(s + [0], a, i) == Pending(s, a, i)
  {
    LVPush(s, 0);
  }

  /** Adding at one limb, the wrapped sum there and the carry it leaves for the next. */
  lemma AddLimb(s: seq<u32>, i: nat, a: u32)
    requires i < |s|
    ensures var y: u32 := (s[i] + a) % B;
      Pending(s[i := y], if y < s[i] then 1 else 0, i + 1) == Pending(s, a, i)
  {
    var y: u32 := (s[i] + a) % B;
    LVUpdate(s, i, y);
    var p := Pow(B, i);
    if s[i] + a < B {
      assert y == s[i] + a;
    } else {
      assert y == s[i] + a - B;
      assert (y - s[i]) * p == a * p - B * p;
    }
  }

  lemma AddCut(s: seq<u32>, a: u32, v: nat)
    requires a != 0 && v == Pending(s, a, |s|)
    ensures LV(s) == v % Pow(B, |s|) && v >= Pow(B, |s|)
  {
    LVMod(v, a, s, |s|);
    MulMonotone(1, a, Pow(B, |s|));
  }

  lemma ShiftResult(s: seq<u32>, limbs: nat, bits: nat, r: seq<u32>, capacity: nat)
    requires bits < 32 && |r| <= capacity
    requires |r| == limbs + |s| + 1 || (|r| == capacity && capacity < limbs + |s| + 1)
    requires forall i :: 0 <= i < |r| ==>
      r[i] == if i < limbs then 0 else ShiftedLimb(s, bits, i - limbs)
    ensures LV(r) == LV(s) * Pow(2, 32 * limbs + bits) % Pow(B, capacity)
    ensures LV(s) * Pow(2, 32 * limbs + bits) < Pow(B, capacity) ==> LV(r) == LV(s) * Pow(2, 32 * limbs + bits)
  {
    ShiftedAndCut(s, limbs, bits, r);
    LVBound(r);
    PowMonotone(B, |r|, capacity);
    var v := LV(s) * Pow(2, 32 * limbs + bits);
    if v < Pow(B, capacity) {
      SmallMod(v, Pow(B, capacity));
    }
    if |r| == limbs + |s| + 1 {
      SmallMod(v, Pow(B, capacity));
    }
  }

  lemma ShiftTerms(s: seq<u32>, bits: nat, from: int, hi: u32, lo: u32)
    requires bits < 32
    requires hi == if 0 <= from < |s| then s[from] else 0
    requires lo == if 0 <= from - 1 < |s| then s[from - 1] else 0
    ensures (if bits == 0 then hi else Kept(bits, hi) + PushedOut(bits, lo))
         == if from < 0 then 0 else ShiftedLimb(s, bits, from)
  {
    NothingShifted(bits);
    if bits == 0 {
      LongIsTwoLimbs();
      assert Pow(2, 0) == 1;
      DivModUnique(hi, 0, B, hi);
      DivModUnique(lo, 0, B, lo);
    }
  }

  lemma HalveStep(now: nat, x: nat, next: nat, p: nat)
    requires 2 * now == x - x % 2 + next * B
    ensures 2 * (now * p) + (x % 2) * p == x * p + next * (B * p)
  {
    MulAssoc(next, B, p);
    assert (2 * now) * p == 2 * (now * p);
    assert (x - x % 2 + next * B) * p == x * p - (x % 2) * p + (next * B) * p;
  }

  /** The lowest bit of limb i. */
  function LowBit(s: seq<u32>, i: nat): (r: nat)
    ensures r <= 1
  {
    if i < |s| then s[i] % 2 else 0
  }

  /** Twice the limbs made so far and the bit dropped are the limbs they come from and the bit that comes down next. */
  ghost predicate Halved(now: seq<u32>, s: seq<u32>)
  {
    |now| <= |s| && 2 * LV(now) + LowBit(s, 0) == LV(s[..|now|]) + LowBit(s, |now|) * Pow(B, |now|)
  }

  lemma HalvedStarts(s: seq<u32>)
    ensures Halved([], s)
  {
  }

  lemma HalvedStep(now: seq<u32>, s: seq<u32>, y: u32)
    requires Halved(now, s) && |now| < |s| && y == s[|now|] / 2 + LowBit(s, |now| + 1) * 0x8000_0000
    ensures Halved(now + [y], s)
  {
    hide LV, Pow;
    var i := |now|;
    LVPush(now, y);
    LVStep(s, i);
    PowSucc(B, i);
    HalveStep(y, s[i], LowBit(s, i + 1), Pow(B, i));
  }

  lemma HalvedEnds(now: seq<u32>, s: seq<u32>)
    requires Halved(now, s) && |now| == |s|
    ensures LV(now) == LV(s) / 2
  {
    hide LV, Pow, LowBit;
    assert s[..|s|] == s && LowBit(s, |s|) == 0 by { NoBitAbove(s); }
    MulMonotone(LowBit(s, |s|), 0, Pow(B, |s|));
    DivModUnique(LV(s), LV(now), 2, LowBit(s, 0));
  }

  lemma NoBitAbove(s: seq<u32>)
    ensures LowBit(s, |s|) == 0 && s[..|s|] == s
  {
  }

  /** The limbs made so far and the carry out of them are the product of the limbs they come from. */
  ghost predicate Multiplied(now: seq<u32>, s: seq<u32>, m: nat, carry: nat)
  {
    |now| <= |s| && LV(now) + carry * Pow(B, |now|) == LV(s[..|now|]) * m
  }

  lemma MultiplyStarts(s: seq<u32>, m: nat)
    ensures Multiplied([], s, m, 0)
  {
  }

  lemma MultiplyStep(now: seq<u32>, s: seq<u32>, m: u32, carry: u32)
    requires Multiplied(now, s, m, carry) && |now| < |s|
    ensures var t := s[|now|] * m + carry;
      0 <= t / B < B && (m > 0 && t / B == 0 && s[|now|] != 0 ==> t % B != 0)
      && Multiplied(now + [t % B], s, m, t / B)
  {
    var i := |now|;
    var t := s[i] * m + carry;
    ProductRange(s[i], m, carry);
    DivModIdentity(t, B);
    LVPush(now, t % B);
    LVStep(s, i);
    ChainStep(LV(now), LV(s[..i]), t % B, s[i], carry, t / B, m, Pow(B, i), B);
  }

  lemma ProductRange(x: u32, m: u32, carry: u32)
    ensures 0 <= (x * m + carry) / B < B
    ensures x != 0 && m > 0 ==> x * m + carry > 0
  {
    MulMonotone2(x, B - 1, m, B - 1);
    if x != 0 && m > 0 { MulMonotone2(1, x, 1, m); }
  }

  lemma MultiplyEnds(now: seq<u32>, s: seq<u32>, m: nat, carry: u32, capacity: nat)
    requires Multiplied(now, s, m, carry) && |now| == |s| <= capacity
    ensures LV(now) + carry * Pow(B, |s|) == LV(s) * m
    ensures carry == 0 || |s| == capacity ==> LV(now) == LV(s) * m % Pow(B, capacity)
    ensures carry != 0 && |s| == capacity ==> LV(s) * m >= Pow(B, capacity)
    ensures carry != 0 && |s| < capacity ==>
      LV(now + [carry]) == LV(s) * m == LV(s) * m % Pow(B, capacity)
  {
    assert s[..|s|] == s;
    LVPush(now, carry);
    if carry != 0 && |s| == capacity {
      LVMod(LV(s) * m, carry, now, capacity);
      MulMonotone(1, carry, Pow(B, capacity));
    } else {
      var r := if carry == 0 then now else now + [carry];
      LVBound(r);
      PowMonotone(B, |r|, capacity);
      SmallMod(LV(r), Pow(B, capacity));
    }
  }

  lemma SmallMod(v: nat, c: nat)
    requires v < c
    ensures v % c == v
  {
    DivModUnique(v, 0, c, v);
  }

  lemma LongerIsLarger(s: seq<u32>, t: seq<u32>)
    requires |s| != |t|
    requires s != [] ==> s[|s| - 1] != 0
    requires t != [] ==> t[|t| - 1] != 0
    ensures |s| < |t| ==> LV(s) < LV(t)
    ensures |t| < |s| ==> LV(t) < LV(s)
  {
    LVBound(s);
    LVBound(t);
    if |s| < |t| {
      LVTop(t);
      PowMonotone(B, |s|, |t| - 1);
    } else {
      LVTop(s);
      PowMonotone(B, |t|, |s| - 1);
    }
  }

  /** The limbs made so far and the subtrahend's make up the minuend's and the borrow. */
  ghost predicate Subtracted(now: seq<u32>, u: seq<u32>, s: seq<u32>, borrow: nat)
  {
    |now| <= |s| == |u| && LV(now) + LV(u[..|now|]) == LV(s[..|now|]) + borrow * Pow(B, |now|)
  }

  lemma SubtractStarts(u: seq<u32>, s: seq<u32>)
    requires |u| == |s|
    ensures Subtracted([], u, s, 0)
  {
  }

  lemma SubtractStep(now: seq<u32>, u: seq<u32>, s: seq<u32>, borrow: u32)
    requires Subtracted(now, u, s, borrow) && |now| < |s| && borrow <= 1
    ensures var i := |now|; var y: u32 := (s[i] - u[i] - borrow) % B;
      Subtracted(now + [y], u, s, if s[i] < u[i] || (s[i] == u[i] && borrow != 0) then 1 else 0)
  {
    hide LV, Pow;
    var i := |now|;
    var y: u32 := (s[i] - u[i] - borrow) % B;
    LVPush(now, y);
    LVStep(s, i);
    LVStep(u, i);
    PowSucc(B, i);
    var carry := if s[i] < u[i] || (s[i] == u[i] && borrow != 0) then 1 else 0;
    LimbDifference(s[i], u[i], borrow);
    BorrowStep(y, u[i], s[i], borrow, carry, Pow(B, i), B);
  }

  lemma LimbDifference(x: u32, t: u32, borrow: u32)
    requires borrow <= 1
    ensures (x - t - borrow) % B + t + borrow == x + (if x < t || (x == t && borrow != 0) then 1 else 0) * B
  {
  }

  lemma SubtractEnds(now: seq<u32>, u: seq<u32>, s: seq<u32>, borrow: nat)
    requires Subtracted(now, u, s, borrow) && |now| == |s| && LV(u) <= LV(s)
    ensures LV(now) == LV(s) - LV(u)
  {
    assert s[..|s|] == s && u[..|u|] == u;
    LVBound(now);
    if borrow != 0 {
      MulMonotone(1, borrow, Pow(B, |now|));
    }
  }

  lemma BorrowStep(y: nat, t: nat, x: nat, c: nat, c': nat, p: nat, b: nat)
    requires y + t + c == x + c' * b
    ensures y * p + t * p + c * p == x * p + c' * (b * p)
  {
    MulAssoc(c', b, p);
    assert (y + t + c) * p == (x + c' * b) * p;
    assert (y + t + c) * p == y * p + t * p + c * p;
  }

  /** A number with zero limbs added up to n limbs. */
  ghost function Padded(t: seq<u32>, n: nat): (u: seq<u32>)
    requires |t| <= n
    ensures |u| == n && LV(u) == LV(t)
    ensures forall i :: 0 <= i < n ==> u[i] == if i < |t| then t[i] else 0
  {
    var zeros: seq<u32> := seq(n - |t|, _ => 0);
    LVZeros(zeros);
    LVAppend(t, zeros);
    t + zeros
  }

  lemma BitsOf(s: seq<u32>)
    requires s != [] && s[|s| - 1] != 0
    ensures var r := (|s| - 1) * 32 + BitLength(s[|s| - 1]);
      r > 0 && Pow(2, r - 1) <= LV(s) < Pow(2, r)
  {
    var k := |s| - 1;
    var x := s[k];
    var b := BitLength(x);
    LVBound(s[..k]);
    LimbPower(k);
    PowAdd(2, b - 1, 32 * k);
    PowAdd(2, b, 32 * k);
    BetweenPowers(Pow(2, b - 1), x, Pow(2, b), Pow(B, k), LV(s[..k]));
  }

  lemma LimbPower(k: nat)
    ensures Pow(B, k) == Pow(2, 32 * k)
  {
    LongIsTwoLimbs();
    PowMultiply(2, 32, k);
  }

  lemma BetweenPowers(lo: nat, x: nat, hi: nat, p: nat, rest: nat)
    requires lo <= x < hi && rest < p
    ensures lo * p <= rest + x * p < hi * p
  {
    MulMonotone(lo, x, p);
    MulMonotone(x + 1, hi, p);
    assert (x + 1) * p == x * p + p;
  }

  lemma DigitRange(rem: nat, x: u32, d: nat)
    requires rem < d
    ensures (rem * B + x) / d < B && (rem * B + x) % d < d
  {
    MulMonotone(rem + 1, d, B);
    assert (rem + 1) * B == rem * B + B;
    var t := rem * B + x;
    DivModIdentity(t, d);
    if t / d >= B {
      MulMonotone(B, t / d, d);
    }
  }

  /** What is still to be divided below limb i, with the remainder so far, and the quotient already made above. */
  ghost function Divided(s: seq<u32>, i: nat, rem: nat, d: nat): int
    requires i <= |s|
  {
    LV(s[..i]) + rem * Pow(B, i) + d * (LV(s) - LV(s[..i]))
  }

  lemma DivideStep(s: seq<u32>, i: nat, rem: nat, d: nat)
    requires i < |s| && rem < d
    requires (rem * B + s[i]) / d < B
    ensures var t := rem * B + s[i]; var q: u32 := t / d;
      Divided(s[i := q], i, t % d, d) == Divided(s, i + 1, rem, d)
  {
    var t := rem * B + s[i];
    var q: u32 := t / d;
    DivModIdentity(t, d);
    var s' := s[i := q];
    LVUpdate(s, i, q);
    LVStep(s, i);
    assert s'[..i] == s[..i];
    DivideTerms(LV(s[..i]), LV(s), s[i], q, t % d, rem, d, Pow(B, i), B);
  }

  lemma DivideTerms(low: nat, v: nat, x: nat, q: nat, r: nat, rem: nat, d: nat, p: nat, b: nat)
    requires rem * b + x == q * d + r
    ensures low + r * p + d * (v + (q - x) * p - low)
         == (low + x * p) + rem * (b * p) + d * (v - (low + x * p))
  {
    assert rem * (b * p) == (rem * b) * p by { MulAssoc(rem, b, p); }
    assert (rem * b + x) * p == (rem * b) * p + x * p;
    assert (q * d + r) * p == (q * d) * p + r * p;
    assert (q * d) * p == d * (q * p) by { MulAssoc(d, q, p); }
    assert (q - x) * p == q * p - x * p;
    assert d * (v + (q * p - x * p) - low) == d * (v - low - x * p) + d * (q * p);
  }

  /** Taking base^chunk out of base^k leaves numbers no larger than the whole. */
  lemma TakeChunk(x: nat, base: nat, chunk: nat, k: nat, v: nat)
    requires base > 0 && chunk <= k && x * Pow(base, k) == v
    ensures (x * Pow(base, chunk)) * Pow(base, k - chunk) == v
    ensures x * Pow(base, chunk) <= v
  {
    PowAdd(base, chunk, k - chunk);
    MulAssoc(x, Pow(base, chunk), Pow(base, k - chunk));
    MulMonotone(1, Pow(base, k - chunk), x * Pow(base, chunk));
  }

  lemma DivideStarts(s: seq<u32>, d: nat)
    ensures Divided(s, |s|, 0, d) == LV(s)
  {
    assert s[..|s|] == s;
    assert 0 * Pow(B, |s|) == 0;
    assert d * 0 == 0;
  }

  lemma DivideEnds(s: seq<u32>, rem: nat, d: nat)
    ensures Divided(s, 0, rem, d) == LV(s) * d + rem
  {
    assert s[..0] == [];
    assert Pow(B, 0) == 1;
  }
}
