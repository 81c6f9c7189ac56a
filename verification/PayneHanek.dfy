/** The integer part of the reduction of large arguments: x * 2/pi modulo 4 from a window of the bits of 2/pi. */
module PayneHanek {
  import opened Powers
  import opened Limbs
  import opened LimbArithmetic

  /** 2/pi as the files hold it, 32 bits a word from the binary point on: for binary64 and for binary32. */
  const TWO_OVER_PI64: seq<u32> := [
    0xA2F9836E, 0x4E441529, 0xFC2757D1, 0xF534DDC0, 0xDB629599, 0x3C439041, 0xFE5163AB, 0xDEBBC561,
    0xB7246E3A, 0x424DD2E0, 0x06492EEA, 0x09D1921C, 0xFE1DEB1C, 0xB129A73E, 0xE88235F5, 0x2EBB4484,
    0xE99C7026, 0xB45F7E41, 0x3991D639, 0x835339F4, 0x9C845F8B, 0xBDF9283B, 0x1FF897FF, 0xDE05980F,
    0xEF2F118B, 0x5A0A6D1F, 0x6D367ECF, 0x27CB09B7, 0x4F463F66, 0x9E5FEA2D, 0x7527BAC7, 0xEBE5F17B,
    0x3D0739F7, 0x8A5292EA, 0x6BFB5FB1, 0x1F8D5D08, 0x56033046, 0xFC7B6BAB, 0xF0CFBC20, 0x9AF4361D,
    0xA9E39161, 0x5EE61B08, 0x6599855F, 0x14A06840, 0x8DFFD880, 0x4D732731, 0x06061556, 0xCA73A8C9,
    0x60E27BC0, 0x8C6B47C4, 0x19C36806, 0x08195100]

  const TWO_OVER_PI32: seq<u32> := [
    0xA2F9836E, 0x4E441529, 0xFC2757D1, 0xF534DDC0, 0xDB629599, 0x3C439041, 0xFE5163AB, 0xDEBBC561]

  /** Word w of a table that goes on with zeros both ways. */
  function Word(table: seq<u32>, w: int): u32
  {
    if 0 <= w < |table| then table[w] else 0
  }

  /** 32 bits of the table from bit b after the point. */
  function Window(table: seq<u32>, b: int): (r: u32)
  {
    var w := if b >= 0 then b / 32 else -((31 - b) / 32);
    var s := b - w * 32;
    WordOf(b);
    SplitLimb(s, Word(table, w));
    SplitLimb(s, Word(table, w + 1));
    if s == 0 then Word(table, w) else Kept(s, Word(table, w)) + PushedOut(s, Word(table, w + 1))
  }

  /** The word a bit is in, C's division rounding toward zero. */
  lemma WordOf(b: int)
    ensures (if b >= 0 then b / 32 else -((31 - b) / 32)) == b / 32 && 0 <= b - b / 32 * 32 < 32
    ensures b / 32 * 32 == 32 * (b / 32)
  {
  }

  // ---- the leading bits of a table ---------------------------------------------------------------------

  /** The first w words as one number. */
  function Whole(table: seq<u32>, w: int): nat
  {
    if w <= 0 then 0 else Whole(table, w - 1) * B + Word(table, w - 1)
  }

  /** The first k bits as one number. */
  function Head(table: seq<u32>, k: int): nat
  {
    var w := k / 32;
    var s := k - 32 * w;
    Whole(table, w) * Pow(2, s) + PushedOut(s, Word(table, w))
  }

  /** The window at b holds the 32 bits that follow the first b. */
  lemma HeadNext(table: seq<u32>, b: int)
    ensures Head(table, b + 32) == Head(table, b) * B + Window(table, b)
  {
    WordOf(b);
    hide Pow, Kept, PushedOut;
    var w := b / 32;
    var s := b - 32 * w;
    assert (b + 32) / 32 == w + 1;
    var a, c := Word(table, w), Word(table, w + 1);
    SplitLimb(s, a);
    NextWhole(table, w);
    var p := Pow(2, s);
    var W := Whole(table, w);
    assert (W * B + a) * p == W * p * B + a * p by { Distribute(W * B, a, p); MulSwap(W, B, p); }
    Distribute(W * p, PushedOut(s, a), B);
    if s == 0 {
      NothingKept(a);
      NothingKept(c);
    }
  }

  lemma NothingKept(x: u32)
    ensures Kept(0, x) == x && PushedOut(0, x) == 0
  {
    LongIsTwoLimbs();
    PowZero(2);
    DivModUnique(x, 0, B, x);
  }

  lemma NextWhole(table: seq<u32>, w: int)
    ensures Whole(table, w + 1) == if w >= 0 then Whole(table, w) * B + Word(table, w) else 0
    ensures w < 0 ==> Whole(table, w) == 0 && Word(table, w) == 0
  {
  }

  lemma OneWordMore(W: nat, x: u32, p: nat, below: nat)
    requires below < p
    ensures (W * B + x) * p + below == W * (B * p) + (x * p + below) && x * p + below < B * p
  {
    Distribute(W * B, x, p);
    MulAssoc(W, B, p);
    MulMonotone(x + 1, B, p);
    Distribute(x, 1, p);
  }

  /** What follows the first w words is less than one of the last of them. */
  lemma {:induction false} RestOf(table: seq<u32>, w: nat) returns (rest: nat)
    requires w <= |table|
    ensures Whole(table, |table|) == Whole(table, w) * Pow(B, |table| - w) + rest && rest < Pow(B, |table| - w)
    decreases |table| - w
  {
    hide Pow, Whole, Word;
    if w == |table| {
      PowZero(B);
      rest := 0;
    } else {
      var below := RestOf(table, w + 1);
      NextWhole(table, w);
      PowSucc(B, |table| - w - 1);
      var p := Pow(B, |table| - w - 1);
      rest := Word(table, w) * p + below;
      OneWordMore(Whole(table, w), Word(table, w), p, below);
    }
  }

  /** The table's value is Whole(table, |table|) / 2^(32 |table|), and times 2^k it is that over this. */
  function Under(table: seq<u32>, k: int): nat
    requires k <= 32 * |table|
  {
    Pow(2, 32 * |table| - k)
  }

  /** The first k bits are the table's value times 2^k, rounded down. */
  lemma HeadIsFloor(table: seq<u32>, k: int) returns (r: nat)
    requires k <= 32 * |table|
    ensures Whole(table, |table|) == Head(table, k) * Under(table, k) + r && r < Under(table, k)
  {
    hide Pow, Kept, PushedOut;
    var n, w := |table|, k / 32;
    var s := k - 32 * w;
    if w < 0 {
      r := RestOf(table, 0);
      BeforePoint(table, k);
    } else if w == n {
      assert s == 0;
      NothingKept(Word(table, w));
      PowZero(2);
      r := 0;
    } else {
      var rest := RestOf(table, w + 1);
      NextWhole(table, w);
      r := InWord(table, k, w, s, rest);
    }
  }

  lemma BeforePoint(table: seq<u32>, k: int)
    requires k < 0
    ensures Head(table, k) == 0 && Under(table, k) >= Pow(B, |table|)
  {
    NextWhole(table, k / 32);
    LimbPower(|table|);
    PowMonotone(2, 32 * |table|, 32 * |table| - k);
    DivModUnique(0, 0, Pow(2, 32 - (k - 32 * (k / 32))), 0);
  }

  lemma InWord(table: seq<u32>, k: int, w: nat, s: nat, rest: nat) returns (r: nat)
    requires w < |table| && s < 32 && k == 32 * w + s
    requires var p := Pow(B, |table| - w - 1);
      Whole(table, |table|) == (Whole(table, w) * B + Word(table, w)) * p + rest && rest < p
    ensures Whole(table, |table|) == Head(table, k) * Under(table, k) + r && r < Under(table, k)
  {
    hide Pow, Whole, Word, Head, Under;
    UnderWord(table, k, w, s);
    var hi, lo := HeadSplit(table, k, w, s);
    var p := Pow(B, |table| - w - 1);
    r := lo * p + rest;
    Scaled(Whole(table, w), B, Pow(2, s), Pow(2, 32 - s), Word(table, w), hi, lo, p, rest, Head(table, k),
           Under(table, k));
  }

  /** The word the first k bits end in, as what is above that place and what is below. */
  lemma HeadSplit(table: seq<u32>, k: int, w: nat, s: nat) returns (hi: nat, lo: nat)
    requires s < 32 && k == 32 * w + s
    ensures Word(table, w) == hi * Pow(2, 32 - s) + lo && lo < Pow(2, 32 - s)
    ensures Head(table, k) == Whole(table, w) * Pow(2, s) + hi
  {
    hide Pow, Whole, Word, Head;
    HeadWord(table, k, w, s);
    DivModIdentity(Word(table, w), Pow(2, 32 - s));
    hi, lo := Word(table, w) / Pow(2, 32 - s), Word(table, w) % Pow(2, 32 - s);
  }

  lemma UnderWord(table: seq<u32>, k: int, w: nat, s: nat)
    requires w < |table| && s < 32 && k == 32 * w + s
    ensures Under(table, k) == Pow(2, 32 - s) * Pow(B, |table| - w - 1)
    ensures Pow(2, s) * Pow(2, 32 - s) == B && Pow(2, 32 - s) > 0
  {
    hide Pow;
    LongIsTwoLimbs();
    PowAdd(2, s, 32 - s);
    LimbPower(|table| - w - 1);
    PowAdd(2, 32 - s, 32 * (|table| - w - 1));
  }

  lemma HeadWord(table: seq<u32>, k: int, w: nat, s: nat)
    requires s < 32 && k == 32 * w + s
    ensures Head(table, k) == Whole(table, w) * Pow(2, s) + Word(table, w) / Pow(2, 32 - s)
  {
    hide Pow, Whole;
    assert k / 32 == w;
  }

  lemma Scaled(W: nat, b: nat, u: nat, v: nat, a: nat, hi: nat, lo: nat, p: nat, rest: nat, head: nat, under: nat)
    requires lo < v && rest < p && b == u * v && a == hi * v + lo && head == W * u + hi && under == v * p
    ensures (W * b + a) * p + rest == head * under + (lo * p + rest)
    ensures lo * p + rest < under
  {
    MulAssoc(W, u, v);
    Distribute(W * u, hi, v);
    Distribute((W * u + hi) * v, lo, p);
    MulAssoc(W * u + hi, v, p);
    MulMonotone(lo + 1, v, p);
    Distribute(lo, 1, p);
  }

  // ---- the product of the significand and the window ---------------------------------------------------

  /** One limb: a product, what is there and the carry come to a new limb and a new carry. */
  lemma MacLimb(s: seq<u32>, k: nat, x: nat, carry: nat)
    requires k < |s|
    ensures var t := x + s[k] + carry;
      Pending(s[k := t % B], t / B, k + 1) == Pending(s, carry, k) + x * Pow(B, k)
  {
    var t := x + s[k] + carry;
    var y: u32 := t % B;
    LVUpdate(s, k, y);
    PowSucc(B, k);
    var p := Pow(B, k);
    hide Pow, LV;
    MacTerms(y, t / B, x, s[k], carry, p);
  }

  lemma MacTerms(y: int, c: int, x: int, z: int, carry: int, p: int)
    requires c * B + y == x + z + carry
    ensures (y - z) * p + c * (B * p) == carry * p + x * p
  {
    Distribute(y, -z, p);
    MulAssoc(c, B, p);
    Distribute(c * B, y, p);
    Distribute(x + z, carry, p);
    Distribute(x, z, p);
  }

  lemma ProductFits(x: u32, y: u32, z: u32, carry: u32)
    ensures x * y + z + carry < B * B
    ensures (x * y + z + carry) / B < B
  {
    MulMonotone2(x, B - 1, y, B - 1);
    var t := x * y + z + carry;
    DivModIdentity(t, B);
    MulCancelLess(t / B, B, B);
  }

  /** p += (mh : ml) * vi at limb i. */
  method AddRow(p: array<u32>, i: nat, vi: u32, ml: u32, mh: u32)
    requires i + 2 <= p.Length && LV(p[..]) + (ml + mh * B) * vi * Pow(B, i) < Pow(B, p.Length)
    modifies p
    ensures LV(p[..]) == LV(old(p[..])) + (ml + mh * B) * vi * Pow(B, i)
  {
    hide Pow, LV, Pending;
    ghost var s0 := p[..];
    ghost var total := LV(s0) + (ml + mh * B) * vi * Pow(B, i);
    var carry: nat := 0;
    RowStarts(s0, i, ml, mh, vi);
    carry := MacAt(p, i, ml, vi, carry);
    carry := MacAt(p, i + 1, mh, vi, carry);
    var k := i + 2;
    while k < p.Length && carry != 0
      invariant i + 2 <= k <= p.Length && carry < B && Pending(p[..], carry, k) == total
    {
      carry := CarryAt(p, k, carry);
      k := k + 1;
    }
    RowEnds(p[..], carry, k, total);
  }

  /** Nothing is carried out of the top. */
  lemma RowEnds(s: seq<u32>, carry: nat, k: nat, total: nat)
    requires Pending(s, carry, k) == total < Pow(B, |s|) && (carry == 0 || k == |s|)
    ensures LV(s) == total
  {
    hide Pow, LV;
    if carry != 0 {
      MulMonotone(1, carry, Pow(B, |s|));
    }
  }

  lemma RowStarts(s: seq<u32>, i: nat, ml: nat, mh: nat, vi: nat)
    ensures Pending(s, 0, i) == LV(s)
    ensures ml * vi * Pow(B, i) + mh * vi * Pow(B, i + 1) == (ml + mh * B) * vi * Pow(B, i)
  {
    PowSucc(B, i);
    hide Pow, LV;
    var p := Pow(B, i);
    MulAssoc(mh * vi, B, p);
    MulSwap(mh, vi, B);
    Distribute(ml, mh * B, vi);
    Distribute(ml * vi, mh * B * vi, p);
  }

  method MacAt(p: array<u32>, k: nat, x: u32, y: u32, carry0: nat) returns (carry: nat)
    requires k < p.Length && carry0 < B
    modifies p
    ensures carry < B && Pending(p[..], carry, k + 1) == Pending(old(p[..]), carry0, k) + x * y * Pow(B, k)
  {
    hide Pow, LV, Pending;
    MacLimb(p[..], k, x * y, carry0);
    ProductFits(x, y, p[k], carry0);
    var t := x * y + p[k] + carry0;
    p[k] := t % B;
    carry := t / B;
  }

  method CarryAt(p: array<u32>, k: nat, carry0: nat) returns (carry: nat)
    requires k < p.Length && carry0 < B
    modifies p
    ensures carry < B && Pending(p[..], carry, k + 1) == Pending(old(p[..]), carry0, k)
  {
    hide Pow, LV, Pending;
    MacLimb(p[..], k, 0, carry0);
    var t := p[k] + carry0;
    p[k] := t % B;
    carry := t / B;
  }

  /** The limbs from the bottom. */
  function Upward(v: seq<u32>): (u: seq<u32>)
    ensures |u| == |v| && forall i :: 0 <= i < |v| ==> u[i] == v[|v| - 1 - i]
  {
    seq(|v|, i requires 0 <= i < |v| => v[|v| - 1 - i])
  }

  /** P = m V, the limbs of V most significant first, those of P least. */
  method Product(v: seq<u32>, ml: u32, mh: u32) returns (p: array<u32>)
    ensures fresh(p) && p.Length == |v| + 2 && LV(p[..]) == (ml + mh * B) * LV(Upward(v))
  {
    hide Pow, LV;
    var n := |v|;
    ghost var u, m := Upward(v), ml + mh * B;
    p := new u32[n + 2](i => 0);
    NoLimbs(p[..]);
    var i := 0;
    while i < n
      invariant i <= n && LV(p[..]) == m * LV(u[..i])
    {
      RowFits(u, i, ml, mh, n);
      AddRow(p, i, v[n - 1 - i], ml, mh);
      i := i + 1;
    }
    assert u[..n] == u;
  }

  lemma NoLimbs(s: seq<u32>)
    requires forall i :: 0 <= i < |s| ==> s[i] == 0
    ensures LV(s) == 0 && LV([]) == 0
  {
    LVZeros(s);
  }

  /** A row more, and it fits. */
  lemma RowFits(u: seq<u32>, i: nat, ml: u32, mh: u32, n: nat)
    requires i < |u| == n
    ensures var m := ml + mh * B;
      m * LV(u[..i]) + m * u[i] * Pow(B, i) == m * LV(u[..i + 1]) < Pow(B, n + 2)
  {
    LVStep(u, i);
    LVBound(u[..i + 1]);
    PowAdd(B, 2, i + 1);
    PowMonotone(B, i + 3, n + 2);
    assert Pow(B, 2) == B * B;
    hide Pow, LV;
    var m := ml + mh * B;
    MulAssoc(m, u[i], Pow(B, i));
    assert m * (LV(u[..i]) + u[i] * Pow(B, i)) == m * LV(u[..i]) + m * (u[i] * Pow(B, i));
    MulMonotone2(m, B * B - 1, LV(u[..i + 1]), Pow(B, i + 1));
    Distribute(B * B, -1, Pow(B, i + 1));
    PowPositive(i + 1);
  }

  lemma PowPositive(k: nat)
    ensures Pow(B, k) > 0
  {
  }

  // ---- windows in a row ------------------------------------------------------------------------------------

  /** Limbs, most significant first, as a number. */
  function Packed(v: seq<u32>): nat
  {
    if v == [] then 0 else Packed(v[..|v| - 1]) * B + v[|v| - 1]
  }

  lemma {:induction false} PackedIs(v: seq<u32>)
    ensures Packed(v) == LV(Upward(v))
  {
    if v == [] {
    } else {
      var n := |v| - 1;
      PackedIs(v[..n]);
      assert Upward(v) == [v[n]] + Upward(v[..n]);
      LVAppend([v[n]], Upward(v[..n]));
      LVPair(v[n], 0);
      PowOne(B);
    }
  }

  /** n windows from bit `from` on. */
  ghost predicate Windows(table: seq<u32>, from: int, v: seq<u32>)
  {
    forall i :: 0 <= i < |v| ==> v[i] == Window(table, from + 32 * i)
  }

  lemma {:induction false} HeadAfter(table: seq<u32>, from: int, v: seq<u32>)
    requires Windows(table, from, v)
    ensures Head(table, from + 32 * |v|) == Head(table, from) * Pow(B, |v|) + Packed(v)
    decreases |v|
  {
    hide Head, Window, Pow;
    if v == [] {
      PowZero(B);
    } else {
      var n := |v| - 1;
      HeadAfter(table, from, v[..n]);
      HeadNext(table, from + 32 * n);
      PowSucc(B, n);
      OneWindowMore(Head(table, from), Pow(B, n), Packed(v[..n]), v[n]);
    }
  }

  lemma OneWindowMore(H: nat, p: nat, V: nat, w: nat)
    ensures (H * p + V) * B + w == H * (B * p) + (V * B + w)
  {
    Distribute(H * p, V, B);
    MulAssoc(H, p, B);
  }

  // ---- what a reduction finds ----------------------------------------------------------------------------

  /**
   * x is m * 2^e and T the table's value, and `point` bits of their product up to bit k of the table follow the
   * binary point. x T is a multiple of 4, and z / 2^fbits, and less than 2 / 2^fbits more.
   */
  ghost predicate Near(table: seq<u32>, k: int, m: nat, point: nat, fbits: nat, z: int)
    requires k <= 32 * |table| && fbits <= point
  {
    exists fours: nat :: NearWith(table, k, m, point, fbits, z, fours)
  }

  ghost predicate NearWith(table: seq<u32>, k: int, m: nat, point: nat, fbits: nat, z: int, fours: nat)
    requires k <= 32 * |table| && fbits <= point
  {
    NearBy(m * Whole(table, |table|), Under(table, k), Pow(2, point), Pow(2, point - fbits), fours, z)
  }

  ghost predicate NearBy(x: nat, d: nat, one: nat, ulp: nat, fours: nat, z: int)
  {
    var y := d * (4 * fours * one + z * ulp);
    y <= x < y + d * (2 * ulp)
  }

  /** A multiple of F and a rest, times m. */
  lemma ScaledRest(m: nat, head: nat, H: nat, V: nat, F: nat, c: nat, rest: nat)
    requires head == H * F + V && m * V == c + F * rest
    ensures m * head == (m * H + rest) * F + c
  {
    Commute(m, H * F + V);
    Distribute(H * F, V, m);
    Commute(H * F, m);
    MulAssoc(m, H, F);
    Commute(V, m);
    Distribute(m * H, rest, F);
    Commute(rest, F);
  }

  lemma TimesQuotient(m: nat, whole: nat, w: nat, d: nat, r: nat)
    requires whole == w * d + r
    ensures m * whole == (m * w) * d + m * r
  {
    Commute(m, w * d + r);
    Distribute(w * d, r, m);
    Commute(w * d, m);
    MulAssoc(m, w, d);
    Commute(r, m);
  }

  /** What is left out comes to less than two units in the last place. */
  lemma LittleMore(x: nat, mw: nat, y: nat, low: nat, ulp: nat, m: nat, d: nat, r: nat)
    requires low < ulp && r < d && m <= ulp && mw == y + low && x == mw * d + m * r
    ensures d * y <= x < d * y + d * (2 * ulp)
  {
    Distribute(y, low, d);
    Commute(d, y);
    MulStrict(low, ulp, d);
    MulMonotone2(m, ulp, r, d);
    Distribute(ulp, ulp, d);
    Commute(d, 2 * ulp);
  }

  lemma FourTimes(fours: nat, F: nat, one: nat, ulp: nat, z: nat)
    requires F == 4 * one
    ensures fours * F + ulp * z == 4 * fours * one + z * ulp
  {
    Commute(ulp, z);
    MulAssoc(fours, 4, one);
    Commute(fours, 4);
  }

  /** The window stands for the product modulo 4: the bits before it add multiples of 4, those after it little. */
  lemma NearTerms(whole: nat, head: nat, m: nat, d: nat, r: nat, H: nat, V: nat, F: nat, one: nat, ulp: nat,
                  low: nat, z: nat, rest: nat)
    requires F == 4 * one && whole == head * d + r && head == H * F + V && r < d && m <= ulp
    requires m * V == low + ulp * z + F * rest && low < ulp
    ensures NearBy(m * whole, d, one, ulp, m * H + rest, z)
  {
    var fours := m * H + rest;
    ScaledRest(m, head, H, V, F, low + ulp * z, rest);
    TimesQuotient(m, whole, head, d, r);
    FourTimes(fours, F, one, ulp, z);
    LittleMore(m * whole, m * head, 4 * fours * one + z * ulp, low, ulp, m, d, r);
  }

  lemma WindowsNear(table: seq<u32>, from: int, v: seq<u32>, m: nat, fbits: nat, low: nat, z: nat, rest: nat)
    requires Windows(table, from, v) && |v| > 0 && from + 32 * |v| <= 32 * |table| && fbits <= 32 * |v| - 2
    requires var ulp := Pow(2, 32 * |v| - 2 - fbits);
      m <= ulp && low < ulp && m * Packed(v) == low + ulp * z + Pow(B, |v|) * rest
    ensures Near(table, from + 32 * |v|, m, 32 * |v| - 2, fbits, z)
  {
    hide Head, Window, Pow, Whole, Packed, NearBy, Under;
    var k, point := from + 32 * |v|, 32 * |v| - 2;
    HeadAfter(table, from, v);
    var r := HeadIsFloor(table, k);
    var one, ulp := Pow(2, point), Pow(2, point - fbits);
    FourOnes(|v|);
    var H := Head(table, from);
    NearTerms(Whole(table, |table|), Head(table, k), m, Under(table, k), r, H, Packed(v), Pow(B, |v|), one, ulp, low,
              z, rest);
    assert NearWith(table, k, m, point, fbits, z, m * H + rest);
  }

  lemma FourOnes(n: nat)
    requires n > 0
    ensures Pow(B, n) == 4 * Pow(2, 32 * n - 2)
  {
    LimbPower(n);
    PowAdd(2, 32 * n - 2, 2);
    assert Pow(2, 2) == 4;
  }

  // ---- binary64 ----------------------------------------------------------------------------------------------

  function Eight(a: nat, b: nat, c: nat, d: nat, e: nat, f: nat, g: nat, h: nat): nat
  {
    a + B * (b + B * (c + B * (d + B * (e + B * (f + B * (g + B * h))))))
  }

  /** Eight limbs, spelled out. */
  lemma EightLimbs(p: seq<u32>)
    requires |p| == 8
    ensures LV(p) == Eight(p[0], p[1], p[2], p[3], p[4], p[5], p[6], p[7])
  {
    hide LV, Pow;
    LVFrom(p, 0); LVFrom(p, 1); LVFrom(p, 2); LVFrom(p, 3);
    LVFrom(p, 4); LVFrom(p, 5); LVFrom(p, 6); LVFrom(p, 7);
    NoLimbs(p[8..]);
    assert p[0..] == p;
  }

  /** The limbs from the i-th on: the lowest of them, and the rest. */
  lemma LVFrom(p: seq<u32>, i: nat)
    requires i < |p|
    ensures LV(p[i..]) == p[i] + B * LV(p[i + 1..])
  {
    hide LV, Pow;
    assert p[i..] == [p[i]] + p[i + 1..];
    LVAppend([p[i]], p[i + 1..]);
    LVPair(p[i], 0);
    PowOne(B);
  }

  // The quadrant and the 128 bits of fraction in a product of eight limbs, its point 190 bits up.

  function Quadrant(f: nat): nat
  {
    f / 0x4000_0000
  }

  function Word64(f: nat, e: nat, d: nat): nat
  {
    f % 0x4000_0000 * 0x4_0000_0000 + e * 4 + d / 0x4000_0000
  }

  lemma Pieces(a: nat, b: nat, c: nat, d: nat, e: nat, f: nat, g: nat, h: nat)
    requires a < B && b < B && c < B && d < B && e < B && f < B
    ensures var q, fh, fl := Quadrant(f), Word64(f, e, d), Word64(d, c, b);
      var low := a + B * (b % 0x4000_0000);
      && q < 4 && fh < TWO64 && fl < TWO64 && low < 0x4000_0000_0000_0000
      && Eight(a, b, c, d, e, f, g, h) == low
        + 0x4000_0000_0000_0000 * (q * TWO128 + fh * TWO64 + fl) + TWO192 * (g + B * h)
  {
  }

  lemma Constants()
    ensures Pow(2, 62) == 0x4000_0000_0000_0000 && Pow(2, 30) == 0x4000_0000
    ensures Pow(B, 3) == 0x1_0000_0000_0000_0000_0000_0000
    ensures Pow(B, 6) == TWO192
  {
    LongIsTwoLimbs();
    hide Pow;
    PowSucc(2, 31); PowSucc(2, 30);
    PowSucc(2, 63); PowSucc(2, 62);
    PowZero(B); PowSucc(B, 0); PowSucc(B, 1); PowSucc(B, 2);
    PowAdd(B, 3, 3);
  }

  const TWO64: nat := 0x1_0000_0000_0000_0000
  const TWO128: nat := 0x1_0000_0000_0000_0000_0000_0000_0000_0000
  const TWO192: nat := 0x1_0000_0000_0000_0000_0000_0000_0000_0000_0000_0000_0000_0000

  /** 2^128 less a fraction in two words. */
  method Negate(fh0: nat, fl0: nat) returns (fh: nat, fl: nat)
    requires 0 < fh0 < TWO64 && fl0 < TWO64
    ensures fh < TWO64 && fl < TWO64 && fh * TWO64 + fl == TWO128 - (fh0 * TWO64 + fl0)
  {
    fl := (TWO64 - 1 - fl0 + 1) % TWO64;
    fh := (TWO64 - 1 - fh0 + if fl == 0 then 1 else 0) % TWO64;
  }

  /** The fraction moved up until its top bit is set. */
  method Normalize(fh0: nat, fl0: nat) returns (fh: nat, fl: nat, lz: nat)
    requires fh0 < TWO64 && fl0 < TWO64 && (fh0 != 0 || fl0 != 0)
    ensures TWO64 / 2 <= fh < TWO64 && fl < TWO64 && fh * TWO64 + fl == (fh0 * TWO64 + fl0) * Pow(2, lz)
  {
    hide Pow;
    fh, fl, lz := fh0, fl0, 0;
    PowZero(2);
    while fh < TWO64 / 2
      invariant fh < TWO64 && fl < TWO64 && fh * TWO64 + fl == (fh0 * TWO64 + fl0) * Pow(2, lz) && (fh != 0 || fl != 0)
      decreases TWO128 - (fh * TWO64 + fl)
    {
      PowSucc(2, lz);
      Doubled(fh0 * TWO64 + fl0, Pow(2, lz));
      UpOne(fh, fl);
      fh, fl := fh * 2 + fl / (TWO64 / 2), fl * 2 % TWO64;
      lz := lz + 1;
    }
  }

  lemma UpOne(fh: nat, fl: nat)
    requires fh < TWO64 / 2 && fl < TWO64
    ensures var h, l := fh * 2 + fl / (TWO64 / 2), fl * 2 % TWO64;
      h < TWO64 && l < TWO64 && h * TWO64 + l == 2 * (fh * TWO64 + fl)
  {
    var q, r := fl / (TWO64 / 2), fl % (TWO64 / 2);
    DivModUnique(fl * 2, q, TWO64, 2 * r);
  }

  lemma Doubled(x: nat, p: nat)
    ensures x * (2 * p) == 2 * (x * p)
  {
    MulAssoc(x, 2, p);
    MulAssoc(2, x, p);
  }

  /** The quadrant, and the fraction to the nearest one: its sign, its 128 bits normalized and how far they moved. */
  datatype Reduction = Reduction(q: nat, negative: bool, hi: nat, lo: nat, lz: nat)

  /** The reduction says q and a signed fraction of at most a half. */
  ghost predicate Says(r: Reduction, z: int)
  {
    exists fraction: nat :: SaysWith(r, z, fraction)
  }

  ghost predicate SaysWith(r: Reduction, z: int, fraction: nat)
  {
    && r.q <= 4 && fraction <= TWO128 / 2
    && z == r.q * TWO128 + (if r.negative then 0 - fraction else fraction)
    && (if fraction == 0 then r.hi == 0 && r.lo == 0
        else TWO64 / 2 <= r.hi < TWO64 && r.lo < TWO64 && r.hi * TWO64 + r.lo == fraction * Pow(2, r.lz))
  }

  /** The significand and the exponent of a positive normal binary64. */
  function Significand64(b: nat): nat
  {
    b % 0x10_0000_0000_0000 + 0x10_0000_0000_0000
  }

  function Exponent64(b: nat): int
  {
    b / 0x10_0000_0000_0000 - 1075
  }

  predicate Normal64(b: nat)
  {
    0x10_0000_0000_0000 <= b < 0x7FF0_0000_0000_0000
  }

  /** The window of 192 bits, times the significand. */
  method WindowProduct(b: nat) returns (p: array<u32>, ghost v: seq<u32>)
    requires Normal64(b)
    ensures fresh(p) && p.Length == 8 && |v| == 6 && Windows(TWO_OVER_PI64, Exponent64(b) - 2, v)
    ensures LV(p[..]) == Significand64(b) * Packed(v)
  {
    hide Window, LV, Packed, Upward;
    var m := Significand64(b);
    var from := Exponent64(b) - 2;
    var windows := new u32[6];
    var i := 0;
    while i < 6
      invariant i <= 6 && forall k :: 0 <= k < i ==> windows[k] == Window(TWO_OVER_PI64, from + 32 * k)
    {
      windows[i] := Window(TWO_OVER_PI64, from + 32 * i);
      i := i + 1;
    }
    v := windows[..];
    PackedIs(v);
    var mh: u32, ml: u32 := m / B, m % B;
    p := Product(windows[..], ml, mh);
  }

  /** What the product says, the bits of its limbs taken apart. */
  lemma ProductNear(p: seq<u32>, from: int, v: seq<u32>, m: nat)
    requires |p| == 8 && |v| == 6 && Windows(TWO_OVER_PI64, from, v) && LV(p) == m * Packed(v)
    requires m <= 0x4000_0000_0000_0000 && from + 192 <= 32 * |TWO_OVER_PI64|
    ensures Word64(p[5], p[4], p[3]) < TWO64 && Word64(p[3], p[2], p[1]) < TWO64 && Quadrant(p[5]) < 4
    ensures var z := Quadrant(p[5]) * TWO128 + Word64(p[5], p[4], p[3]) * TWO64 + Word64(p[3], p[2], p[1]);
      Near(TWO_OVER_PI64, from + 192, m, 190, 128, z)
  {
    hide Window, LV, Packed, Pow, Near, Head, Whole, Eight, Quadrant, Word64, Windows;
    EightLimbs(p);
    Pieces(p[0], p[1], p[2], p[3], p[4], p[5], p[6], p[7]);
    PartsNear(from, v, m, p[0] + B * (p[1] % 0x4000_0000), Quadrant(p[5]), Word64(p[5], p[4], p[3]),
              Word64(p[3], p[2], p[1]), p[6] + B * p[7]);
  }

  lemma PartsNear(from: int, v: seq<u32>, m: nat, low: nat, q: nat, fh: nat, fl: nat, rest: nat)
    requires |v| == 6 && Windows(TWO_OVER_PI64, from, v) && from + 192 <= 32 * |TWO_OVER_PI64|
    requires m <= 0x4000_0000_0000_0000 && low < 0x4000_0000_0000_0000
    requires m * Packed(v) == low + 0x4000_0000_0000_0000 * (q * TWO128 + fh * TWO64 + fl) + TWO192 * rest
    ensures Near(TWO_OVER_PI64, from + 192, m, 190, 128, q * TWO128 + fh * TWO64 + fl)
  {
    hide Window, Packed, Pow, Near, Head, Whole, Windows;
    Constants();
    WindowsNear(TWO_OVER_PI64, from, v, m, 128, low, q * TWO128 + fh * TWO64 + fl, rest);
  }

  /**
   * reduce_large of the binary64 file, up to where its floats begin: x * T modulo 4, T the tabulated 2/pi, with an
   * error below 2^-127.
   */
  method Reduce64(b: nat) returns (r: Reduction)
    requires Normal64(b)
    ensures Exponent64(b) + 190 <= 32 * |TWO_OVER_PI64|
    ensures exists z :: Says(r, z) && Near(TWO_OVER_PI64, Exponent64(b) + 190, Significand64(b), 190, 128, z)
  {
    hide Window, LV, Packed, Near, Quadrant, Word64, Windows, Says;
    var p, v := WindowProduct(b);
    ProductNear(p[..], Exponent64(b) - 2, v, Significand64(b));
    var q := Quadrant(p[5]);
    var fh := Word64(p[5], p[4], p[3]);
    var fl := Word64(p[3], p[2], p[1]);
    r := ToNearest(q, fh, fl);
    assert Says(r, q * TWO128 + fh * TWO64 + fl);
  }

  /** The fraction to the nearest quadrant, and normalized. */
  method ToNearest(q0: nat, fh0: nat, fl0: nat) returns (r: Reduction)
    requires q0 < 4 && fh0 < TWO64 && fl0 < TWO64
    ensures Says(r, q0 * TWO128 + fh0 * TWO64 + fl0)
  {
    hide Pow;
    var q, fh, fl, negative := q0, fh0, fl0, false;
    ghost var z := q0 * TWO128 + fh0 * TWO64 + fl0;
    if fh >= TWO64 / 2 {
      q := q + 1;
      negative := true;
      fh, fl := Negate(fh, fl);
    }
    ghost var fraction := fh * TWO64 + fl;
    var lz := 0;
    if fh != 0 || fl != 0 {
      fh, fl, lz := Normalize(fh, fl);
    }
    r := Reduction(q, negative, fh, fl, lz);
    assert SaysWith(r, z, fraction);
  }

  // ---- binary32 ----------------------------------------------------------------------------------------------

  predicate Normal32(b: nat)
  {
    0x80_0000 <= b < 0x7F80_0000
  }

  function Significand32(b: nat): nat
  {
    b % 0x80_0000 + 0x80_0000
  }

  function Exponent32(b: nat): int
  {
    b / 0x80_0000 - 150
  }

  /** Three windows times a significand, limb by limb. */
  lemma ThreeLimbs(m: nat, w0: u32, w1: u32, w2: u32)
    ensures var p2 := m * w2; var p1 := m * w1 + p2 / B; var p0 := m * w0 + p1 / B;
      m * Packed([w0, w1, w2]) == p2 % B + B * (p1 % B + B * p0)
  {
    PackedThree(w0, w1, w2);
    var p2 := m * w2;
    var p1 := m * w1 + p2 / B;
    DivModIdentity(p2, B);
    DivModIdentity(p1, B);
    assert m * (w2 + B * (w1 + B * w0)) == m * w2 + B * (m * w1 + B * (m * w0)) by {
      Factors(m, w0, w1, w2);
    }
  }

  lemma Factors(m: nat, w0: nat, w1: nat, w2: nat)
    ensures m * (w2 + B * (w1 + B * w0)) == m * w2 + B * (m * w1 + B * (m * w0))
  {
    Commute(m, w2 + B * (w1 + B * w0));
    Distribute(w2, B * (w1 + B * w0), m);
    Distribute(w1, B * w0, m);
    MulSwap(B, w1 + B * w0, m);
    MulSwap(B, w0, m);
    Commute(m, w0);
    Commute(m, w1);
    Commute(m, w2);
    Commute(B, (w1 + B * w0) * m);
    Commute(B, w0 * m);
    MulAssoc(B, w1 + B * w0, m);
    MulAssoc(B, w0, m);
  }

  lemma PackedThree(w0: u32, w1: u32, w2: u32)
    ensures Packed([w0, w1, w2]) == w2 + B * (w1 + B * w0)
  {
    PackedPush([], w0);
    PackedPush([w0], w1);
    PackedPush([w0, w1], w2);
    assert [] + [w0] == [w0] && [w0] + [w1] == [w0, w1] && [w0, w1] + [w2] == [w0, w1, w2];
  }

  lemma PackedPush(v: seq<u32>, w: u32)
    ensures Packed(v + [w]) == Packed(v) * B + w && Packed([]) == 0
  {
    assert (v + [w])[..|v|] == v;
  }

  /** The quadrant and the 64 bits of fraction, the point 94 bits up. */
  lemma Pieces32(p0: nat, p1: nat, p2: nat)
    requires p1 < B && p2 < B
    ensures var q, fraction, low := Quadrant(p0 % B), Word64(p0 % B, p1, p2), p2 % 0x4000_0000;
      && q < 4 && fraction < TWO64
      && p2 + B * (p1 + B * p0)
        == low + 0x4000_0000 * (q * TWO64 + fraction) + 0x1_0000_0000_0000_0000_0000_0000 * (p0 / B)
  {
  }

  lemma ProductNear32(m: nat, from: int, w0: u32, w1: u32, w2: u32, p0: int, p1: int, p2: int)
    requires m <= 0x4000_0000 && from + 96 <= 32 * |TWO_OVER_PI32|
    requires p2 == m * w2 && p1 == m * w1 + p2 / B && p0 == m * w0 + p1 / B
    requires w0 == Window(TWO_OVER_PI32, from) && w1 == Window(TWO_OVER_PI32, from + 32)
    requires w2 == Window(TWO_OVER_PI32, from + 64)
    ensures var q, fraction := Quadrant(p0 % B), Word64(p0 % B, p1 % B, p2 % B);
      q < 4 && fraction < TWO64 && Near(TWO_OVER_PI32, from + 96, m, 94, 64, q * TWO64 + fraction)
  {
    hide Window, Packed, Pow, Near, Head, Whole, Quadrant, Word64;
    ThreeLimbs(m, w0, w1, w2);
    MulMonotone(0, m, w2);
    MulMonotone(0, m, w1);
    MulMonotone(0, m, w0);
    Pieces32(p0, p1 % B, p2 % B);
    Constants();
    var z := Quadrant(p0 % B) * TWO64 + Word64(p0 % B, p1 % B, p2 % B);
    WindowsNear(TWO_OVER_PI32, from, [w0, w1, w2], m, 64, p2 % B % 0x4000_0000, z, p0 / B);
  }

  /** Three windows times the significand: the quadrant and the fraction. */
  method WindowProduct32(from: int, m: nat) returns (q: nat, fraction: nat)
    requires m <= 0x4000_0000 && from + 96 <= 32 * |TWO_OVER_PI32|
    ensures q < 4 && fraction < TWO64 && Near(TWO_OVER_PI32, from + 96, m, 94, 64, q * TWO64 + fraction)
  {
    hide Window, Near, Quadrant, Word64, Pow;
    var w0, w1, w2 := Window(TWO_OVER_PI32, from), Window(TWO_OVER_PI32, from + 32), Window(TWO_OVER_PI32, from + 64);
    var p2: int := m * w2;
    var p1: int := m * w1 + p2 / B;
    var p0: int := m * w0 + p1 / B;
    ProductNear32(m, from, w0, w1, w2, p0, p1, p2);
    fraction := Word64(p0 % B, p1 % B, p2 % B);
    q := Quadrant(p0 % B);
  }

  /** The same for binary32: the quadrant modulo 4, the sign, the fraction normalized and how far it moved. */
  datatype Reduction32 = Reduction32(quad: nat, negative: bool, a: nat, shift: nat)

  ghost predicate Says32(r: Reduction32, z: int)
  {
    exists fraction: nat :: Says32With(r, z, fraction)
  }

  ghost predicate Says32With(r: Reduction32, z: int, fraction: nat)
  {
    && r.quad < 4 && fraction <= TWO64 / 2
    && (var s := r.quad * TWO64 + (if r.negative then 0 - fraction else fraction); z == s || z == s + 4 * TWO64)
    && (if fraction == 0 then r.a == 0 else TWO64 / 2 <= r.a < TWO64 && r.a == fraction * Pow(2, r.shift))
  }

  /**
   * reduce_large of the binary32 file, up to where its floats begin: x * T modulo 4, T the tabulated 2/pi, with an
   * error below 2^-63.
   */
  method Reduce32(bits: nat) returns (r: Reduction32)
    requires Normal32(bits)
    ensures Exponent32(bits) + 94 <= 32 * |TWO_OVER_PI32|
    ensures exists z :: Says32(r, z) && Near(TWO_OVER_PI32, Exponent32(bits) + 94, Significand32(bits), 94, 64, z)
  {
    hide Near, Says32, Exponent32, Significand32;
    TableReaches32(bits);
    var q, fraction := WindowProduct32(Exponent32(bits) - 2, Significand32(bits));
    r := ToNearest32(q, fraction);
    assert Says32(r, q * TWO64 + fraction);
  }

  lemma TableReaches32(bits: nat)
    requires Normal32(bits)
    ensures Exponent32(bits) + 94 <= 32 * |TWO_OVER_PI32| && Significand32(bits) <= 0x4000_0000
  {
  }

  method ToNearest32(q0: nat, fraction: nat) returns (r: Reduction32)
    requires q0 < 4 && fraction < TWO64
    ensures Says32(r, q0 * TWO64 + fraction)
  {
    hide Pow;
    var q := q0 + fraction / (TWO64 / 2);
    var negative := fraction >= TWO64 / 2;
    var a0 := if negative then TWO64 - fraction else fraction;
    var a, shift := a0, 0;
    PowZero(2);
    if a != 0 {
      while a < TWO64 / 2
        invariant 0 < a < TWO64 && a == a0 * Pow(2, shift)
        decreases TWO64 - a
      {
        PowSucc(2, shift);
        Doubled(a0, Pow(2, shift));
        a := a * 2;
        shift := shift + 1;
      }
    }
    r := Reduction32(q % 4, negative, a, shift);
    assert Says32With(r, q0 * TWO64 + fraction, a0);
  }
}
