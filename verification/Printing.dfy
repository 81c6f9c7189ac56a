/** Binary values to decimal digits: every digit of the exact expansion, and the rounding of them where asked. */
module Printing {
  import opened Powers
  import opened Limbs
  import opened BigInts
  import opened Rounding
  import opened Sizes
  import opened Digits
  import opened Numerals
  import opened Reading

  // ---- the exact digits ------------------------------------------------------------------------

  /** Chunks of nine digits, least significant first. */
  function ChunkVal(s: seq<u32>): nat
  {
    if s == [] then 0 else ChunkVal(s[..|s| - 1]) + s[|s| - 1] * Pow(10, 9 * (|s| - 1))
  }

  lemma ChunkPush(s: seq<u32>, x: u32)
    ensures ChunkVal(s + [x]) == ChunkVal(s) + x * Pow(10, 9 * |s|)
  {
    assert (s + [x])[..|s|] == s;
  }

  lemma ChunkStep(s: seq<u32>, i: nat)
    requires i < |s|
    ensures ChunkVal(s[..i + 1]) == ChunkVal(s[..i]) + s[i] * Pow(10, 9 * i)
  {
    assert s[..i + 1][..i] == s[..i];
  }

  /** The significand as an odd integer, or the whole value as one, and the power of two it is to be multiplied by. */
  method Significand(f: Format, bits: nat) returns (m: nat, e: int)
    requires f.Valid() && f.p <= f.bias && 0 < bits < f.Inf()
    ensures 0 < m < Pow(2, f.p) && 0 <= e + f.Quantum() && m * Pow(2, e + f.Quantum()) == f.Units(bits)
    ensures e <= f.bias - f.p + 1
  {
    hide Pow, Format.Units, Format.Hidden;
    var biased := bits / f.Hidden();
    m := bits % f.Hidden();
    FieldsOf(f, bits);
    if biased == 0 {
      e := 0 - f.Quantum() as int;
    } else {
      m := m + f.Hidden();
      e := biased - 1 - f.Quantum();
    }
    while m % 2 == 0 && e < 0
      invariant 0 < m < Pow(2, f.p) && 0 <= e + f.Quantum() && m * Pow(2, e + f.Quantum()) == f.Units(bits)
      invariant e <= f.bias - f.p + 1
      decreases -e
    {
      HalveSignificand(m, e + f.Quantum());
      m := m / 2;
      e := e + 1;
    }
  }

  lemma FieldsOf(f: Format, bits: nat)
    requires f.Valid() && 0 < bits < f.Inf()
    ensures var biased, frac := bits / f.Hidden(), bits % f.Hidden();
      biased < f.Top() && frac < f.Hidden() && 2 * f.Hidden() == Pow(2, f.p)
      && (biased == 0 ==> frac > 0 && f.Units(bits) == frac * Pow(2, 0))
      && (biased > 0 ==> f.Units(bits) == (frac + f.Hidden()) * Pow(2, biased - 1))
  {
    DivModIdentity(bits, f.Hidden());
    if bits / f.Hidden() >= f.Top() {
      MulMonotone(f.Top(), bits / f.Hidden(), f.Hidden());
    }
    assert Pow(2, f.p) == 2 * Pow(2, f.p - 1);
    assert Pow(2, 0) == 1;
  }

  lemma HalveSignificand(m: nat, k: nat)
    requires m % 2 == 0
    ensures (m / 2) * Pow(2, k + 1) == m * Pow(2, k)
  {
    assert Pow(2, k + 1) == 2 * Pow(2, k);
    assert m == 2 * (m / 2);
    MulAssoc(m / 2, 2, Pow(2, k));
  }

  /** The decimal digits as one integer: m * 2^e, or m * 5^-e for a value with a fraction. */
  function Expanded(m: nat, e: int): nat
  {
    if e >= 0 then m * Pow(2, e) else m * Pow(5, -e)
  }

  lemma ExpandedDenotes(f: Format, bits: nat, m: nat, e: int)
    requires f.Valid() && 0 <= e + f.Quantum() && m * Pow(2, e + f.Quantum()) == f.Units(bits)
    ensures Denotes(10, Expanded(m, e), false, if e < 0 then e else 0, f.Units(bits), Pow(2, f.Quantum()))
  {
    hide Pow, Format.Units;
    var Q := f.Quantum();
    PowZero(10);
    if e >= 0 {
      PowAdd(2, e, Q);
      MulAssoc(m, Pow(2, e), Pow(2, Q));
    } else {
      var k := -e;
      PowAdd(2, Q - k, k);
      PowProduct(2, 5, k);
      FiveForTwo(m, Pow(2, Q - k), Pow(2, k), Pow(5, k));
    }
  }

  lemma FiveForTwo(m: nat, a: nat, two: nat, five: nat)
    ensures (m * a) * (two * five) == (m * five) * (1 * (a * two))
  {
    MulAssoc(m, a, two * five);
    MulAssoc(a, two, five);
    MulAssoc(m, five, a * two);
    assert a * (two * five) == five * (a * two);
  }

  lemma ExpandedFits(f: Format, m: nat, e: int)
    requires Sized(f) && 0 < m < Pow(2, f.p) && 0 <= e + f.Quantum() && e <= f.bias - f.p + 1
    ensures 0 < Expanded(m, e) < Pow(10, f.maxDigits) && Pow(10, f.maxDigits) <= Pow(2, 32 * f.limbs)
    ensures m < Pow(2, 64)
  {
    hide Pow;
    var k := 32 * f.limbs;
    PowStrict(10, f.maxDigits - 1, f.maxDigits);
    PowMonotone(10, f.maxDigits, f.maxDigits + 1 - f.decimalBottom);
    PowMonotone(2, k - f.p - 2, k);
    PowMonotone(2, f.p, 64);
    if e >= 0 {
      MulStrict(m, Pow(2, f.p), Pow(2, e));
      PowAdd(2, f.p, e);
      PowMonotone(2, f.p + e, f.bias + 1);
      PowMonotone(10, f.decimalTop, f.maxDigits - 1);
      MulPositive(m, Pow(2, e));
    } else {
      PowMonotone(5, -e, f.Quantum());
      MulMonotone2(m, Pow(2, f.p), Pow(5, -e), Pow(5, f.Quantum()));
      MulPositive(m, Pow(5, -e));
    }
  }

  /** Cuts the integer into chunks of nine digits. */
  method MakeChunks(f: Format, I: Big, chunks: array<u32>) returns (nc: nat)
    requires I.Valid() && 0 < I.Value() < Pow(10, f.maxDigits) && f.maxDigits <= 9 * f.chunks
    requires chunks.Length == f.chunks && chunks != I.w
    modifies I, I.w, chunks
    ensures 0 < nc <= chunks.Length && ChunkVal(chunks[..nc]) == old(I.Value())
    ensures chunks[nc - 1] > 0 && forall i :: 0 <= i < nc ==> chunks[i] < 1000000000
  {
    hide Pow, ChunkVal, Big.Value;
    nc := 0;
    ghost var v := I.Value();
    I.ZeroIsEmpty();
    NoChunks(chunks[..], v);
    while I.n > 0 && nc < chunks.Length
      invariant nc <= chunks.Length && I.Valid() && (nc == 0 ==> I.n > 0)
      invariant ChunkVal(chunks[..nc]) + I.Value() * Pow(10, 9 * nc) == v
      invariant I.n == 0 ==> chunks[nc - 1] > 0
      invariant forall i :: 0 <= i < nc ==> chunks[i] < 1000000000
      decreases chunks.Length - nc
    {
      ghost var before, w := chunks[..nc], I.Value();
      I.ZeroIsEmpty();
      var rem := I.DivModSmall(1000000000);
      I.ZeroIsEmpty();
      chunks[nc] := rem;
      assert chunks[..nc + 1] == before + [rem];
      TakeNine(before, rem, w, I.Value());
      nc := nc + 1;
    }
    I.ZeroIsEmpty();
    if I.n > 0 {
      NotAllTaken(f, v, I.Value(), nc);
    }
  }

  lemma NoChunks(s: seq<u32>, v: nat)
    ensures ChunkVal(s[..0]) + v * Pow(10, 9 * 0) == v
  {
    PowZero(10);
  }

  lemma TakeNine(s: seq<u32>, rem: u32, v: nat, q: nat)
    requires v == q * 1000000000 + rem
    ensures ChunkVal(s + [rem]) + q * Pow(10, 9 * (|s| + 1)) == ChunkVal(s) + v * Pow(10, 9 * |s|)
  {
    hide Pow, ChunkVal;
    ChunkPush(s, rem);
    var p := Pow(10, 9 * |s|);
    NineZeros();
    PowAdd(10, 9, 9 * |s|);
    MulAssoc(q, 1000000000, p);
    Distribute(q * 1000000000, rem, p);
  }

  lemma NineZeros()
    ensures Pow(10, 9) == 1000000000 && Pow(10, 8) == 100000000
  {
    hide Pow;
    FirstPowers();
    PowAdd(10, 4, 4);
    PowAdd(10, 4, 5);
  }

  lemma NotAllTaken(f: Format, v: nat, q: nat, nc: nat)
    requires v < Pow(10, f.maxDigits) && f.maxDigits <= 9 * nc
    ensures q * Pow(10, 9 * nc) <= v ==> q == 0
  {
    PowMonotone(10, f.maxDigits, 9 * nc);
    if q > 0 { MulMonotone(1, q, Pow(10, 9 * nc)); }
  }

  /** The nine digits of a chunk, most significant first. */
  method NineDigits(x0: u32, nine: array<char>)
    requires x0 < 1000000000 && nine.Length == 9
    modifies nine
    ensures AllDigits(nine[..]) && DecVal(nine[..]) == x0
  {
    hide Pow, DecVal;
    var x := x0;
    var i := 9;
    NoDigitsYet(nine[9..], x);
    while i > 0
      invariant 0 <= i <= 9 && 0 <= x < 0x1_0000_0000
      invariant AllDigits(nine[i..]) && DecVal(nine[i..]) + x * Pow(10, 9 - i) == x0
    {
      i := i - 1;
      ghost var tail := nine[i + 1..];
      var c := DigitChar(x % 10);
      nine[i] := c;
      assert nine[i..] == [c] + tail;
      PrependDigit(c, tail, x);
      x := x / 10;
    }
    assert nine[0..] == nine[..];
    NineZeros();
    AllTaken(DecVal(nine[..]), x, Pow(10, 9), x0);
  }

  lemma NoDigitsYet(s: seq<char>, x: nat)
    requires s == []
    ensures DecVal(s) + x * Pow(10, 0) == x
  {
    PowZero(10);
  }

  lemma AllTaken(d: nat, x: nat, p: nat, x0: nat)
    requires d + x * p == x0 < p
    ensures x == 0 && d == x0
  {
    if x > 0 { MulMonotone(1, x, p); }
  }

  lemma PrependDigit(c: char, tail: seq<char>, x: nat)
    requires AllDigits(tail) && c == DigitChar(x % 10)
    ensures AllDigits([c] + tail)
    ensures DecVal([c] + tail) + (x / 10) * Pow(10, |tail| + 1) == DecVal(tail) + x * Pow(10, |tail|)
  {
    hide Pow, DecVal;
    DecSingle(c);
    DecAppend([c], tail);
    PowSucc(10, |tail|);
    DigitOut(x / 10, x % 10, x, Pow(10, |tail|));
  }

  lemma DigitOut(q: nat, r: nat, x: nat, p: nat)
    requires x == 10 * q + r
    ensures r * p + q * (10 * p) == x * p
  {
    MulAssoc(q, 10, p);
    Distribute(10 * q, r, p);
  }

  /** Room for all the digits of x after n of them. */
  ghost predicate RoomFor(x: nat, n: nat, length: nat)
  {
    forall k: nat :: x >= Pow(10, k) ==> n + k + 1 <= length
  }

  /** The digits from `start` on, after the n0 there are. */
  method CopyDigits(nine: array<char>, start: nat, out: array<char>, n0: nat) returns (n: nat)
    requires nine.Length == 9 && start <= 9 && n0 + 9 - start <= out.Length && nine != out
    modifies out
    ensures n == n0 + 9 - start && out[..n] == old(out[..n0]) + nine[start..]
  {
    ghost var digits, head := nine[start..], out[..n0];
    n := n0;
    for i := start to 9
      invariant n == n0 + i - start <= out.Length && nine[start..] == digits
      invariant out[..n] == head + digits[..i - start]
    {
      assert nine[i] == digits[i - start];
      out[n] := nine[i];
      n := n + 1;
      assert out[..n] == head + digits[..i - start] + [digits[i - start]];
    }
    assert digits[..9 - start] == digits;
  }

  /** A chunk's digits at the end of those written so far; the first chunk without its leading zeros. */
  method PutChunk(x: u32, first: bool, out: array<char>, n0: nat) returns (n: nat)
    requires x < 1000000000 && (first ==> x > 0) && n0 <= out.Length
    requires if first then RoomFor(x, n0, out.Length) else n0 + 9 <= out.Length
    requires AllDigits(out[..n0])
    modifies out
    ensures n0 < n <= out.Length && out[..n0] == old(out[..n0]) && AllDigits(out[..n])
    ensures DecVal(out[..n]) == old(DecVal(out[..n0])) * Pow(10, n - n0) + x
    ensures if first then out[n0] != '0' else n == n0 + 9
  {
    hide Pow, DecVal, RoomFor;
    var nine := new char[9];
    NineDigits(x, nine);
    var start := 0;
    if first {
      start := SkipLeading(nine, x);
    }
    assert start == 0 ==> nine[start..] == nine[..];
    if first {
      LeadingDigit(nine[start..], x, n0, out.Length);
    }
    ghost var digits, head := nine[start..], out[..n0];
    n := CopyDigits(nine, start, out, n0);
    DecAppend(head, digits);
    assert out[n0] == digits[0];
  }

  /** The first of nine digits that is not zero, or the last of them. */
  method SkipLeading(nine: array<char>, x: nat) returns (start: nat)
    requires nine.Length == 9 && AllDigits(nine[..]) && DecVal(nine[..]) == x
    ensures start <= 8 && AllDigits(nine[start..]) && DecVal(nine[start..]) == x
    ensures nine[start] != '0' || start == 8
  {
    hide DecVal;
    start := 0;
    assert nine[0..] == nine[..];
    while start < 8 && nine[start] == '0'
      invariant 0 <= start <= 8 && AllDigits(nine[start..]) && DecVal(nine[start..]) == x
    {
      DecZeroFirst(nine[start..]);
      assert nine[start..][1..] == nine[start + 1..];
      start := start + 1;
    }
  }

  lemma LeadingDigit(s: seq<char>, x: nat, n: nat, length: nat)
    requires 0 < |s| <= 9 && AllDigits(s) && DecVal(s) == x > 0 && RoomFor(x, n, length)
    requires s[0] != '0' || |s| == 1
    ensures s[0] != '0' && n + |s| <= length
  {
    if |s| == 1 {
      assert s[..0] == [];
    }
    DecLead(s);
  }

  /** The decimal expansion of a pattern's value: its n digits, and x10, the value being from 10^x10 to 10^(x10 + 1). */
  method ExactDigits(f: Format, bits: nat, out: array<char>) returns (n: nat, x10: int)
    requires Sized(f) && 0 < bits < f.Inf() && out.Length >= f.maxDigits
    modifies out
    ensures 0 < n <= f.maxDigits && AllDigits(out[..n]) && out[0] != '0' && x10 - n + 1 <= 0
    ensures Denotes(10, DecVal(out[..n]), false, x10 - n + 1, f.Units(bits), Pow(2, f.Quantum()))
  {
    hide Pow, DecVal, ChunkVal, Denotes, Expanded, Big.Value, Big.Capacity, Format.Units;
    var m, e := Significand(f, bits);
    ExpandedFits(f, m, e);
    ExpandedDenotes(f, bits, m, e);
    var I := new Big(f.limbs);
    I.CapacityBits();
    I.SetLong(m);
    ExpandedForms(m, e);
    var e10 := 0;
    if e >= 0 {
      I.Shl(e);
    } else {
      I.MulPow5(-e);
      e10 := e;
    }
    var chunks := new u32[f.chunks];
    var nc := MakeChunks(f, I, chunks);
    n := PutChunks(f, chunks, nc, out, Expanded(m, e));
    x10 := n - 1 + e10;
  }

  lemma ExpandedForms(m: nat, e: int)
    ensures e >= 0 ==> Expanded(m, e) == m * Pow(2, e)
    ensures e < 0 ==> Expanded(m, e) == m * Pow(5, -e)
  {
  }

  /** The digits of all the chunks, most significant chunk first. */
  method PutChunks(f: Format, chunks: array<u32>, nc: nat, out: array<char>, ghost v: nat) returns (n: nat)
    requires 0 < nc <= chunks.Length && ChunkVal(chunks[..nc]) == v < Pow(10, f.maxDigits)
    requires chunks[nc - 1] > 0 && forall i :: 0 <= i < nc ==> chunks[i] < 1000000000
    requires out.Length >= f.maxDigits
    modifies out
    ensures 0 < n <= f.maxDigits && AllDigits(out[..n]) && out[0] != '0' && DecVal(out[..n]) == v
  {
    hide Pow, DecVal, ChunkVal, RoomFor;
    n := 0;
    var c := nc;
    NothingPut(out[..0], v, Pow(10, 9 * nc));
    while c > 0
      invariant 0 <= c <= nc && n <= out.Length && (n == 0 <==> c == nc)
      invariant chunks[..] == old(chunks[..])
      invariant AllDigits(out[..n]) && (n > 0 ==> out[0] != '0')
      invariant DecVal(out[..n]) * Pow(10, 9 * c) + ChunkVal(chunks[..c]) == v
    {
      c := c - 1;
      ChunkStep(chunks[..], c);
      assert chunks[..][..c + 1] == chunks[..c + 1] && chunks[..][..c] == chunks[..c];
      ghost var head := out[..n];
      RoomLeft(f, head, chunks[c], c, v, out.Length, ChunkVal(chunks[..c]));
      var n' := PutChunk(chunks[c], c == nc - 1, out, n);
      NextChunk(head, chunks[c], c, n');
      assert n > 0 ==> out[..n][0] == head[0];
      n := n';
    }
    AllPut(f, out[..n], chunks[..0]);
  }

  lemma NothingPut(s: seq<char>, v: nat, p: nat)
    requires s == []
    ensures DecVal(s) * p + v == v
  {
  }

  lemma RoomLeft(f: Format, s: seq<char>, x: nat, c: nat, v: nat, length: nat, low: nat)
    requires AllDigits(s) && (s != [] ==> s[0] != '0') && f.maxDigits <= length
    requires DecVal(s) * Pow(10, 9 * (c + 1)) + (low + x * Pow(10, 9 * c)) == v < Pow(10, f.maxDigits)
    ensures if s == [] then RoomFor(x, 0, length) else |s| + 9 <= length
  {
    hide Pow, DecVal;
    if s == [] {
      forall k: nat | x >= Pow(10, k) ensures k + 1 <= length {
        MulMonotone2(1, Pow(10, 9 * c), Pow(10, k), x);
        if k >= f.maxDigits { PowMonotone(10, f.maxDigits, k); }
      }
    } else {
      DecLead(s);
      var k := |s| - 1 + 9 * (c + 1);
      PowAdd(10, |s| - 1, 9 * (c + 1));
      MulMonotone(Pow(10, |s| - 1), DecVal(s), Pow(10, 9 * (c + 1)));
      if k >= f.maxDigits { PowMonotone(10, f.maxDigits, k); }
    }
  }

  lemma NextChunk(s: seq<char>, x: nat, c: nat, n: nat)
    requires AllDigits(s) && n >= |s| && (s == [] || n == |s| + 9)
    ensures (DecVal(s) * Pow(10, n - |s|) + x) * Pow(10, 9 * c) == DecVal(s) * Pow(10, 9 * (c + 1)) + x * Pow(10, 9 * c)
  {
    var d, p := DecVal(s), Pow(10, 9 * c);
    Distribute(d * Pow(10, n - |s|), x, p);
    if s == [] {
      assert d == 0;
    } else {
      PowAdd(10, 9, 9 * c);
      MulAssoc(d, Pow(10, 9), p);
    }
  }

  lemma AllPut(f: Format, s: seq<char>, none: seq<u32>)
    requires AllDigits(s) && s != [] && s[0] != '0' && none == []
    ensures DecVal(s) * Pow(10, 9 * 0) + ChunkVal(none) == DecVal(s)
    ensures DecVal(s) < Pow(10, f.maxDigits) ==> |s| <= f.maxDigits
  {
    PowZero(10);
    DecLead(s);
    if |s| > f.maxDigits { PowMonotone(10, f.maxDigits, |s| - 1); }
  }
}
