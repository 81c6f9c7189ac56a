/** Rounding decimal digits to nearest, ties to even, in place. */
module DigitRounding {
  import opened Powers
  import opened Digits
  import opened Rounding

  /** The integer nearest a/b, the even one of two. */
  function RoundEven(a: nat, b: nat): nat
    requires b > 0
  {
    var q, r := a / b, a % b;
    if 2 * r > b then q + 1 else if 2 * r < b then q else q + q % 2
  }

  /** How far an integer is from a/b, in parts of b. */
  function Off(a: nat, b: nat, c: nat): nat
  {
    if a >= c * b then a - c * b else c * b - a
  }

  lemma RoundEvenIsNearest(a: nat, b: nat)
    requires b > 0
    ensures 2 * Off(a, b, RoundEven(a, b)) <= b
    ensures 2 * Off(a, b, RoundEven(a, b)) == b ==> RoundEven(a, b) % 2 == 0
  {
    DivModIdentity(a, b);
    Distribute(a / b, 1, b);
  }

  /** Only one integer is nearest. */
  lemma RoundEvenUnique(a: nat, b: nat, c: nat)
    requires b > 0 && 2 * Off(a, b, c) <= b && (2 * Off(a, b, c) == b ==> c % 2 == 0)
    ensures c == RoundEven(a, b)
  {
    DivModIdentity(a, b);
    var q, r := a / b, a % b;
    Distribute(q, 1, b);
    if c > q + 1 {
      MulMonotone(q + 2, c, b);
      Distribute(q, 2, b);
    } else if c < q {
      MulMonotone(c, q - 1, b);
      Distribute(q - 1, 1, b);
    }
  }

  lemma OffScaled(a: nat, b: nat, c: nat, k: nat)
    ensures Off(a * k, b * k, c) == Off(a, b, c) * k
  {
    MulAssoc(c, b, k);
    if a >= c * b {
      MulMonotone(c * b, a, k);
      assert (a - c * b) * k == a * k - (c * b) * k;
    } else {
      MulMonotone(a, c * b, k);
      assert (c * b - a) * k == (c * b) * k - a * k;
    }
  }

  lemma RoundEvenScaled(a: nat, b: nat, k: nat)
    requires b > 0 && k > 0
    ensures b * k > 0 && RoundEven(a * k, b * k) == RoundEven(a, b)
  {
    var c := RoundEven(a, b);
    MulPositive(b, k);
    RoundEvenIsNearest(a, b);
    OffScaled(a, b, c, k);
    MulAssoc(2, Off(a, b, c), k);
    CompareScaled(2 * Off(a, b, c), b, k);
    RoundEvenUnique(a * k, b * k, c);
  }

  lemma RoundEvenSameRatio(a1: nat, b1: nat, a2: nat, b2: nat)
    requires b1 > 0 && b2 > 0 && a1 * b2 == a2 * b1
    ensures RoundEven(a1, b1) == RoundEven(a2, b2)
  {
    hide RoundEven;
    RoundEvenScaled(a1, b1, b2);
    RoundEvenScaled(a2, b2, b1);
    assert b1 * b2 == b2 * b1;
  }

  lemma RoundEvenWhole(c: nat, b: nat)
    requires b > 0
    ensures RoundEven(c * b, b) == c
  {
    DivModUnique(c * b, c, b, 0);
  }

  // ---- the decision ------------------------------------------------------------------------------

  lemma {:induction false} Zeros(s: seq<char>)
    requires forall i :: 0 <= i < |s| ==> s[i] == '0'
    ensures AllDigits(s) && DecVal(s) == 0
  {
    if s == [] {
    } else {
      Zeros(s[..|s| - 1]);
    }
  }

  lemma {:induction false} Nines(s: seq<char>)
    requires forall i :: 0 <= i < |s| ==> s[i] == '9'
    ensures AllDigits(s) && DecVal(s) + 1 == Pow(10, |s|)
  {
    if s == [] {
    } else {
      Nines(s[..|s| - 1]);
    }
  }

  /** What the digit after those kept and the ones after it say. */
  lemma Decision(d: seq<char>, keep: nat)
    requires AllDigits(d) && 0 < keep < |d|
    ensures var up := d[keep] > '5' || (d[keep] == '5' && (DecVal(d[keep + 1..]) > 0 || Digit(d[keep - 1]) % 2 == 1));
      RoundEven(DecVal(d), Pow(10, |d| - keep)) == DecVal(d[..keep]) + if up then 1 else 0
  {
    hide Pow, DecVal;
    var k := |d| - keep;
    var t := d[keep + 1..];
    DecSplit(d, keep);
    assert d[keep..] == [d[keep]] + t;
    DecSingle(d[keep]);
    DecAppend([d[keep]], t);
    DecBound(t);
    PowSucc(10, k - 1);
    DecStep(d, keep - 1);
    AgainstHalf(DecVal(d), DecVal(d[..keep]), Digit(d[keep]), DecVal(t), Pow(10, k - 1));
  }

  lemma AgainstHalf(a: nat, q: nat, x: nat, tail: nat, p: nat)
    requires p > 0 && x < 10 && tail < p && a == q * (10 * p) + (x * p + tail)
    ensures RoundEven(a, 10 * p) == q + if x > 5 || (x == 5 && (tail > 0 || q % 2 == 1)) then 1 else 0
  {
    MulMonotone(x, 9, p);
    DivModUnique(a, q, 10 * p, x * p + tail);
    if x > 5 {
      MulMonotone(6, x, p);
    } else if x < 5 {
      MulMonotone(x, 4, p);
    }
  }

  // ---- in place ------------------------------------------------------------------------------------

  /** One more in the last place; carry when all the digits were nines, which leaves 1000... */
  method Increment(out: array<char>, keep: nat) returns (carry: bool)
    requires 0 < keep <= out.Length && AllDigits(out[..keep])
    modifies out
    ensures AllDigits(out[..keep])
    ensures !carry ==> DecVal(out[..keep]) == old(DecVal(out[..keep])) + 1
    ensures carry ==> old(DecVal(out[..keep])) + 1 == Pow(10, keep) && DecVal(out[..keep]) == Pow(10, keep - 1)
  {
    hide Pow, DecVal;
    ghost var o := out[..keep];
    var i := keep - 1;
    while i >= 0 && out[i] == '9'
      invariant -1 <= i < keep && out[..i + 1] == o[..i + 1]
      invariant forall j :: i < j < keep ==> out[j] == '0' && o[j] == '9'
    {
      out[i] := '0';
      i := i - 1;
    }
    if i >= 0 {
      assert out[i] == o[i];
      out[i] := DigitChar(Digit(out[i]) + 1);
      CarryStops(o, out[..keep], i);
      carry := false;
    } else {
      out[0] := '1';
      CarryRunsOut(o, out[..keep]);
      carry := true;
    }
  }

  lemma CarryStops(o: seq<char>, s: seq<char>, i: nat)
    requires AllDigits(o) && |s| == |o| && i < |o| && s[..i] == o[..i]
    requires Digit(o[i]) < 9 && s[i] == DigitChar(Digit(o[i]) + 1)
    requires forall j :: i < j < |o| ==> s[j] == '0' && o[j] == '9'
    ensures AllDigits(s) && DecVal(s) == DecVal(o) + 1
  {
    hide Pow, DecVal;
    forall j | 0 <= j < |s| ensures IsDigit(s[j]) {
      if j < i { assert s[..i][j] == o[..i][j]; }
    }
    DecSplit(o, i + 1);
    DecSplit(s, i + 1);
    Nines(o[i + 1..]);
    Zeros(s[i + 1..]);
    DecStep(o, i);
    DecStep(s, i);
    Distribute(DecVal(o[..i + 1]), 1, Pow(10, |o| - i - 1));
  }

  lemma CarryRunsOut(o: seq<char>, s: seq<char>)
    requires |s| == |o| > 0 && s[0] == '1'
    requires (forall j :: 0 <= j < |o| ==> o[j] == '9') && (forall j :: 1 <= j < |o| ==> s[j] == '0')
    ensures AllDigits(s) && DecVal(o) + 1 == Pow(10, |o|) && DecVal(s) == Pow(10, |o| - 1)
  {
    hide Pow, DecVal;
    Nines(o);
    Zeros(s[1..]);
    DecSplit(s, 1);
    assert s[..1] == ['1'];
    DecSingle('1');
  }

  /** Leaves in `out` as many digits as asked for: those of d with zeros after them, or d rounded where they end. */
  method RoundTo(d: array<char>, n: nat, keep: nat, out: array<char>, x0: int) returns (x10: int)
    requires d != out && n <= d.Length && 0 < keep <= out.Length && AllDigits(d[..n])
    modifies out
    ensures AllDigits(out[..keep])
    ensures keep >= n ==> x10 == x0 && DecVal(out[..keep]) == DecVal(d[..n]) * Pow(10, keep - n)
    ensures keep < n ==> var R := RoundEven(DecVal(d[..n]), Pow(10, n - keep));
      if x10 == x0 then DecVal(out[..keep]) == R
      else x10 == x0 + 1 && R == Pow(10, keep) && DecVal(out[..keep]) == Pow(10, keep - 1)
  {
    hide Pow, DecVal, RoundEven;
    x10 := x0;
    ghost var s := d[..n];
    for i := 0 to keep
      invariant d[..n] == s
      invariant forall j :: 0 <= j < i ==> out[j] == if j < n then s[j] else '0'
    {
      out[i] := if i < n then d[i] else '0';
    }
    if keep >= n {
      Padded(s, out[..keep]);
      return;
    }
    assert out[..keep] == s[..keep];
    DecBound(s[..keep]);
    var up := false;
    if d[keep] > '5' {
      up := true;
    } else if d[keep] == '5' {
      var rest := NonzeroRest(d, keep + 1, n);
      up := rest || Digit(out[keep - 1]) % 2 == 1;
    }
    Decision(s, keep);
    if up {
      var carry := Increment(out, keep);
      if carry {
        x10 := x10 + 1;
        PowStrict(10, keep - 1, keep);
      }
    }
  }

  /** Whether any of the digits from `from` to n is not a zero. */
  method NonzeroRest(d: array<char>, from: nat, n: nat) returns (rest: bool)
    requires from <= n <= d.Length && AllDigits(d[..n])
    ensures AllDigits(d[from..n]) && (rest <==> DecVal(d[from..n]) > 0)
    ensures d[..n][from..] == d[from..n]
  {
    hide DecVal;
    rest := false;
    for i := from to n
      invariant rest <==> exists j :: from <= j < i && d[j] != '0'
    {
      if d[i] != '0' {
        rest := true;
      }
    }
    ghost var t := d[from..n];
    assert d[..n][from..] == t;
    assert forall j :: 0 <= j < |t| ==> t[j] == d[..n][from + j] == d[from + j];
    DecZero(t);
    if j :| from <= j < n && d[j] != '0' {
      assert t[j - from] != '0';
    }
  }

  lemma Padded(s: seq<char>, r: seq<char>)
    requires AllDigits(s) && |s| <= |r|
    requires forall j :: 0 <= j < |r| ==> r[j] == if j < |s| then s[j] else '0'
    ensures AllDigits(r) && DecVal(r) == DecVal(s) * Pow(10, |r| - |s|)
  {
    assert r == s + r[|s|..];
    Zeros(r[|s|..]);
    DecAppend(s, r[|s|..]);
  }
}
