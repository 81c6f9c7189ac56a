/** Decimal digit strings and the numbers they spell, most significant digit first. */
module Digits {
  import opened Powers

  predicate IsDigit(c: char)
  {
    '0' <= c <= '9'
  }

  function Digit(c: char): (r: nat)
    requires IsDigit(c)
    ensures r < 10
  {
    c as int - '0' as int
  }

  function DigitChar(x: nat): (c: char)
    requires x < 10
    ensures IsDigit(c) && Digit(c) == x
  {
    '0' + x as char
  }

  predicate AllDigits(s: seq<char>)
  {
    forall i :: 0 <= i < |s| ==> IsDigit(s[i])
  }

  function DecVal(s: seq<char>): nat
    requires AllDigits(s)
  {
    if s == [] then 0 else 10 * DecVal(s[..|s| - 1]) + Digit(s[|s| - 1])
  }

  lemma DecNone()
    ensures DecVal([]) == 0
  {
  }

  lemma DecPush(s: seq<char>, c: char)
    requires AllDigits(s) && IsDigit(c)
    ensures AllDigits(s + [c]) && DecVal(s + [c]) == 10 * DecVal(s) + Digit(c)
  {
    assert (s + [c])[..|s|] == s;
  }

  lemma DecSingle(c: char)
    requires IsDigit(c)
    ensures AllDigits([c]) && DecVal([c]) == Digit(c)
  {
    assert [c][..0] == [];
  }

  lemma DecStep(s: seq<char>, i: nat)
    requires AllDigits(s) && i < |s|
    ensures DecVal(s[..i + 1]) == 10 * DecVal(s[..i]) + Digit(s[i])
  {
    assert s[..i + 1][..i] == s[..i];
  }

  lemma {:induction false} DecAppend(s: seq<char>, t: seq<char>)
    requires AllDigits(s) && AllDigits(t)
    ensures AllDigits(s + t) && DecVal(s + t) == DecVal(s) * Pow(10, |t|) + DecVal(t)
    decreases |t|
  {
    hide DecVal, Pow;
    if t == [] {
      assert s + t == s;
      PowZero(10);
      DecNone();
    } else {
      var k := |t| - 1;
      DecAppend(s, t[..k]);
      assert s + t == (s + t[..k]) + [t[k]] && t == t[..k] + [t[k]];
      DecPush(s + t[..k], t[k]);
      DecPush(t[..k], t[k]);
      PowSucc(10, k);
      Commute(10, Pow(10, k));
      MulAssoc(DecVal(s), Pow(10, k), 10);
    }
  }

  lemma {:induction false} DecBound(s: seq<char>)
    requires AllDigits(s)
    ensures DecVal(s) < Pow(10, |s|)
  {
    if s == [] {
    } else {
      DecBound(s[..|s| - 1]);
    }
  }

  /** A first digit that is not zero bounds the number from below. */
  lemma DecLead(s: seq<char>)
    requires AllDigits(s) && s != [] && s[0] != '0'
    ensures DecVal(s) >= Pow(10, |s| - 1)
  {
    assert s == s[..1] + s[1..];
    DecAppend(s[..1], s[1..]);
    assert s[..1][..0] == [];
    assert DecVal(s[..1]) == Digit(s[0]) >= 1;
    MulMonotone(1, DecVal(s[..1]), Pow(10, |s| - 1));
  }

  /** A leading zero adds nothing. */
  lemma DecZeroFirst(s: seq<char>)
    requires AllDigits(s) && s != [] && s[0] == '0'
    ensures DecVal(s[1..]) == DecVal(s)
  {
    assert s == s[..1] + s[1..];
    DecAppend(s[..1], s[1..]);
    assert s[..1][..0] == [];
    assert DecVal(s[..1]) == 0;
  }

  /** A number is zero exactly when all its digits are. */
  lemma {:induction false} DecZero(s: seq<char>)
    requires AllDigits(s)
    ensures DecVal(s) == 0 <==> forall i :: 0 <= i < |s| ==> s[i] == '0'
  {
    if s == [] {
    } else {
      DecZero(s[..|s| - 1]);
      if DecVal(s) == 0 {
        forall i | 0 <= i < |s| ensures s[i] == '0' {
          if i < |s| - 1 { assert s[..|s| - 1][i] == '0'; }
        }
      }
    }
  }

  lemma DecSplit(s: seq<char>, k: nat)
    requires AllDigits(s) && k <= |s|
    ensures DecVal(s) == DecVal(s[..k]) * Pow(10, |s| - k) + DecVal(s[k..])
    ensures DecVal(s[k..]) < Pow(10, |s| - k)
  {
    assert s == s[..k] + s[k..];
    DecAppend(s[..k], s[k..]);
    DecBound(s[k..]);
  }
}
