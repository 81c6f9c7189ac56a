/** The texts the formatter lays out, parsed: what the grammar makes of digits, a point and an exponent in place. */
module TextOf {
  import opened Powers
  import opened Digits
  import opened RealText

  /** A run of digits in a mantissa. */
  lemma DigitFirst(s: string, p: nat, point: bool, hex: bool)
    requires p < |s| && IsDigitOf(hex, s[p])
    ensures var m := MantissaAt(s, p + 1, point, hex);
      MantissaAt(s, p, point, hex) == Mantissa([s[p]] + m.digits, m.fraction + (if point then 1 else 0), m.end)
  {
    NotAPoint(hex, s[p]);
  }

  lemma PutFirst(s: string, p: nat, k: nat, d: seq<char>)
    requires 0 < k && p + k <= |s|
    ensures [s[p]] + (s[p + 1..p + k] + d) == s[p..p + k] + d
  {
    assert [s[p]] + s[p + 1..p + k] == s[p..p + k];
    assert [s[p]] + (s[p + 1..p + k] + d) == ([s[p]] + s[p + 1..p + k]) + d;
  }

  lemma {:induction false} RunOfDigits(s: string, p: nat, point: bool, hex: bool, k: nat)
    requires p + k <= |s| && forall i :: p <= i < p + k ==> IsDigitOf(hex, s[i])
    ensures var m := MantissaAt(s, p + k, point, hex);
      MantissaAt(s, p, point, hex) == Mantissa(s[p..p + k] + m.digits, m.fraction + (if point then k else 0), m.end)
    decreases k
  {
    hide MantissaAt, IsDigitOf;
    var m := MantissaAt(s, p + k, point, hex);
    if k == 0 {
      assert s[p..p] + m.digits == m.digits;
    } else {
      DigitFirst(s, p, point, hex);
      RunOfDigits(s, p + 1, point, hex, k - 1);
      PutFirst(s, p, k, m.digits);
    }
  }

  lemma NotAPoint(hex: bool, c: char)
    requires IsDigitOf(hex, c)
    ensures c != '.'
  {
  }

  /** The places of a number's parts in a text: digits from p to a, a point there if any, digits up to c, a letter and
      a sign, and the exponent's digits up to q. */
  datatype Layout = Layout(p: nat, a: nat, point: bool, c: nat, q: nat)
  {
    function B(): nat
    {
      if point then a + 1 else a
    }

    ghost predicate In(s: string, hex: bool)
    {
      && p < a <= B() <= c && c + 2 < q <= |s| && (!point ==> c == a)
      && (forall i :: p <= i < a ==> IsDigitOf(hex, s[i])) && (forall i :: B() <= i < c ==> IsDigitOf(hex, s[i]))
      && (point ==> s[a] == '.') && (s[c + 1] == '-' || s[c + 1] == '+')
      && (if hex then s[c] == 'p' || s[c] == 'P' else s[c] == 'e' || s[c] == 'E')
      && AllDigits(s[c + 2..q]) && !IsDigit(At(s, q))
    }

    /** Both runs of digits. */
    function Digits(s: string): seq<char>
      requires p <= a <= B() <= c <= |s|
    {
      s[p..a] + s[B()..c]
    }

    ghost function Written(s: string): int
      requires c + 2 <= q <= |s| && AllDigits(s[c + 2..q])
    {
      var v: int := DecVal(s[c + 2..q]);
      if s[c + 1] == '-' then -v else v
    }
  }

  lemma MantissaLaidOut(l: Layout, s: string, hex: bool)
    requires l.In(s, hex)
    ensures MantissaAt(s, l.p, false, hex) == Mantissa(l.Digits(s), l.c - l.B(), l.c)
  {
    hide IsDigitOf, IsDigit, AllDigits, AllDigitsOf, MantissaAt;
    RunOfDigits(s, l.p, false, hex, l.a - l.p);
    EndsMantissa(s, l.c, hex);
    if l.point {
      AfterPoint(s, l.a, l.c, hex);
    } else {
      assert s[l.p..l.a] + [] == s[l.p..l.a] == l.Digits(s);
    }
  }

  /** The point and the digits behind it. */
  lemma AfterPoint(s: string, a: nat, c: nat, hex: bool)
    requires a < c < |s| && s[a] == '.' && MantissaAt(s, c, true, hex) == Mantissa([], 0, c)
    requires forall i :: a + 1 <= i < c ==> IsDigitOf(hex, s[i])
    ensures MantissaAt(s, a, false, hex) == Mantissa(s[a + 1..c], c - a - 1, c)
  {
    hide IsDigitOf, AllDigitsOf;
    RunOfDigits(s, a + 1, true, hex, c - a - 1);
    assert s[a + 1..c] + [] == s[a + 1..c];
  }

  /** The exponent's letter ends a mantissa. */
  lemma EndsMantissa(s: string, p: nat, hex: bool)
    requires p < |s| && (if hex then s[p] == 'p' || s[p] == 'P' else s[p] == 'e' || s[p] == 'E')
    ensures forall point :: MantissaAt(s, p, point, hex) == Mantissa([], 0, p)
  {
  }

  lemma {:induction false} DigitsEndAt(s: string, p: nat, q: nat)
    requires p <= q <= |s| && AllDigits(s[p..q]) && !IsDigit(At(s, q))
    ensures DigitsEnd(s, p) == q
    decreases q - p
  {
    if p == q {
    } else {
      assert s[p..q][0] == s[p];
      assert s[p + 1..q] == s[p..q][1..];
      DigitsEndAt(s, p + 1, q);
    }
  }

  lemma ExponentLaidOut(l: Layout, s: string, hex: bool)
    requires l.In(s, hex)
    ensures ExponentAt(s, l.c, if hex then 'p' else 'e', if hex then 'P' else 'E') == Exponent(l.Written(s), l.q)
  {
    assert s[l.c + 2..l.q][0] == s[l.c + 2];
    DigitsEndAt(s, l.c + 2, l.q);
  }

  lemma NoWord(s: string, p: nat)
    requires p < |s| && IsDigit(s[p])
    ensures !MatchesWord(s, p, "inf") && !MatchesWord(s, p, "nan")
  {
    assert "inf"[0] == 'i' && "nan"[0] == 'n';
    assert Lower(At(s, p + 0)) == s[p];
  }

  lemma DecimalLaidOut(l: Layout, s: string)
    requires l.In(s, false)
    ensures AllDigits(l.Digits(s))
    ensures Unsigned(s, l.p) == Parsed(Decimal(l.Digits(s), l.Written(s) - (l.c - l.B())), l.q, l.Written(s))
  {
    hide MantissaAt, ExponentAt, MatchesWord, DecVal;
    NoWord(s, l.p);
    NotHexStart(l, s);
    MantissaLaidOut(l, s, false);
    ExponentLaidOut(l, s, false);
  }

  lemma NotHexStart(l: Layout, s: string)
    requires l.In(s, false)
    ensures !StartsHex(s, l.p)
  {
  }

  lemma HexLaidOut(l: Layout, s: string, p: nat)
    requires l.In(s, true) && l.p == p + 2 && s[p] == '0' && (s[p + 1] == 'x' || s[p + 1] == 'X')
    ensures AllDigitsOf(true, l.Digits(s))
    ensures Unsigned(s, p) == Parsed(Hexadecimal(l.Digits(s), l.Written(s) - 4 * (l.c - l.B())), l.q, l.Written(s))
  {
    hide MantissaAt, ExponentAt, MatchesWord, DecVal;
    NoWord(s, p);
    MantissaLaidOut(l, s, true);
    ExponentLaidOut(l, s, true);
  }

  lemma {:induction false} SkipsTo(s: string, p: nat, q: nat)
    requires p <= q <= |s| && (forall i :: p <= i < q ==> IsSpace(s[i])) && !IsSpace(At(s, q))
    ensures SkipSpaces(s, p) == q
    decreases q - p
  {
    if p < q { SkipsTo(s, p + 1, q); }
  }

  /** Spaces, a sign or none, and a digit. */
  lemma StartsAt(s: string, spaces: nat, signed: bool)
    requires spaces < |s| && forall i :: 0 <= i < spaces ==> IsSpace(s[i])
    requires if signed then s[spaces] == '-' || s[spaces] == '+' else IsDigit(s[spaces])
    ensures NumberStart(s) == (if signed then spaces + 1 else spaces)
    ensures Negative(s) <==> s[spaces] == '-'
  {
    SkipsTo(s, 0, spaces);
  }
}
