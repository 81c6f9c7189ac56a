/** The text of a floating number: a grammar that says what it denotes, apart from the scanner that reads it. */
module RealText {
  import opened Powers
  import opened Digits

  function At(s: string, i: nat): char
  {
    if i < |s| then s[i] else '\0'
  }

  predicate IsSpace(c: char)
  {
    c == ' ' || '\t' <= c <= '\r'
  }

  function HexDigit(c: char): (r: int)
    ensures -1 <= r < 16
  {
    if '0' <= c <= '9' then c as int - '0' as int
    else if 'a' <= c <= 'f' then c as int - 'a' as int + 10
    else if 'A' <= c <= 'F' then c as int - 'A' as int + 10
    else -1
  }

  /** A digit of base ten, or of base sixteen. */
  predicate IsDigitOf(hex: bool, c: char)
  {
    if hex then HexDigit(c) >= 0 else IsDigit(c)
  }

  predicate AllDigitsOf(hex: bool, s: seq<char>)
  {
    forall i :: 0 <= i < |s| ==> IsDigitOf(hex, s[i])
  }

  function HexVal(s: seq<char>): nat
    requires AllDigitsOf(true, s)
  {
    if s == [] then 0 else 16 * HexVal(s[..|s| - 1]) + HexDigit(s[|s| - 1])
  }

  /** The digits of a mantissa, how many of them follow its point, and where it ends. */
  datatype Mantissa = Mantissa(digits: seq<char>, fraction: nat, end: nat)

  /** The longest run of digits with at most one point among them. */
  function MantissaAt(s: string, p: nat, point: bool, hex: bool): (m: Mantissa)
    requires p <= |s|
    ensures AllDigitsOf(hex, m.digits) && p <= m.end <= |s| && |m.digits| <= m.end - p && m.fraction <= |m.digits|
    decreases |s| - p
  {
    if p < |s| && s[p] == '.' && !point then MantissaAt(s, p + 1, true, hex)
    else if p < |s| && IsDigitOf(hex, s[p]) then
      var m := MantissaAt(s, p + 1, point, hex);
      Mantissa([s[p]] + m.digits, m.fraction + (if point then 1 else 0), m.end)
    else Mantissa([], 0, p)
  }

  function DigitsEnd(s: string, p: nat): (e: nat)
    requires p <= |s|
    ensures p <= e <= |s| && AllDigits(s[p..e]) && !IsDigit(At(s, e))
    decreases |s| - p
  {
    if p < |s| && IsDigit(s[p]) then
      var e := DigitsEnd(s, p + 1);
      assert s[p..e] == [s[p]] + s[p + 1..e];
      e
    else p
  }

  /** A written exponent and where it ends; none, and the place itself, when there is no digit after the letter. */
  datatype Exponent = Exponent(value: int, end: nat)

  function ExponentAt(s: string, p: nat, letter: char, capital: char): (x: Exponent)
    requires p <= |s| && letter != '\0' && capital != '\0'
    ensures p <= x.end <= |s|
  {
    if At(s, p) != letter && At(s, p) != capital then Exponent(0, p)
    else
      var q := if At(s, p + 1) == '-' || At(s, p + 1) == '+' then p + 2 else p + 1;
      if !IsDigit(At(s, q)) then Exponent(0, p)
      else
        var e := DigitsEnd(s, q);
        var v: int := DecVal(s[q..e]);
        Exponent(if At(s, p + 1) == '-' then -v else v, e)
  }

  /** What a text spells: digits of base ten times a power of ten, or of base sixteen times a power of two. */
  datatype Real =
    | NoNumber
    | Infinity
    | NotANumber
    | Hexadecimal(digits: seq<char>, exp2: int)
    | Decimal(digits: seq<char>, exp10: int)

  function Lower(c: char): char
  {
    if 'A' <= c <= 'Z' then ((c as int) + 32) as char else c
  }

  predicate MatchesWord(s: string, p: nat, word: string)
  {
    forall i :: 0 <= i < |word| ==> Lower(At(s, p + i)) == word[i]
  }

  function SkipSpaces(s: string, p: nat): (q: nat)
    requires p <= |s|
    ensures p <= q <= |s|
    decreases |s| - p
  {
    if p < |s| && IsSpace(s[p]) then SkipSpaces(s, p + 1) else p
  }

  predicate HasNumber(s: string, p: nat, hex: bool)
    requires p <= |s|
  {
    MantissaAt(s, p, false, hex).digits != []
  }

  predicate StartsHex(s: string, p: nat)
  {
    At(s, p) == '0' && (At(s, p + 1) == 'x' || At(s, p + 1) == 'X')
  }

  /** The number after the spaces and the sign, where it ends, and the exponent as it was written. */
  datatype Parsed = Parsed(number: Real, end: nat, written: int)

  function Unsigned(s: string, p: nat): Parsed
    requires p <= |s|
  {
    if MatchesWord(s, p, "inf") then Parsed(Infinity, p + if MatchesWord(s, p, "infinity") then 8 else 3, 0)
    else if MatchesWord(s, p, "nan") then Parsed(NotANumber, p + 3, 0)
    else if StartsHex(s, p) && HasNumber(s, p + 2, true) then
      var m := MantissaAt(s, p + 2, false, true);
      var x := ExponentAt(s, m.end, 'p', 'P');
      Parsed(Hexadecimal(m.digits, x.value - 4 * m.fraction), x.end, x.value)
    else if StartsHex(s, p) then Parsed(Decimal("0", 0), p + 1, 0)
    else if HasNumber(s, p, false) then
      var m := MantissaAt(s, p, false, false);
      var x := ExponentAt(s, m.end, 'e', 'E');
      Parsed(Decimal(m.digits, x.value - m.fraction), x.end, x.value)
    else Parsed(NoNumber, 0, 0)
  }

  function NumberStart(s: string): (p: nat)
    ensures p <= |s|
  {
    var p := SkipSpaces(s, 0);
    if At(s, p) == '-' || At(s, p) == '+' then p + 1 else p
  }

  predicate Negative(s: string)
  {
    At(s, SkipSpaces(s, 0)) == '-'
  }

  function Parse(s: string): Parsed
  {
    Unsigned(s, NumberStart(s))
  }

  /** The scanner stops adding digits to an exponent at 100000; written exponents below a million are read exactly,
      and a larger one is decisive after a mantissa of fewer than 20000 digits. */
  predicate ExponentHolds(s: string)
  {
    -1000000 < Parse(s).written < 1000000 || |s| <= 20000
  }
}
