/** printf's %e and %a, and that what they print reads back. */
module FloatText {
  import opened Powers
  import opened Digits
  import opened Rounding
  import opened Numerals
  import opened DigitsOf
  import opened RoundTrip
  import opened RealText
  import opened TextOf
  import opened StringToReal
  import opened Sizes
  import opened DigitRounding
  import Printing

  datatype Flags = Flags(left: bool, plus: bool, space: bool, alt: bool, zero: bool)

  function Repeat(n: int, c: char): (s: string)
    ensures |s| == (if n < 0 then 0 else n) && forall i :: 0 <= i < |s| ==> s[i] == c
  {
    if n <= 0 then [] else seq(n, _ => c)
  }

  /** The text of a field from its parts: spaces on one side make up the width, or zeros behind the prefix. */
  function PutNumber(prefix: string, body: string, zeros: nat, tail: string, width: int, flags: Flags): string
  {
    var fill := width - (|prefix| + |body| + zeros + |tail|);
    var zeroFill := flags.zero && !flags.left;
    (if !flags.left && !zeroFill then Repeat(fill, ' ') else [])
    + (prefix + ((if zeroFill then Repeat(fill, '0') else [])
    + (body + (Repeat(zeros, '0') + (tail + (if flags.left then Repeat(fill, ' ') else []))))))
  }

  /** utoa_base in base ten. */
  method UtoaTen(v0: nat) returns (s: string)
    ensures s != [] && AllDigits(s) && DecVal(s) == v0
  {
    hide DecVal, Pow;
    if v0 == 0 {
      DecSingle('0');
      return "0";
    }
    var v: nat := v0;
    s := [];
    NothingYet(v);
    while v != 0
      invariant AllDigits(s) && DecVal(s) + v * Pow(10, |s|) == v0 && (v == 0 ==> s != [])
    {
      Printing.PrependDigit(DigitChar(v % 10), s, v);
      s := [DigitChar(v % 10)] + s;
      v := v / 10;
    }
  }
  lemma NothingYet(v: nat)
    ensures DecVal([]) + v * Pow(10, 0) == v
  {
    PowZero(10);
  }

  /** The letter, the sign and at least `minDigits` digits of an exponent. */
  method ExponentTail(upper: bool, letter: char, x: int, minDigits: nat) returns (tail: string)
    requires letter == 'e' || letter == 'p'
    ensures |tail| > 2 && tail[0] == (if upper then if letter == 'e' then 'E' else 'P' else letter)
    ensures tail[1] == (if x < 0 then '-' else '+')
    ensures AllDigits(tail[2..]) && DecVal(tail[2..]) == if x < 0 then -x else x
  {
    hide DecVal;
    tail := [if upper then if letter == 'e' then 'E' else 'P' else letter];
    var ex: nat := if x < 0 then -x else x;
    tail := tail + [if x < 0 then '-' else '+'];
    var digits := UtoaTen(ex);
    ghost var shown := digits;
    if minDigits == 2 && ex < 10 {
      tail := tail + ['0'];
      shown := ['0'] + digits;
      assert shown[1..] == digits;
      DecZeroFirst(shown);
    }
    tail := tail + digits;
    assert tail[2..] == shown;
  }

  // ---- what a layout parses to -----------------------------------------------------------------------

  /** The pieces of a number's text from left to right. */
  datatype Pieces = Pieces(spaces: string, sign: string, zero: string, whole: seq<char>, point: string, rest: seq<char>,
                           tail: string, after: string)
  {
    function Text(): string
    {
      spaces + (sign + (zero + (whole + (point + (rest + (tail + after))))))
    }

    ghost predicate Valid(hex: bool)
    {
      && (forall i :: 0 <= i < |spaces| ==> spaces[i] == ' ') && (forall i :: 0 <= i < |after| ==> after[i] == ' ')
      && (sign == "" || sign == "-" || sign == "+") && (point == "" || point == ".") && (point == "" ==> rest == [])
      && zero == (if hex then if tail != [] && tail[0] == 'P' then "0X" else "0x" else "")
      && whole != [] && AllDigitsOf(hex, whole) && AllDigitsOf(hex, rest) && IsDigit(whole[0])
      && |tail| > 2 && (if hex then tail[0] == 'p' || tail[0] == 'P' else tail[0] == 'e' || tail[0] == 'E')
      && (tail[1] == '-' || tail[1] == '+') && AllDigits(tail[2..])
    }

    function Place(): Layout
    {
      var p := |spaces| + |sign| + |zero|;
      var b := p + |whole| + |point|;
      Layout(p, p + |whole|, point != "", b + |rest|, b + |rest| + |tail|)
    }

    ghost function Written(): int
      requires |tail| > 2 && AllDigits(tail[2..])
    {
      var v: int := DecVal(tail[2..]);
      if tail[1] == '-' then -v else v
    }

    /** Every piece is where Place says. */
    ghost predicate Cut(t: string)
    {
      var k, l := |spaces|, Place();
      && |t| == l.q + |after| && k + |sign| + |zero| == l.p
      && t[..k] == spaces && t[k..k + |sign|] == sign && t[k + |sign|..l.p] == zero && t[l.p..l.a] == whole
      && t[l.a..l.B()] == point && t[l.B()..l.c] == rest && t[l.c..l.q] == tail && t[l.q..] == after
    }

    lemma TextCut()
      requires point == "" || |point| == 1
      ensures Cut(Text())
    {
      var t := Text();
      HeadCut(t, point + (rest + (tail + after)));
      TailCut(t, spaces + sign + zero + whole);
    }

    lemma HeadCut(t: string, left: string)
      requires t == spaces + (sign + (zero + (whole + left)))
      ensures var a := |spaces|; var b := a + |sign|; var c := b + |zero|; var d := c + |whole|;
        |t| == d + |left| && t[..a] == spaces && t[a..b] == sign && t[b..c] == zero && t[c..d] == whole
      ensures (spaces + sign + zero + whole) + left == t
    {
      var p1 := Step([], spaces, sign + (zero + (whole + left)), t);
      var p2 := Step(p1, sign, zero + (whole + left), t);
      var p3 := Step(p2, zero, whole + left, t);
      var p4 := Step(p3, whole, left, t);
      assert p4 == spaces + sign + zero + whole;
    }

    lemma TailCut(t: string, done: string)
      requires done + (point + (rest + (tail + after))) == t
      requires point == "" || |point| == 1
      ensures var a := |done|; var b := a + |point|; var c := b + |rest|; var q := c + |tail|;
        |t| == q + |after| && t[a..b] == point && t[b..c] == rest && t[c..q] == tail && t[q..] == after
    {
      var p5 := Step(done, point, rest + (tail + after), t);
      var p6 := Step(p5, rest, tail + after, t);
      var p7 := Step(p6, tail, after, t);
      var p8 := Step(p7, after, [], t);
    }

    lemma MantissaInPlace(t: string, hex: bool)
      requires Valid(hex) && Cut(t)
      ensures var l := Place();
        && l.p < l.a <= l.B() <= l.c <= |t| && (forall i :: l.p <= i < l.a ==> IsDigitOf(hex, t[i]))
        && (forall i :: l.B() <= i < l.c ==> IsDigitOf(hex, t[i])) && (l.point ==> t[l.a] == '.')
    {
      hide IsDigitOf, AllDigitsOf, AllDigits;
      var l := Place();
      Middle(t, l.p, whole, hex);
      Middle(t, l.B(), rest, hex);
      if point != "" { First(t, l.a, l.B()); }
    }

    lemma TailInPlace(t: string, hex: bool)
      requires Valid(hex) && Cut(t)
      ensures var l := Place();
        && l.c + 2 < l.q <= |t| && t[l.c] == tail[0] && t[l.c + 1] == tail[1] && t[l.c + 2..l.q] == tail[2..]
        && !IsDigit(At(t, l.q))
    {
      hide IsDigitOf, AllDigitsOf, AllDigits;
      var l := Place();
      TailAt(t, l.c, l.q);
      if after != [] { First(t, l.q, |t|); }
    }

    lemma InPlace(t: string, hex: bool)
      requires Valid(hex) && Cut(t)
      ensures var l := Place(); l.In(t, hex) && l.Digits(t) == whole + rest && l.Written(t) == Written()
    {
      hide DecVal, IsDigitOf, AllDigitsOf, AllDigits;
      MantissaInPlace(t, hex);
      TailInPlace(t, hex);
    }

    lemma StartInPlace(t: string, hex: bool)
      requires Valid(hex) && Cut(t)
      ensures NumberStart(t) == |spaces| + |sign| && (Negative(t) <==> sign == "-")
    {
      var k, l := |spaces|, Place();
      assert forall i :: 0 <= i < k ==> t[i] == t[..k][i];
      if sign != "" {
        First(t, k, k + 1);
      } else if hex {
        First(t, k, l.p);
      } else {
        First(t, k, l.a);
      }
      StartsAt(t, k, sign != "");
    }
  }

  lemma TailAt(t: string, c: nat, q: nat)
    requires c + 2 < q <= |t|
    ensures t[c] == t[c..q][0] && t[c + 1] == t[c..q][1] && t[c + 2..q] == t[c..q][2..]
  {
  }

  lemma First(t: string, i: nat, j: nat)
    requires i < j <= |t|
    ensures t[i] == t[i..j][0]
  {
  }

  /** The next piece, and all up to it. */
  lemma Step(done: string, piece: string, left: string, t: string) returns (p: string)
    requires done + (piece + left) == t || (left == [] && done + piece == t)
    ensures p + left == t && |p| == |done| + |piece| && t[|done|..|p|] == piece && (done == [] ==> t[..|p|] == piece)
    ensures p == done + piece
  {
    p := done + piece;
    assert p + left == done + (piece + left);
  }

  lemma Middle(t: string, p: nat, d: seq<char>, hex: bool)
    requires p + |d| <= |t| && t[p..p + |d|] == d && AllDigitsOf(hex, d)
    ensures forall i :: p <= i < p + |d| ==> IsDigitOf(hex, t[i])
  {
    forall i | p <= i < p + |d| ensures IsDigitOf(hex, t[i]) {
      assert t[i] == t[p..p + |d|][i - p];
    }
  }

  // ---- the shape of what is put -----------------------------------------------------------------------------

  /** The sign, as a space, a sign or nothing. */
  function SignOf(negative: bool, flags: Flags): (s: string)
    ensures s == "-" || s == "+" || s == " " || s == ""
    ensures s == "-" <==> negative
  {
    if negative then "-" else if flags.plus then "+" else if flags.space then " " else ""
  }

  function PiecesOf(sign: string, zero: string, lead: char, point: string, rest: seq<char>, zeros: nat, tail: string,
                    width: int, flags: Flags): Pieces
  {
    var fill := width - (|sign + zero| + |[lead] + point + rest| + zeros + |tail|);
    var zeroFill := flags.zero && !flags.left;
    var blank := sign == " ";
    Pieces((if !flags.left && !zeroFill then Repeat(fill, ' ') else []) + (if blank then " " else ""),
           if blank then "" else sign, zero, (if zeroFill then Repeat(fill, '0') else []) + [lead], point,
           rest + Repeat(zeros, '0'), tail, if flags.left then Repeat(fill, ' ') else [])
  }

  lemma PutShape(sign: string, zero: string, lead: char, point: string, rest: seq<char>, zeros: nat, tail: string,
                 width: int, flags: Flags)
    requires sign == "-" || sign == "+" || sign == " " || sign == ""
    ensures PutNumber(sign + zero, [lead] + point + rest, zeros, tail, width, flags)
      == PiecesOf(sign, zero, lead, point, rest, zeros, tail, width, flags).Text()
  {
    var fill := width - (|sign + zero| + |[lead] + point + rest| + zeros + |tail|);
    var zeroFill := flags.zero && !flags.left;
    var S := if !flags.left && !zeroFill then Repeat(fill, ' ') else [];
    var Z := if zeroFill then Repeat(fill, '0') else [];
    var A := if flags.left then Repeat(fill, ' ') else [];
    Associate(S, sign, zero, Z, [lead], point, rest, Repeat(zeros, '0'), tail + A);
    if sign == " " {
      BlankJoins(S, zero + ((Z + [lead]) + (point + ((rest + Repeat(zeros, '0')) + (tail + A)))));
    } else {
      assert S + "" == S;
    }
  }

  lemma Associate(S: string, sign: string, zero: string, Z: string, lead: string, point: string, rest: string,
                  zeros: string, tail: string)
    ensures S + ((sign + zero) + (Z + ((lead + point + rest) + (zeros + tail))))
      == S + (sign + (zero + ((Z + lead) + (point + ((rest + zeros) + tail)))))
  {
    assert (rest + zeros) + tail == rest + (zeros + tail);
    var u := rest + (zeros + tail);
    assert (lead + point + rest) + (zeros + tail) == lead + (point + u);
    assert (Z + lead) + (point + u) == Z + (lead + (point + u));
    var v := Z + (lead + (point + u));
    assert (sign + zero) + v == sign + (zero + v);
  }

  lemma BlankJoins(S: string, u: string)
    ensures (S + " ") + ("" + u) == S + (" " + u)
  {
  }

  lemma ShapeValid(sign: string, zero: string, lead: char, point: string, rest: seq<char>, zeros: nat, tail: string,
                   width: int, flags: Flags, hex: bool)
    requires sign == "-" || sign == "+" || sign == " " || sign == ""
    requires point == "" || point == "."
    requires point == "" ==> rest == [] && zeros == 0
    requires IsDigit(lead) && AllDigitsOf(hex, rest)
    requires |tail| > 2 && (if hex then tail[0] == 'p' || tail[0] == 'P' else tail[0] == 'e' || tail[0] == 'E')
    requires zero == (if hex then if tail[0] == 'P' then "0X" else "0x" else "")
    requires (tail[1] == '-' || tail[1] == '+') && AllDigits(tail[2..])
    ensures PiecesOf(sign, zero, lead, point, rest, zeros, tail, width, flags).Valid(hex)
  {
    hide PiecesOf;
    var n := PiecesOf(sign, zero, lead, point, rest, zeros, tail, width, flags);
    WholeOf(sign, zero, lead, point, rest, zeros, tail, width, flags);
    AroundOf(sign, zero, lead, point, rest, zeros, tail, width, flags);
    ZerosThenDigits(n.whole[..|n.whole| - 1], lead, hex);
    DigitsThenZeros(rest, Repeat(zeros, '0'), hex);
  }

  /** What is around the digits: blanks, a sign that is none, and the rest as it is given. */
  lemma AroundOf(sign: string, zero: string, lead: char, point: string, rest: seq<char>, zeros: nat, tail: string,
                 width: int, flags: Flags)
    ensures var n := PiecesOf(sign, zero, lead, point, rest, zeros, tail, width, flags);
      && (forall i :: 0 <= i < |n.spaces| ==> n.spaces[i] == ' ')
      && (forall i :: 0 <= i < |n.after| ==> n.after[i] == ' ')
      && n.sign == (if sign == " " then "" else sign) && n.zero == zero && n.point == point && n.tail == tail
  {
  }

  lemma ZerosThenDigits(Z: seq<char>, lead: char, hex: bool)
    requires (forall i :: 0 <= i < |Z| ==> Z[i] == '0') && IsDigit(lead)
    ensures AllDigitsOf(hex, Z + [lead]) && IsDigit((Z + [lead])[0])
  {
  }

  lemma DigitsThenZeros(rest: seq<char>, Z: seq<char>, hex: bool)
    requires (forall i :: 0 <= i < |Z| ==> Z[i] == '0') && AllDigitsOf(hex, rest)
    ensures AllDigitsOf(hex, rest + Z)
  {
  }

  // ---- %e ---------------------------------------------------------------------------------------------------

  /** Zeros before the digits change nothing, zeros after them are tens. */
  lemma BetweenZeros(before: seq<char>, d: seq<char>, after: seq<char>)
    requires AllDigits(d) && (forall i :: 0 <= i < |before| ==> before[i] == '0')
    requires forall i :: 0 <= i < |after| ==> after[i] == '0'
    ensures AllDigits(before + d + after) && DecVal(before + d + after) == DecVal(d) * Pow(10, |after|)
  {
    Zeros(before);
    Zeros(after);
    DecAppend(before, d);
    DecAppend(before + d, after);
  }

  lemma PiecesDigits(sign: string, zero: string, lead: char, point: string, rest: seq<char>, zeros: nat, tail: string,
                     width: int, flags: Flags)
    requires IsDigit(lead) && AllDigits(rest)
    ensures var n := PiecesOf(sign, zero, lead, point, rest, zeros, tail, width, flags);
      AllDigits(n.whole + n.rest) && DecVal(n.whole + n.rest) == DecVal([lead] + rest) * Pow(10, zeros)
  {
    hide DecVal, Pow, PiecesOf;
    var n := PiecesOf(sign, zero, lead, point, rest, zeros, tail, width, flags);
    WholeOf(sign, zero, lead, point, rest, zeros, tail, width, flags);
    var Z := n.whole[..|n.whole| - 1];
    BetweenZeros(Z, [lead] + rest, Repeat(zeros, '0'));
    assert (Z + [lead]) + (rest + Repeat(zeros, '0')) == Z + ([lead] + rest) + Repeat(zeros, '0');
  }

  lemma WholeOf(sign: string, zero: string, lead: char, point: string, rest: seq<char>, zeros: nat, tail: string,
                width: int, flags: Flags)
    ensures var n := PiecesOf(sign, zero, lead, point, rest, zeros, tail, width, flags);
      n.whole != [] && n.whole == n.whole[..|n.whole| - 1] + [lead] && n.rest == rest + Repeat(zeros, '0')
      && forall i :: 0 <= i < |n.whole| - 1 ==> n.whole[i] == '0'
  {
  }

  /** The text parses to digits d of value V times 10^zeros, with the exponent x for the first of them. */
  lemma ParsesAsDecimal(n: Pieces, t: string, x: int)
    requires n.Valid(false) && t == n.Text() && n.Written() == x
    ensures AllDigits(n.whole + n.rest)
    ensures Parse(t) == Parsed(RealText.Decimal(n.whole + n.rest, x - |n.rest|), n.Place().q, x)
    ensures Negative(t) <==> n.sign == "-"
  {
    hide Parse, Unsigned, Negative, NumberStart, DecVal, Pieces.Valid, Pieces.Cut, Pieces.Text, Layout.In;
    NoLongPoint(n, false);
    n.TextCut();
    n.InPlace(t, false);
    n.StartInPlace(t, false);
    DecimalLaidOut(n.Place(), t);
    ParseIs(t, n.Place().p);
  }

  lemma NoLongPoint(n: Pieces, hex: bool)
    requires n.Valid(hex)
    ensures n.point == "" || |n.point| == 1
    ensures |n.tail| > 2 && AllDigits(n.tail[2..])
    ensures n.zero == "" || hex
  {
  }

  lemma ParseIs(t: string, p: nat)
    requires NumberStart(t) == p
    ensures Parse(t) == Unsigned(t, p)
  {
  }

  /** What %e prints says: the value rounded to P significant digits, as digits and an exponent. */
  ghost predicate PrintsRounded(f: Format, bits: nat, P: nat, n: Real)
    requires f.Valid()
  {
    n.Decimal? && AllDigits(n.digits) &&
    if bits == 0 then DecVal(n.digits) == 0
    else exists x: int ::
      && LeadsAt(f, bits, x) && n.exp10 >= x - P + 1
      && DecVal(n.digits) * Pow(10, n.exp10 - (x - P + 1)) == RoundedUnits(f, bits, x - P + 1)
  }

  /** The digits %e shows of a magnitude, and the exponent of the first. */
  method DigitsForE(f: Format, bits: nat, P: nat) returns (s: seq<char>, X: int)
    requires Readable(f) && bits < f.Inf() && P > 0
    ensures AllDigits(s) && 0 < |s| <= P && -100000 < X < 100000
    ensures bits == 0 ==> s == ['0']
    ensures bits > 0 ==> exists x: int :: LeadsAt(f, bits, x) && x <= X && SpellsRounded(f, bits, s, X, x - P + 1)
  {
    hide Pow, DecVal, LeadsAt, SpellsRounded, Format.Inf;
    if bits == 0 {
      return ['0'], 0;
    }
    var dg := new char[f.maxDigits];
    var nd, x10 := ToDigits(f, bits, true, P, dg);
    s, X := dg[..nd], x10;
    SmallExponent(f, bits, s, X, P);
  }

  /** Digits with a point after the first, zeros up to P of them, and an exponent. */
  method LayOutE(sign: string, s: seq<char>, X: int, P: nat, upper: bool, width: int, flags: Flags) returns (t: string)
    requires AllDigits(s) && 0 < |s| <= P && (sign == "-" || sign == "+" || sign == " " || sign == "")
    ensures var n := Parse(t);
      n.number.Decimal? && AllDigits(n.number.digits) && n.number.exp10 == X - (P - 1) && n.written == X
      && DecVal(n.number.digits) == DecVal(s) * Pow(10, P - |s|)
    ensures Negative(t) <==> sign == "-"
  {
    hide Pow, DecVal, Parse, Negative, PiecesOf, PutNumber;
    var zeros := P - |s|;
    var tail := ExponentTail(upper, 'e', X, 2);
    var point := if P > 1 || flags.alt then "." else "";
    var body := [s[0]] + point;
    for i := 1 to |s|
      invariant body == [s[0]] + point + s[1..i]
    {
      body := body + [s[i]];
      assert s[1..i] + [s[i]] == s[1..i + 1];
    }
    assert s[1..|s|] == s[1..] && [s[0]] + s[1..] == s && sign + "" == sign;
    t := PutNumber(sign, body, zeros, tail, width, flags);
    PutShape(sign, "", s[0], point, s[1..], zeros, tail, width, flags);
    ShapeValid(sign, "", s[0], point, s[1..], zeros, tail, width, flags, false);
    ghost var n := PiecesOf(sign, "", s[0], point, s[1..], zeros, tail, width, flags);
    TailWritten(n, tail, X, sign, s, point, zeros, width, flags);
    ParsesAsDecimal(n, t, X);
    PiecesDigits(sign, "", s[0], point, s[1..], zeros, tail, width, flags);
  }

  /** fmt_float for %e and %E of a finite value: d.ddde+xx, with `prec` digits after the point. */
  method FormatE(f: Format, pattern: nat, upper: bool, prec0: int, width: int, flags: Flags) returns (t: string)
    requires Readable(f) && pattern < 2 * SignBit(f) && Magnitude(f, pattern) < f.Inf()
    ensures PrintsRounded(f, Magnitude(f, pattern), (if prec0 < 0 then 6 else prec0) + 1, Parse(t).number)
    ensures (Negative(t) <==> pattern >= SignBit(f)) && ExponentHolds(t)
  {
    hide Pow, DecVal, Parse, Negative, LeadsAt, SpellsRounded, RoundedUnits, SignBit, Format.Inf;
    var bits := Magnitude(f, pattern);
    var sign := SignOf(pattern >= SignBit(f), flags);
    var P: nat := (if prec0 < 0 then 6 else prec0) + 1;
    var s, X := DigitsForE(f, bits, P);
    t := LayOutE(sign, s, X, P, upper, width, flags);
    ghost var n := Parse(t).number;
    if bits != 0 {
      ghost var x: int :| LeadsAt(f, bits, x) && x <= X && SpellsRounded(f, bits, s, X, x - P + 1);
      WithZeros(f, bits, s, X, x - P + 1, P - |s|, DecVal(n.digits));
    } else {
      NoValue(P - 1);
    }
  }

  lemma NoValue(k: nat)
    ensures DecVal(['0']) * Pow(10, k) == 0
  {
    DecSingle('0');
  }

  /** A pattern without its sign bit. */
  function Magnitude(f: Format, pattern: nat): nat
    requires f.Valid()
  {
    if pattern < SignBit(f) then pattern else pattern - SignBit(f)
  }

  lemma TailWritten(n: Pieces, tail: string, X: int, sign: string, s: seq<char>, point: string, zeros: nat,
                    width: int, flags: Flags)
    requires s != [] && n == PiecesOf(sign, "", s[0], point, s[1..], zeros, tail, width, flags)
    requires |tail| > 2 && AllDigits(tail[2..]) && DecVal(tail[2..]) == (if X < 0 then -X else X)
    requires tail[1] == (if X < 0 then '-' else '+')
    ensures n.Written() == X && |n.rest| == |s| - 1 + zeros && (n.sign == "-" <==> sign == "-")
  {
  }

  lemma WithZeros(f: Format, bits: nat, s: seq<char>, X: int, place: int, zeros: nat, D: nat)
    requires f.Valid() && SpellsRounded(f, bits, s, X, place) && D == DecVal(s) * Pow(10, zeros)
    requires X - (|s| - 1 + zeros) >= place
    ensures D * Pow(10, X - (|s| - 1 + zeros) - place) == RoundedUnits(f, bits, place)
  {
    hide Pow, RoundedUnits;
    var k := X - (|s| - 1 + zeros) - place;
    PowAdd(10, zeros, k);
    MulAssoc(DecVal(s), Pow(10, zeros), Pow(10, k));
  }

  /** No exponent of a finite value comes near what the scanner caps. */
  lemma SmallExponent(f: Format, bits: nat, s: seq<char>, X: int, P: nat)
    requires Readable(f) && 0 < bits < f.Inf() && s != []
    requires exists x: int :: LeadsAt(f, bits, x) && x <= X <= x + 1 && SpellsRounded(f, bits, s, X, x - P + 1)
    ensures -100000 < X < 100000 && AllDigits(s) && IsDigit(s[0])
  {
    hide Pow, LeadsAt, RoundedUnits, Format.Inf;
    var x: int :| LeadsAt(f, bits, x) && x <= X <= x + 1 && SpellsRounded(f, bits, s, X, x - P + 1);
    LeadRange(f, bits, x);
  }

  lemma LeadRange(f: Format, bits: nat, x: int)
    requires Readable(f) && 0 < bits < f.Inf() && LeadsAt(f, bits, x)
    ensures -30000 < x < 30000
  {
    hide Pow, Format.Units, Format.Inf;
    var U, W := f.Units(bits), Pow(2, f.Quantum());
    f.UnitsMonotone(bits, f.Inf());
    f.UnitsMonotone(0, bits);
    InfUnitsPower(f);
    PowAdd(2, f.bias + 1, f.Quantum());
    ScaleForms(10, x);
    ScaleForms(10, x + 1);
    if x >= 30000 {
      PowMonotone(10, f.decimalTop, x);
      MulMonotone(Pow(2, f.bias + 1), Pow(10, x), W);
    } else if x <= -30000 {
      PowMonotone(10, 1 - f.decimalBottom, -x - 1);
      PowMonotone(2, f.Quantum(), f.Quantum() + 1);
      MulMonotone(1, U, Pow(10, -x - 1));
    }
  }
}
