/** The library's decoder of LZ4 blocks: of all strings of bytes it takes the blocks, each for what it spells. */
module Lz4Blocks {
  import opened Powers
  import opened Lz4

  datatype Option<T> = None | Some(value: T)

  datatype Errno = NoError | Invalid | NoSpace

  // ---- what a block is -----------------------------------------------------------------------------------

  /** The last sequence: the half of its token that is for a match may say anything. */
  function Loose(x: Item, low: nat): seq<Byte>
    requires low < 16
  {
    [Nibble(|x.literals|) * 16 + low] + (Extension(|x.literals|) + x.literals)
  }

  /** The bytes of a block. */
  function Spelled(items: seq<Item>, low: nat): seq<Byte>
    requires IsBlock(items) && low < 16
  {
    if |items| == 1 then Loose(items[0], low)
    else
      RestIsBlock(items);
      Encode(items[0]) + Spelled(items[1..], low)
  }

  lemma RestIsBlock(items: seq<Item>)
    requires IsBlock(items) && |items| > 1
    ensures IsBlock(items[1..]) && items[0].length > 0 && IsItem(items[0])
  {
    forall k | 0 <= k < |items| - 1 ensures items[1..][k].length == 0 <==> k == |items| - 2 {
      assert items[1..][k] == items[k + 1];
    }
  }

  /** After `out`, every match reaches back into what precedes it. */
  predicate Plays(out: seq<Byte>, items: seq<Item>)
    decreases |items|
  {
    items == [] || (Reaches(out, items[0]) && Plays(Expand(out, items[0]), items[1..]))
  }

  /** What the sequences make of `out`. */
  function Played(out: seq<Byte>, items: seq<Item>): seq<Byte>
    decreases |items|
  {
    if items == [] then out else Played(Expand(out, items[0]), items[1..])
  }

  ghost predicate Makes(src: seq<Byte>, out: seq<Byte>, all: seq<Byte>, items: seq<Item>, low: nat)
  {
    IsBlock(items) && low < 16 && src == Spelled(items, low) && Plays(out, items) && Played(out, items) == all
  }

  /** The bytes are a block, and make `all` of `out`. */
  ghost predicate BlockMakes(src: seq<Byte>, out: seq<Byte>, all: seq<Byte>)
  {
    exists items, low: nat :: Makes(src, out, all, items, low)
  }

  // ---- reading it ----------------------------------------------------------------------------------------

  datatype Size = Size(value: nat, end: nat)

  /** A length past 15, and where its bytes end. */
  function Extra(src: seq<Byte>, ip: nat, total: nat): (z: Option<Size>)
    ensures z.Some? ==> ip < z.value.end <= |src| && z.value.value >= total
    decreases |src| - ip
  {
    if ip >= |src| then None
    else if src[ip] == 255 then Extra(src, ip + 1, total + 255)
    else Some(Size(total + src[ip], ip + 1))
  }

  function Length(src: seq<Byte>, ip: nat, half: nat): (z: Option<Size>)
    requires ip <= |src|
    ensures z.Some? ==> ip <= z.value.end <= |src| && z.value.value >= half
  {
    if half == 15 then Extra(src, ip, half) else Some(Size(half, ip))
  }

  /** The number of literals of the sequence at ip, and where they begin. */
  function Literals(src: seq<Byte>, ip: nat): (z: Option<Size>)
    requires ip < |src|
    ensures z.Some? ==> ip < z.value.end <= |src|
  {
    Length(src, ip + 1, src[ip] / 16)
  }

  /** How far back its match is, the literals ending at p. */
  function Offset(src: seq<Byte>, p: nat): nat
    requires p + 2 <= |src|
  {
    src[p] as nat + src[p + 1] as nat * 256
  }

  /** And how long, short of the four bytes every match has. */
  function MatchSize(src: seq<Byte>, ip: nat, p: nat): (z: Option<Size>)
    requires ip < p && p + 2 <= |src|
    ensures z.Some? ==> p < z.value.end <= |src|
  {
    Length(src, p + 2, src[ip] % 16)
  }

  /** What the bytes from ip on make of `out`. */
  function Decoded(src: seq<Byte>, ip: nat, out: seq<Byte>): Option<seq<Byte>>
    decreases |src| - ip
  {
    if ip >= |src| || Literals(src, ip).None? then None
    else
      var literals := Literals(src, ip).value;
      var p := literals.end + literals.value;
      if p > |src| then None
      else
        var made := out + src[literals.end..p];
        if p == |src| then Some(made)
        else if p + 2 > |src| || !(0 < Offset(src, p) <= |made|) || MatchSize(src, ip, p).None? then None
        else
          var length := MatchSize(src, ip, p).value;
          Decoded(src, length.end, Matched(made, Offset(src, p), length.value + 4))
  }

  lemma {:induction false} ExtraReads(src: seq<Byte>, ip: nat, total: nat, e: nat)
    requires Stands(src, ip, LengthBytes(e))
    ensures Extra(src, ip, total) == Some(Size(total + e, ip + |LengthBytes(e)|))
    decreases e
  {
    var b := LengthBytes(e);
    assert src[ip] == src[ip..ip + |b|][0];
    if e >= 255 {
      StandsApart(src, ip, [255], LengthBytes(e - 255));
      ExtraReads(src, ip + 1, total + 255, e - 255);
    }
  }

  lemma {:induction false} ExtraSpells(src: seq<Byte>, ip: nat, total: nat)
    requires Extra(src, ip, total).Some?
    ensures var z := Extra(src, ip, total).value; src[ip..z.end] == LengthBytes(z.value - total)
    decreases |src| - ip
  {
    var z := Extra(src, ip, total).value;
    if src[ip] == 255 {
      ExtraSpells(src, ip + 1, total + 255);
      assert src[ip..z.end] == [src[ip]] + src[ip + 1..z.end];
    }
  }

  lemma LengthReads(src: seq<Byte>, ip: nat, n: nat)
    requires Stands(src, ip, Extension(n))
    ensures Length(src, ip, Nibble(n)) == Some(Size(n, ip + |Extension(n)|))
  {
    hide LengthBytes, Extra;
    if n >= 15 { ExtraReads(src, ip, 15, n - 15); }
  }

  lemma LengthSpells(src: seq<Byte>, ip: nat, half: nat)
    requires ip <= |src| && half < 16 && Length(src, ip, half).Some?
    ensures var z := Length(src, ip, half).value; Nibble(z.value) == half && src[ip..z.end] == Extension(z.value)
  {
    hide LengthBytes, Extra;
    if half == 15 { ExtraSpells(src, ip, 15); }
  }

  // ---- every block is read as what it makes ------------------------------------------------------------

  /** One sequence with a match. */
  lemma SequenceReads(src: seq<Byte>, ip: nat, out: seq<Byte>, x: Item)
    requires IsItem(x) && x.length > 0 && Reaches(out, x) && Stands(src, ip, Encode(x)) && ip + |Encode(x)| < |src|
    ensures Decoded(src, ip, out) == Decoded(src, ip + |Encode(x)|, Expand(out, x))
  {
    hide Extension, Literals, Offset, MatchSize, Matched, Stands, Encode;
    var b := ip + 1 + |Extension(|x.literals|)|;
    SequenceIs(src, ip, x);
    StandsIs(src, b, x.literals);
  }

  lemma SequenceIs(src: seq<Byte>, ip: nat, x: Item)
    requires IsItem(x) && x.length > 0 && Stands(src, ip, Encode(x)) && ip + |Encode(x)| <= |src|
    ensures var b := ip + 1 + |Extension(|x.literals|)|; var p := b + |x.literals|;
      && ip < |src| && Literals(src, ip) == Some(Size(|x.literals|, b)) && Stands(src, b, x.literals)
      && p + 2 <= |src| && Offset(src, p) == x.offset
      && MatchSize(src, ip, p) == Some(Size(x.length - 4, ip + |Encode(x)|))
  {
    hide Extension, Length, Stands, Nibble;
    var n := |x.literals|;
    PartsOfSequence(src, ip, x);
    LengthReads(src, ip + 1, n);
    LengthReads(src, ip + 1 + |Extension(n)| + n + 2, x.length - 4);
    HalvesOfToken(n, x.length - 4);
    OffsetOf(x.offset);
  }

  lemma PartsOfSequence(src: seq<Byte>, ip: nat, x: Item)
    requires IsItem(x) && x.length > 0 && Stands(src, ip, Encode(x))
    ensures var e := Extension(|x.literals|); var p := ip + 1 + |e| + |x.literals|; var t := Extension(x.length - 4);
      && p + 2 + |t| == ip + |Encode(x)| <= |src| && src[ip] == Nibble(|x.literals|) * 16 + Nibble(x.length - 4)
      && Stands(src, ip + 1, e) && Stands(src, ip + 1 + |e|, x.literals) && Stands(src, p + 2, t)
      && src[p] == x.offset % 256 && src[p + 1] == x.offset / 256
  {
    hide Extension, Stands;
    var e, t := Extension(|x.literals|), Extension(x.length - 4);
    var o: seq<Byte> := [x.offset % 256, x.offset / 256];
    StandsApart(src, ip, [Token(x)], e + (x.literals + Tail(x)));
    StandsApart(src, ip + 1, e, x.literals + Tail(x));
    StandsApart(src, ip + 1 + |e|, x.literals, Tail(x));
    var p := ip + 1 + |e| + |x.literals|;
    StandsApart(src, p, o, t);
    StandsIs(src, ip, [Token(x)]);
    StandsIs(src, p, o);
  }

  lemma StandsIs(src: seq<Byte>, ip: nat, e: seq<Byte>)
    requires Stands(src, ip, e)
    ensures ip + |e| <= |src| && src[ip..ip + |e|] == e && forall i :: 0 <= i < |e| ==> src[ip + i] == e[i]
  {
    forall i | 0 <= i < |e| ensures src[ip + i] == e[i] {
      assert src[ip..ip + |e|][i] == e[i];
    }
  }

  lemma HalvesOfToken(n: nat, m: nat)
    ensures var t := Nibble(n) * 16 + Nibble(m); t / 16 == Nibble(n) && t % 16 == Nibble(m)
  {
    hide Nibble;
    DivModUnique(Nibble(n) * 16 + Nibble(m), Nibble(n), 16, Nibble(m));
  }

  lemma OffsetOf(offset: nat)
    ensures offset == offset % 256 + offset / 256 * 256
  {
  }

  /** The last one. */
  lemma LastReads(src: seq<Byte>, ip: nat, out: seq<Byte>, x: Item, low: nat)
    requires low < 16 && x.length == 0 && ip <= |src| && src[ip..] == Loose(x, low)
    ensures Decoded(src, ip, out) == Some(out + x.literals)
  {
    hide Extension, Literals, Offset, MatchSize, Matched, Stands, Loose;
    LastIs(src, ip, x, low);
    StandsIs(src, ip + 1 + |Extension(|x.literals|)|, x.literals);
  }

  lemma LastIs(src: seq<Byte>, ip: nat, x: Item, low: nat)
    requires low < 16 && x.length == 0 && ip <= |src| && src[ip..] == Loose(x, low)
    ensures var b := ip + 1 + |Extension(|x.literals|)|;
      && ip < |src| && Literals(src, ip) == Some(Size(|x.literals|, b)) && Stands(src, b, x.literals)
      && b + |x.literals| == |src|
  {
    hide Extension, Length, Nibble;
    var e, n := Extension(|x.literals|), |x.literals|;
    assert Stands(src, ip, [Nibble(n) * 16 + low] + (e + x.literals));
    hide Stands;
    StandsApart(src, ip, [Nibble(n) * 16 + low], e + x.literals);
    StandsApart(src, ip + 1, e, x.literals);
    StandsIs(src, ip, [Nibble(n) * 16 + low]);
    LengthReads(src, ip + 1, n);
    DivModUnique(Nibble(n) * 16 + low, Nibble(n), 16, low);
  }

  lemma {:induction false} SpelledReads(src: seq<Byte>, ip: nat, out: seq<Byte>, items: seq<Item>, low: nat)
    requires IsBlock(items) && low < 16 && ip <= |src| && src[ip..] == Spelled(items, low) && Plays(out, items)
    ensures Decoded(src, ip, out) == Some(Played(out, items))
    decreases |items|
  {
    hide Decoded, Encode, Loose, Expand, Reaches;
    var x := items[0];
    if |items| == 1 {
      LastReads(src, ip, out, x, low);
      LiteralsOnly(out, x);
    } else {
      RestIsBlock(items);
      var rest := Spelled(items[1..], low);
      SomeSpelled(items[1..], low);
      assert src[ip..] == Encode(x) + rest;
      CutOff(src, ip, Encode(x), rest);
      SequenceReads(src, ip, out, x);
      SpelledReads(src, ip + |Encode(x)|, Expand(out, x), items[1..], low);
    }
  }

  lemma LiteralsOnly(out: seq<Byte>, x: Item)
    ensures x.length == 0 ==> Expand(out, x) == out + x.literals
    ensures Played(Expand(out, x), []) == Expand(out, x)
  {
  }

  lemma SomeSpelled(items: seq<Item>, low: nat)
    requires IsBlock(items) && low < 16
    ensures Spelled(items, low) != []
  {
  }

  lemma CutOff(src: seq<Byte>, ip: nat, e: seq<Byte>, rest: seq<Byte>)
    requires ip <= |src| && src[ip..] == e + rest
    ensures Stands(src, ip, e) && ip + |e| + |rest| == |src| && src[ip + |e|..] == rest
  {
    assert src[ip..ip + |e|] == src[ip..][..|e|] && src[ip + |e|..] == src[ip..][|e|..];
  }

  // ---- what is read is a block -------------------------------------------------------------------------

  lemma LiteralsSpell(src: seq<Byte>, ip: nat)
    requires ip < |src| && Literals(src, ip).Some?
    ensures var z := Literals(src, ip).value;
      Nibble(z.value) == src[ip] / 16 && src[ip + 1..z.end] == Extension(z.value)
  {
    hide Extension, Length, Nibble;
    LengthSpells(src, ip + 1, src[ip] / 16);
  }

  lemma MatchSpells(src: seq<Byte>, ip: nat, p: nat)
    requires ip < p && p + 2 <= |src| && MatchSize(src, ip, p).Some?
    ensures var z := MatchSize(src, ip, p).value;
      && p + 2 <= z.end && Nibble(z.value) == src[ip] % 16 && src[p + 2..z.end] == Extension(z.value)
      && src[p] == Offset(src, p) % 256 && src[p + 1] == Offset(src, p) / 256 && Offset(src, p) < 65536
  {
    hide Extension, Length, Nibble;
    LengthSpells(src, p + 2, src[ip] % 16);
    OffsetHalves(src[p], src[p + 1]);
  }

  lemma TokenFrom(t: Byte)
    ensures t == t / 16 * 16 + t % 16
  {
  }

  lemma LastSpells(src: seq<Byte>, ip: nat, x: Item)
    requires ip < |src| && Literals(src, ip).Some? && x.length == 0
    requires var z := Literals(src, ip).value; z.end + z.value == |src| && x.literals == src[z.end..]
    ensures src[ip..] == Loose(x, src[ip] % 16)
  {
    hide Extension, Nibble, Literals;
    LiteralsSpell(src, ip);
    TokenFrom(src[ip]);
    var z := Literals(src, ip).value;
    assert src[ip..] == [src[ip]] + (src[ip + 1..z.end] + src[z.end..]);
  }

  lemma MatchedSpells(src: seq<Byte>, ip: nat, x: Item)
    requires ip < |src| && Literals(src, ip).Some?
    requires var z := Literals(src, ip).value; var p := z.end + z.value;
      && p + 2 <= |src| && MatchSize(src, ip, p).Some? && x.literals == src[z.end..p]
      && x.length == MatchSize(src, ip, p).value.value + 4 && x.offset == Offset(src, p) > 0
    ensures var z := Literals(src, ip).value;
      IsItem(x) && src[ip..MatchSize(src, ip, z.end + z.value).value.end] == Encode(x)
  {
    hide Extension, Nibble, Literals, MatchSize, Offset;
    var z := Literals(src, ip).value;
    var p := z.end + z.value;
    LiteralsSpell(src, ip);
    MatchSpells(src, ip, p);
    TokenFrom(src[ip]);
    var e := MatchSize(src, ip, p).value.end;
    FiveParts(src, ip, z.end, p, e);
    assert Tail(x) == [src[p], src[p + 1]] + src[p + 2..e];
  }

  lemma FiveParts(src: seq<Byte>, ip: nat, b: nat, p: nat, e: nat)
    requires ip < b <= p && p + 2 <= e <= |src|
    ensures src[ip..e] == [src[ip]] + (src[ip + 1..b] + (src[b..p] + ([src[p], src[p + 1]] + src[p + 2..e])))
  {
  }

  /** What reads as one sequence is one. */
  lemma SequenceSpells(src: seq<Byte>, ip: nat, out: seq<Byte>) returns (x: Item, next: nat)
    requires Decoded(src, ip, out).Some?
    ensures ip < |src|
    ensures x.length == 0 ==>
      Decoded(src, ip, out) == Some(out + x.literals) && src[ip..] == Loose(x, src[ip] % 16)
    ensures x.length > 0 ==>
      (IsItem(x) && Reaches(out, x) && ip < next <= |src| && src[ip..next] == Encode(x)
       && Decoded(src, ip, out) == Decoded(src, next, Expand(out, x)))
  {
    hide Literals, MatchSize, Offset, Matched, Loose, Encode;
    var z := Literals(src, ip).value;
    var p := z.end + z.value;
    next := |src|;
    if p == |src| {
      x := Item(src[z.end..p], 0, 0);
      LastSpells(src, ip, x);
    } else {
      var m := MatchSize(src, ip, p).value;
      x := Item(src[z.end..p], Offset(src, p), m.value + 4);
      next := m.end;
      MatchedSpells(src, ip, x);
    }
  }

  lemma OffsetHalves(a: Byte, b: Byte)
    ensures var offset := a as nat + b as nat * 256;
      offset % 256 == a as nat && offset / 256 == b as nat && offset < 65536
  {
    DivModUnique(a as nat + b as nat * 256, b as nat, 256, a as nat);
  }

  lemma {:induction false} ReadsSpelled(src: seq<Byte>, ip: nat, out: seq<Byte>) returns (items: seq<Item>, low: nat)
    requires Decoded(src, ip, out).Some?
    ensures ip <= |src| && IsBlock(items) && low < 16 && src[ip..] == Spelled(items, low)
    ensures Plays(out, items) && Decoded(src, ip, out) == Some(Played(out, items))
    decreases |src| - ip
  {
    hide Decoded, Encode, Loose, Expand, Reaches;
    var x, next := SequenceSpells(src, ip, out);
    if x.length == 0 {
      items, low := [x], src[ip] % 16;
      LiteralsOnly(out, x);
      AlwaysReaches(out, x);
    } else {
      var rest;
      rest, low := ReadsSpelled(src, next, Expand(out, x));
      items := [x] + rest;
      assert items[1..] == rest;
      assert src[ip..] == src[ip..next] + src[next..];
    }
  }

  lemma AlwaysReaches(out: seq<Byte>, x: Item)
    requires x.length == 0
    ensures Reaches(out, x)
  {
  }

  /** So the decoder reads exactly the blocks, and as exactly what they make. */
  lemma DecodedIs(src: seq<Byte>, out: seq<Byte>, all: seq<Byte>)
    ensures Decoded(src, 0, out) == Some(all) <==> BlockMakes(src, out, all)
  {
    hide Decoded, Spelled, Plays, Played;
    assert src[0..] == src;
    if BlockMakes(src, out, all) {
      var items, low: nat :| Makes(src, out, all, items, low);
      SpelledReads(src, 0, out, items, low);
    }
    if Decoded(src, 0, out) == Some(all) {
      var items, low := ReadsSpelled(src, 0, out);
      assert Makes(src, out, all, items, low);
    }
  }

  // ---- the decoder -------------------------------------------------------------------------------------------

  lemma {:induction false} MatchedOn(out: seq<Byte>, offset: nat, length: nat)
    requires 0 < offset <= |out|
    ensures out <= Matched(out, offset, length) && |Matched(out, offset, length)| == |out| + length
    decreases length
  {
    if length == 0 {
    } else {
      var more := out + [out[|out| - offset]];
      MatchedOn(more, offset, length - 1);
      assert out <= more;
    }
  }

  /** What was there stays in front of what is made. */
  lemma {:induction false} DecodedOn(src: seq<Byte>, ip: nat, out: seq<Byte>)
    requires Decoded(src, ip, out).Some?
    ensures out <= Decoded(src, ip, out).value
    decreases |src| - ip
  {
    hide Literals, MatchSize, Offset, Matched;
    var z := Literals(src, ip).value;
    var p := z.end + z.value;
    var made := out + src[z.end..p];
    if p == |src| {
    } else {
      var m := MatchSize(src, ip, p).value;
      MatchedOn(made, Offset(src, p), m.value + 4);
      DecodedOn(src, m.end, Matched(made, Offset(src, p), m.value + 4));
    }
  }

  /** A length of 15 or more from its bytes, given up once it is past what there is room for. */
  method ReadMore(src: seq<Byte>, ip0: nat, total0: nat, bound: nat) returns (total: nat, ip: nat, ok: bool)
    requires ip0 <= |src|
    ensures ip0 <= ip <= |src| && total0 <= total
    ensures !ok ==> Extra(src, ip0, total0).None?
    ensures ok && total <= bound ==> Extra(src, ip0, total0) == Some(Size(total, ip))
    ensures ok && total > bound && Extra(src, ip0, total0).Some? ==> Extra(src, ip0, total0).value.value > bound
  {
    total, ip := total0, ip0;
    while true
      invariant ip0 <= ip <= |src| && total0 <= total && Extra(src, ip0, total0) == Extra(src, ip, total)
      decreases |src| - ip
    {
      if ip >= |src| {
        return total, ip, false;
      }
      var b := src[ip];
      ip := ip + 1;
      total := total + b;
      if b != 255 || total > bound {
        break;
      }
    }
    ok := true;
  }

  /** memcpy() */
  method CopyIn(src: seq<Byte>, ip: nat, count: nat, base: array<Byte>, op: nat)
    requires ip + count <= |src| && op + count <= base.Length
    modifies base
    ensures base[..op + count] == old(base[..op]) + src[ip..ip + count]
    ensures base[op + count..] == old(base[op + count..])
  {
    var i := 0;
    while i < count
      invariant i <= count && base[..op + i] == old(base[..op]) + src[ip..ip + i]
      invariant base[op + count..] == old(base[op + count..])
    {
      base[op + i] := src[ip + i];
      assert base[..op + i + 1] == base[..op + i] + [src[ip + i]];
      i := i + 1;
    }
  }

  /** A match, byte by byte: it may overlap what it writes. */
  method Repeat(base: array<Byte>, op: nat, offset: nat, length: nat)
    requires 0 < offset <= op && op + length <= base.Length
    modifies base
    ensures base[..op + length] == Matched(old(base[..op]), offset, length)
    ensures base[op + length..] == old(base[op + length..])
  {
    hide Matched;
    ghost var made := base[..op];
    MatchedOn(made, offset, 0);
    var i := 0;
    while i < length
      invariant i <= length && base[..op + i] == Matched(made, offset, i)
      invariant base[op + length..] == old(base[op + length..])
    {
      MatchedLonger(made, offset, i);
      base[op + i] := base[op + i - offset];
      assert base[..op + i + 1] == base[..op + i] + [base[op + i]];
      i := i + 1;
    }
  }

  /** The literals of the sequence at ip, when all of them are there. */
  method ReadLiterals(src: seq<Byte>, ip: nat) returns (literals: nat, at: nat, ok: bool)
    requires ip < |src|
    ensures ok ==> Literals(src, ip) == Some(Size(literals, at)) && ip < at && at + literals <= |src|
    ensures !ok ==> NoLiterals(src, ip)
  {
    hide Extra;
    literals, at, ok := src[ip] / 16, ip + 1, true;
    if literals == 15 {
      literals, at, ok := ReadMore(src, at, literals, |src|);
      if !ok {
        return;
      }
    }
    if literals > |src| - at {
      return literals, at, false;
    }
  }

  ghost predicate NoLiterals(src: seq<Byte>, ip: nat)
    requires ip < |src|
  {
    Literals(src, ip).Some? ==> Literals(src, ip).value.end + Literals(src, ip).value.value > |src|
  }

  /** The length of its match, or one past the capacity. */
  method ReadMatch(src: seq<Byte>, ip: nat, p: nat, cap: nat) returns (length: nat, at: nat, ok: bool)
    requires ip < p && p + 2 <= |src|
    ensures p < at <= |src| && (!ok ==> MatchSize(src, ip, p).None?)
    ensures ok && length <= cap ==> MatchSize(src, ip, p) == Some(Size(length, at))
    ensures ok && length > cap && MatchSize(src, ip, p).Some? ==> MatchSize(src, ip, p).value.value > cap
  {
    hide Extra;
    length, at, ok := src[ip] % 16, p + 2, true;
    if length == 15 {
      length, at, ok := ReadMore(src, at, length, cap);
    }
  }

  lemma NoBlock(src: seq<Byte>, ip: nat, out: seq<Byte>)
    requires ip >= |src| || NoLiterals(src, ip)
    ensures Decoded(src, ip, out).None?
  {
    hide Literals, MatchSize, Offset, Matched;
  }

  /** The sequence at ip when its literals are there. */
  lemma AfterLiterals(src: seq<Byte>, ip: nat, out: seq<Byte>)
    requires ip < |src| && Literals(src, ip).Some?
    requires var z := Literals(src, ip).value; z.end + z.value <= |src|
    ensures var z := Literals(src, ip).value; var p := z.end + z.value; var made := out + src[z.end..p];
      && (p == |src| ==> Decoded(src, ip, out) == Some(made))
      && (p < |src| && (p + 2 > |src| || !(0 < Offset(src, p) <= |made|) || MatchSize(src, ip, p).None?) ==>
            Decoded(src, ip, out).None?)
      && (p + 2 <= |src| && 0 < Offset(src, p) <= |made| && MatchSize(src, ip, p).Some? ==>
            Decoded(src, ip, out) == Decoded(src, MatchSize(src, ip, p).value.end,
              Matched(made, Offset(src, p), MatchSize(src, ip, p).value.value + 4)))
      && (Decoded(src, ip, out).Some? ==> made <= Decoded(src, ip, out).value)
  {
    hide Literals, MatchSize, Offset, Matched;
    var z := Literals(src, ip).value;
    var p := z.end + z.value;
    var made := out + src[z.end..p];
    if p + 2 <= |src| && 0 < Offset(src, p) <= |made| && MatchSize(src, ip, p).Some? {
      var m := MatchSize(src, ip, p).value;
      MatchedOn(made, Offset(src, p), m.value + 4);
      if Decoded(src, ip, out).Some? { DecodedOn(src, m.end, Matched(made, Offset(src, p), m.value + 4)); }
    }
  }

  /** The match there is, or would be: what it makes is a part of what the block makes. */
  lemma AfterMatch(src: seq<Byte>, ip: nat, out: seq<Byte>)
    requires ip < |src| && Literals(src, ip).Some? && Decoded(src, ip, out).Some?
    requires var z := Literals(src, ip).value; z.end + z.value < |src|
    ensures var z := Literals(src, ip).value; var p := z.end + z.value;
      && p + 2 <= |src| && MatchSize(src, ip, p).Some?
      && |out| + z.value + MatchSize(src, ip, p).value.value + 4 <= |Decoded(src, ip, out).value|
  {
    hide Literals, MatchSize, Offset, Matched;
    var z := Literals(src, ip).value;
    var p := z.end + z.value;
    var made := out + src[z.end..p];
    var m := MatchSize(src, ip, p).value;
    MatchedOn(made, Offset(src, p), m.value + 4);
    DecodedOn(src, m.end, Matched(made, Offset(src, p), m.value + 4));
  }

  lemma Refused(src: seq<Byte>, before: seq<Byte>, cap: nat, errno: Errno)
    requires Decoded(src, 0, before).None? || (|Decoded(src, 0, before).value| > cap && errno == NoSpace)
    ensures forall all :: BlockMakes(src, before, all) ==> |all| > cap && errno == NoSpace
  {
    hide Decoded, BlockMakes;
    forall all | BlockMakes(src, before, all) ensures |all| > cap && errno == NoSpace {
      DecodedIs(src, before, all);
    }
  }

  /** made is out and the literals of the sequence at ip, which end at p. */
  ghost predicate WithLiterals(src: seq<Byte>, ip: nat, p: nat, out: seq<Byte>, made: seq<Byte>)
  {
    && ip < p <= |src| && Literals(src, ip).Some? && p == Literals(src, ip).value.end + Literals(src, ip).value.value
    && made == out + src[Literals(src, ip).value.end..p]
  }

  /** The literals of the sequence at ip, copied; or why they are not. */
  method TakeLiterals(src: seq<Byte>, ip: nat, base: array<Byte>, op0: nat, cap: nat)
    returns (p: nat, op: nat, fault: Errno)
    requires ip < |src| && op0 <= cap <= base.Length
    modifies base
    ensures base[cap..] == old(base[cap..])
    ensures fault == NoError ==> op0 <= op <= cap && WithLiterals(src, ip, p, old(base[..op0]), base[..op])
    ensures fault != NoError ==> base[..op0] == old(base[..op0])
    ensures fault == Invalid ==> Decoded(src, ip, base[..op0]).None?
    ensures fault == NoSpace ==>
      Decoded(src, ip, base[..op0]).Some? ==> |Decoded(src, ip, base[..op0]).value| > cap
  {
    hide Decoded, Literals, MatchSize, Offset, Matched, NoLiterals;
    ghost var out := base[..op0];
    var literals, at, ok := ReadLiterals(src, ip);
    if !ok {
      NoBlock(src, ip, out);
      return ip, op0, Invalid;
    }
    AfterLiterals(src, ip, out);
    if literals > cap - op0 {
      return ip, op0, NoSpace;
    }
    CopyIn(src, at, literals, base, op0);
    assert base[op0 + literals..][cap - op0 - literals..] == base[cap..];
    assert old(base[op0 + literals..])[cap - op0 - literals..] == old(base[cap..]);
    return at + literals, op0 + literals, NoError;
  }

  /** Its match; or why not. */
  method TakeMatch(src: seq<Byte>, ip: nat, p: nat, base: array<Byte>, op0: nat, cap: nat, ghost out: seq<Byte>)
    returns (at: nat, op: nat, fault: Errno)
    requires p < |src| && op0 <= cap <= base.Length && WithLiterals(src, ip, p, out, base[..op0])
    modifies base
    ensures base[cap..] == old(base[cap..]) && base[..op0] == old(base[..op0])
    ensures fault == NoError ==>
      op0 <= op <= cap && ip < at <= |src| && Decoded(src, ip, out) == Decoded(src, at, base[..op])
    ensures fault == Invalid ==> Decoded(src, ip, out).None?
    ensures fault == NoSpace ==> Decoded(src, ip, out).Some? ==> |Decoded(src, ip, out).value| > cap
  {
    hide Decoded, Literals, MatchSize, Matched;
    AfterLiterals(src, ip, out);
    if |src| - p < 2 {
      return ip, op0, Invalid;
    }
    var offset := src[p] as nat + src[p + 1] as nat * 256;
    if offset == 0 || offset > op0 {
      return ip, op0, Invalid;
    }
    var length, next, ok := ReadMatch(src, ip, p, cap);
    if !ok {
      return ip, op0, Invalid;
    }
    if length + 4 > cap - op0 {
      if Decoded(src, ip, out).Some? { AfterMatch(src, ip, out); }
      return ip, op0, NoSpace;
    }
    MatchedOn(base[..op0], offset, length + 4);
    Repeat(base, op0, offset, length + 4);
    assert base[op0 + length + 4..][cap - op0 - length - 4..] == base[cap..];
    assert old(base[op0 + length + 4..])[cap - op0 - length - 4..] == old(base[cap..]);
    assert base[..op0] == base[..op0 + length + 4][..op0];
    return next, op0 + length + 4, NoError;
  }

  lemma LiteralsFollow(src: seq<Byte>, ip: nat, p: nat, out: seq<Byte>, made: seq<Byte>)
    requires WithLiterals(src, ip, p, out, made)
    ensures ip < p <= |src| && out <= made
  {
  }

  lemma LastLiterals(src: seq<Byte>, ip: nat, p: nat, out: seq<Byte>, made: seq<Byte>)
    requires WithLiterals(src, ip, p, out, made) && p == |src|
    ensures Decoded(src, ip, out) == Some(made)
  {
    hide Decoded, Literals, MatchSize, Offset, Matched;
    AfterLiterals(src, ip, out);
  }

  /**
   * decode(): base[pos..cap) takes what the block makes of what is in front of it. It succeeds exactly when the bytes
   * are a block and what it makes has room, and touches nothing outside that room; a block too long is told apart.
   */
  method Decode(src: seq<Byte>, base: array<Byte>, pos: nat, cap: nat) returns (r: int, errno: Errno)
    requires pos <= cap <= base.Length
    modifies base
    ensures base[..pos] == old(base[..pos]) && base[cap..] == old(base[cap..])
    ensures r >= 0 ==> pos + r <= cap && BlockMakes(src, old(base[..pos]), base[..pos + r]) && errno == NoError
    ensures r < 0 ==> r == -1 && errno != NoError
    ensures r < 0 ==> forall all :: BlockMakes(src, old(base[..pos]), all) ==> |all| > cap && errno == NoSpace
  {
    hide Decoded, WithLiterals, BlockMakes;
    ghost var before := base[..pos];
    var ip, op := 0, pos;
    while true
      invariant pos <= op <= cap && ip <= |src| && base[cap..] == old(base[cap..]) && base[..op][..pos] == before
      invariant Decoded(src, 0, before) == Decoded(src, ip, base[..op])
      decreases |src| - ip
    {
      ghost var out := base[..op];
      if ip >= |src| {
        NoBlock(src, ip, out);
        Refused(src, before, cap, Invalid);
        return -1, Invalid;
      }
      var p, next, fault;
      p, next, fault := TakeLiterals(src, ip, base, op, cap);
      if fault != NoError {
        Refused(src, before, cap, fault);
        return -1, fault;
      }
      LiteralsFollow(src, ip, p, out, base[..next]);
      op := next;
      if p == |src| {
        LastLiterals(src, ip, p, out, base[..op]);
        DecodedIs(src, before, base[..op]);
        return op - pos, NoError;
      }
      ip, op, fault := TakeMatch(src, ip, p, base, op, cap, out);
      if fault != NoError {
        Refused(src, before, cap, fault);
        return -1, fault;
      }
    }
  }

  // ---- what the compressor makes -------------------------------------------------------------------------

  /** A block makes one thing. */
  lemma OneMeaning(src: seq<Byte>, out: seq<Byte>, a: seq<Byte>, b: seq<Byte>)
    requires BlockMakes(src, out, a) && BlockMakes(src, out, b)
    ensures a == b
  {
    hide Decoded, BlockMakes;
    DecodedIs(src, out, a);
    DecodedIs(src, out, b);
  }

  lemma {:induction false} EncodeFirst(x: Item, rest: seq<Item>)
    requires IsItem(x) && AreItems(rest)
    ensures EncodeAll([x] + rest) == Encode(x) + EncodeAll(rest)
    decreases |rest|
  {
    hide Encode;
    if rest == [] {
      assert ([x] + rest)[..0] == [] && EncodeAll([]) == [];
    } else {
      var init := rest[..|rest| - 1];
      assert ([x] + rest)[..|rest|] == [x] + init;
      EncodeFirst(x, init);
    }
  }

  lemma {:induction false} SpelledIs(items: seq<Item>)
    requires IsBlock(items)
    ensures Spelled(items, 0) == EncodeAll(items)
    decreases |items|
  {
    hide Encode, Loose;
    if |items| == 1 {
      LooseIs(items[0]);
      assert items == [items[0]] + [];
      EncodeFirst(items[0], []);
    } else {
      RestIsBlock(items);
      SpelledIs(items[1..]);
      assert items == [items[0]] + items[1..];
      EncodeFirst(items[0], items[1..]);
    }
  }

  lemma LooseIs(x: Item)
    requires x.length == 0
    ensures IsItem(x) && Loose(x, 0) == Encode(x)
  {
    assert x.literals + Tail(x) == x.literals;
  }

  lemma {:induction false} PlayedLast(out: seq<Byte>, items: seq<Item>, x: Item)
    ensures Played(out, items + [x]) == Expand(Played(out, items), x)
    ensures Plays(out, items + [x]) <==> Plays(out, items) && Reaches(Played(out, items), x)
    decreases |items|
  {
    hide Expand, Reaches;
    if items == [] {
      assert (items + [x])[1..] == [];
    } else {
      assert (items + [x])[1..] == items[1..] + [x];
      PlayedLast(Expand(out, items[0]), items[1..], x);
    }
  }

  lemma {:induction false} PlayedIs(items: seq<Item>)
    ensures Played([], items) == Expanded(items) && (Plays([], items) <==> AllReach(items))
    decreases |items|
  {
    hide Expand, Reaches;
    if items == [] {
    } else {
      var init, x := items[..|items| - 1], items[|items| - 1];
      PlayedIs(init);
      PlayedLast([], init, x);
      assert items == init + [x];
    }
  }

  /** What the tools compress the library reads back, into any room that holds it. */
  method PackThenDecode(src: seq<Byte>, room: nat) returns (packed: seq<Byte>, back: array<Byte>, r: int)
    requires |src| <= room
    ensures r == |src| && |src| <= back.Length && back[..r] == src && |packed| <= |src| + |src| / 255 + 16
  {
    hide BlockMakes, EncodeAll, Expanded, AllReach, Spelled, Plays, Played, Spaced;
    ghost var items;
    packed, items := Compress(src);
    back := new Byte[room](i => 0);
    SpelledIs(items);
    PlayedIs(items);
    MakesIt(packed, src, items);
    var errno;
    r, errno := Decode(packed, back, 0, room);
    assert back[..0] == [];
    if r >= 0 { OneMeaning(packed, [], src, back[..r]); }
  }

  lemma MakesIt(packed: seq<Byte>, src: seq<Byte>, items: seq<Item>)
    requires IsBlock(items) && packed == Spelled(items, 0) && Plays([], items) && Played([], items) == src
    ensures BlockMakes(packed, [], src)
  {
    hide Spelled, Plays, Played;
    assert Makes(packed, [], src, items, 0);
  }
}
