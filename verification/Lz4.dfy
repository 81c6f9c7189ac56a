/** The LZ4 block compressor of resource packs, and the decompressor that verifies it. */
module Lz4 {
  import opened Powers

  type Byte = x: nat | x < 256

  // ---- the block format --------------------------------------------------------------------------

  /** Literals, then a match: `length` bytes from `offset` bytes back. The last sequence has no match, length 0. */
  datatype Item = Item(literals: seq<Byte>, offset: nat, length: nat)

  /** What a length adds past the 15 its half of the token can say. */
  function LengthBytes(extra: nat): (r: seq<Byte>)
    ensures |r| == extra / 255 + 1
  {
    if extra >= 255 then [255] + LengthBytes(extra - 255) else [extra]
  }

  /** The half of the token for a length, and the bytes that follow it. */
  function Nibble(length: nat): (r: nat)
    ensures r < 16
  {
    Min(length, 15)
  }

  function Extension(length: nat): seq<Byte>
  {
    if length >= 15 then LengthBytes(length - 15) else []
  }

  predicate IsItem(x: Item)
  {
    x.length == 0 || (x.length >= 4 && 0 < x.offset < 65536)
  }

  function Tail(x: Item): seq<Byte>
    requires IsItem(x)
  {
    if x.length == 0 then [] else [x.offset % 256, x.offset / 256] + Extension(x.length - 4)
  }

  function Token(x: Item): Byte
    requires IsItem(x)
  {
    Nibble(|x.literals|) * 16 + if x.length == 0 then 0 else Nibble(x.length - 4)
  }

  function Encode(x: Item): seq<Byte>
    requires IsItem(x)
  {
    [Token(x)] + (Extension(|x.literals|) + (x.literals + Tail(x)))
  }

  predicate AreItems(items: seq<Item>)
  {
    forall k :: 0 <= k < |items| ==> IsItem(items[k])
  }

  function EncodeAll(items: seq<Item>): seq<Byte>
    requires AreItems(items)
  {
    if items == [] then [] else EncodeAll(items[..|items| - 1]) + Encode(items[|items| - 1])
  }

  /** A match, byte by byte: it may overlap what it makes. */
  function Matched(out: seq<Byte>, offset: nat, length: nat): seq<Byte>
    requires 0 < offset <= |out|
    decreases length
  {
    if length == 0 then out else Matched(out + [out[|out| - offset]], offset, length - 1)
  }

  /** Whether the match of x reaches back no further than what there is by then. */
  predicate Reaches(out: seq<Byte>, x: Item)
  {
    x.length > 0 ==> 0 < x.offset <= |out| + |x.literals|
  }

  function Expand(out: seq<Byte>, x: Item): seq<Byte>
  {
    if x.length == 0 || !Reaches(out, x) then out + x.literals else Matched(out + x.literals, x.offset, x.length)
  }

  /** What a list of sequences stands for. */
  function Expanded(items: seq<Item>): seq<Byte>
  {
    if items == [] then [] else Expand(Expanded(items[..|items| - 1]), items[|items| - 1])
  }

  /** Every match reaches back into what precedes it. */
  predicate AllReach(items: seq<Item>)
  {
    items == [] || (AllReach(items[..|items| - 1]) && Reaches(Expanded(items[..|items| - 1]), items[|items| - 1]))
  }

  /** A whole block: only the last sequence has no match. */
  predicate IsBlock(items: seq<Item>)
  {
    && items != [] && AreItems(items)
    && forall k :: 0 <= k < |items| ==> (items[k].length == 0 <==> k == |items| - 1)
  }

  // ---- matches ------------------------------------------------------------------------------------------

  lemma {:induction false} MatchedLonger(out: seq<Byte>, offset: nat, length: nat)
    requires 0 < offset <= |out|
    ensures var m := Matched(out, offset, length);
      |m| == |out| + length && Matched(out, offset, length + 1) == m + [m[|m| - offset]]
    decreases length
  {
    if length == 0 {
    } else {
      MatchedLonger(out + [out[|out| - offset]], offset, length - 1);
    }
  }

  /** From `at` on, each of `length` bytes is the one `offset` bytes before it. */
  predicate Repeats(s: seq<Byte>, at: nat, offset: nat, length: nat)
  {
    offset <= at && at + length <= |s| && forall j :: at <= j < at + length ==> s[j] == s[j - offset]
  }

  /** A match of bytes that do repeat, even one that overlaps itself, makes just those bytes. */
  lemma {:induction false} MatchedIs(s: seq<Byte>, at: nat, offset: nat, length: nat)
    requires 0 < offset && Repeats(s, at, offset, length)
    ensures Matched(s[..at], offset, length) == s[..at + length]
    decreases length
  {
    if length == 0 {
    } else {
      assert s[at] == s[at - offset];
      assert s[..at] + [s[..at][at - offset]] == s[..at + 1];
      MatchedIs(s, at + 1, offset, length - 1);
    }
  }

  // ---- the compressor ------------------------------------------------------------------------------------

  method PutLength(out0: seq<Byte>, extra0: nat) returns (out: seq<Byte>)
    ensures out == out0 + LengthBytes(extra0)
  {
    out := out0;
    var extra := extra0;
    while extra >= 255
      invariant 0 <= extra <= extra0 && out + LengthBytes(extra) == out0 + LengthBytes(extra0)
    {
      assert LengthBytes(extra) == [255] + LengthBytes(extra - 255);
      assert out + LengthBytes(extra) == (out + [255]) + LengthBytes(extra - 255);
      out := out + [255];
      extra := extra - 255;
    }
    out := out + [extra];
  }

  lemma EncodeParts(x: Item)
    requires IsItem(x)
    ensures Encode(x) == [Token(x)] + Extension(|x.literals|) + x.literals + Tail(x)
  {
  }

  method PutExtension(out0: seq<Byte>, length: nat) returns (out: seq<Byte>)
    ensures out == out0 + Extension(length)
  {
    out := out0;
    if length >= 15 {
      out := PutLength(out, length - 15);
    }
  }

  method PutLiterals(out0: seq<Byte>, src: seq<Byte>, anchor: nat, at: nat) returns (out: seq<Byte>)
    requires anchor <= at <= |src|
    ensures out == out0 + src[anchor..at]
  {
    out := out0;
    var i := anchor;
    while i < at
      invariant anchor <= i <= at && out == out0 + src[anchor..i]
    {
      assert src[anchor..i] + [src[i]] == src[anchor..i + 1];
      out := out + [src[i]];
      i := i + 1;
    }
  }

  /** The token put in last, before all that follows it. */
  lemma TokenLast(out0: seq<Byte>, a: seq<Byte>, b: seq<Byte>, c: seq<Byte>, t: Byte)
    ensures (out0 + [0] + a + b + c)[|out0| := t] == out0 + ([t] + a + b + c)
  {
  }

  lemma TwoTails(out: seq<Byte>, a: seq<Byte>, b: seq<Byte>)
    ensures out + a + b == out + (a + b)
  {
  }

  lemma NoTail(out: seq<Byte>, x: Item)
    requires IsItem(x) && x.length == 0
    ensures out + Tail(x) == out
  {
  }

  method PutMatch(out0: seq<Byte>, offset: nat, length: nat, ghost x: Item) returns (out: seq<Byte>)
    requires IsItem(x) && x.offset == offset && x.length == length > 0
    ensures out == out0 + Tail(x)
  {
    hide Extension;
    out := out0 + [offset % 256, offset / 256];
    out := PutExtension(out, length - 4);
    TwoTails(out0, [offset % 256, offset / 256], Extension(length - 4));
  }

  lemma TokenIs(x: Item)
    requires IsItem(x)
    ensures Token(x) == Min(|x.literals|, 15) * 16 + if x.length > 0 then Min(x.length - 4, 15) else 0
  {
  }

  /** Appends one sequence: the literals from anchor up to `at`, and a match unless its length is 0. */
  method Sequence(out0: seq<Byte>, src: seq<Byte>, anchor: nat, at: nat, offset: nat, length: nat)
    returns (out: seq<Byte>)
    requires anchor <= at <= |src| && IsItem(Item(src[anchor..at], offset, length))
    ensures out == out0 + Encode(Item(src[anchor..at], offset, length))
  {
    hide Encode, Extension, Tail, Token, IsItem;
    ghost var x := Item(src[anchor..at], offset, length);
    EncodeParts(x);
    TokenIs(x);
    var literals := at - anchor;
    var token := |out0|;
    out := out0 + [0];
    var t := Min(literals, 15) * 16;
    out := PutExtension(out, literals);
    out := PutLiterals(out, src, anchor, at);
    if length > 0 {
      t := t + Min(length - 4, 15);
      out := PutMatch(out, offset, length, x);
    } else {
      NoTail(out, x);
    }
    TokenLast(out0, Extension(literals), x.literals, Tail(x), t);
    out := out[token := t];
  }

  // ---- what has been compressed so far -------------------------------------------------------------------

  /** No match begins in the last twelve bytes or reaches into the last five, which the format keeps literal. */
  ghost predicate Spaced(items: seq<Item>, n: nat)
  {
    items == [] ||
      var init, x := items[..|items| - 1], items[|items| - 1];
      Spaced(init, n) && (x.length > 0 ==> RoomAfter(init, x, n))
  }

  /** The match of x, coming after items, begins before the last twelve of n bytes and ends before the last five. */
  predicate RoomAfter(items: seq<Item>, x: Item, n: nat)
  {
    var at := |Expanded(items)| + |x.literals|;
    at + 12 < n && at + x.length + 5 <= n
  }

  /** The sequences so far, each with a match, stand for the source up to anchor. */
  ghost predicate Compressed(src: seq<Byte>, items: seq<Item>, out: seq<Byte>, anchor: nat)
  {
    && AreItems(items) && AllReach(items) && (forall k :: 0 <= k < |items| ==> items[k].length > 0)
    && anchor <= |src| && Expanded(items) == src[..anchor] && out == EncodeAll(items) && Spaced(items, |src|)
    && |out| <= anchor + anchor / 255
  }

  /** A sequence more. */
  lemma OneItemMore(items: seq<Item>, x: Item, n: nat)
    requires AreItems(items) && IsItem(x)
    ensures AreItems(items + [x]) && EncodeAll(items + [x]) == EncodeAll(items) + Encode(x)
    ensures Expanded(items + [x]) == Expand(Expanded(items), x)
    ensures AllReach(items + [x]) <==> AllReach(items) && Reaches(Expanded(items), x)
    ensures Spaced(items, n) && (x.length > 0 ==> RoomAfter(items, x, n)) ==> Spaced(items + [x], n)
  {
    assert (items + [x])[..|items|] == items;
  }

  lemma ItemSize(x: Item)
    requires IsItem(x)
    ensures x.length > 0 ==> |Encode(x)| <= |x.literals| + x.length + |x.literals| / 255
    ensures x.length == 0 ==> |Encode(x)| <= |x.literals| + |x.literals| / 255 + 2
  {
    EncodeParts(x);
    hide Encode, LengthBytes;
    ExtensionSize(|x.literals|);
    if x.length > 0 { ExtensionSize(x.length - 4); }
  }

  lemma ExtensionSize(length: nat)
    ensures |Extension(length)| <= length / 255 + 1 && |Extension(length)| <= length
    ensures length < 15 ==> |Extension(length)| == 0
  {
  }

  lemma NothingCompressed(src: seq<Byte>)
    ensures Compressed(src, [], [], 0)
  {
  }

  lemma ExtendMatch(s: seq<Byte>, anchor: nat, at: nat, offset: nat, length: nat)
    requires anchor <= at && 0 < offset && length > 0 && Repeats(s, at, offset, length)
    ensures var x := Item(s[anchor..at], offset, length);
      Reaches(s[..anchor], x) && Expand(s[..anchor], x) == s[..at + length]
  {
    assert s[..anchor] + s[anchor..at] == s[..at];
    MatchedIs(s, at, offset, length);
  }

  /** Room for one sequence more. */
  lemma SizeAdds(done: nat, anchor: nat, more: nat, literals: nat, length: nat)
    requires done <= anchor + anchor / 255 && more <= literals + length + literals / 255
    ensures done + more <= (anchor + literals + length) + (anchor + literals + length) / 255
  {
  }

  /** A match found goes in, after the literals before it. */
  lemma AddMatch(src: seq<Byte>, items: seq<Item>, out: seq<Byte>, anchor: nat, at: nat, offset: nat, length: nat)
    requires Compressed(src, items, out, anchor) && anchor <= at && 0 < offset < 65536 && length >= 4
    requires Repeats(src, at, offset, length) && at + 12 < |src| && at + length + 5 <= |src|
    ensures var x := Item(src[anchor..at], offset, length);
      IsItem(x) && Compressed(src, items + [x], out + Encode(x), at + length)
  {
    var x := Item(src[anchor..at], offset, length);
    hide Encode, Expand, Repeats, EncodeAll, Expanded, AllReach, Spaced, Reaches, AreItems, RoomAfter;
    RoomFor(items, x, src, anchor);
    OneItemMore(items, x, |src|);
    ExtendMatch(src, anchor, at, offset, length);
    ItemSize(x);
    SizeAdds(|out|, anchor, |Encode(x)|, at - anchor, length);
  }

  lemma RoomFor(items: seq<Item>, x: Item, src: seq<Byte>, anchor: nat)
    requires AreItems(items) && anchor <= |src| && Expanded(items) == src[..anchor]
    requires anchor + |x.literals| + 12 < |src| && anchor + |x.literals| + x.length + 5 <= |src|
    ensures RoomAfter(items, x, |src|)
  {
  }

  /** The last sequence holds the rest as literals. */
  lemma AddLast(src: seq<Byte>, items: seq<Item>, out: seq<Byte>, anchor: nat)
    requires Compressed(src, items, out, anchor)
    ensures anchor <= |src|
    ensures var x := Item(src[anchor..], 0, 0);
      && IsItem(x) && IsBlock(items + [x]) && AllReach(items + [x]) && Spaced(items + [x], |src|)
      && Expanded(items + [x]) == src && out + Encode(x) == EncodeAll(items + [x])
      && |out + Encode(x)| <= |src| + |src| / 255 + 16
  {
    var x := Item(src[anchor..], 0, 0);
    hide Encode, EncodeAll, Expanded, AllReach, Spaced;
    OneItemMore(items, x, |src|);
    assert src[..anchor] + src[anchor..] == src;
    ItemSize(x);
    LastSize(|out|, anchor, |Encode(x)|, |src| - anchor);
  }

  lemma LastSize(done: nat, anchor: nat, more: nat, literals: nat)
    requires done <= anchor + anchor / 255 && more <= literals + literals / 255 + 2
    ensures done + more <= anchor + literals + (anchor + literals) / 255 + 2
  {
  }

  // ---- finding matches -------------------------------------------------------------------------------------

  function Read32(s: seq<Byte>, i: nat): nat
    requires i + 4 <= |s|
  {
    s[i] as nat + s[i + 1] as nat * 0x100 + s[i + 2] as nat * 0x1_0000 + s[i + 3] as nat * 0x100_0000
  }

  /** Equal words are equal bytes. */
  lemma SameWord(s: seq<Byte>, i: nat, j: nat)
    requires i + 4 <= |s| && j + 4 <= |s| && Read32(s, i) == Read32(s, j)
    ensures s[i] == s[j] && s[i + 1] == s[j + 1] && s[i + 2] == s[j + 2] && s[i + 3] == s[j + 3]
  {
    FourBytes(s[i], s[i + 1], s[i + 2], s[i + 3], s[j], s[j + 1], s[j + 2], s[j + 3]);
  }

  lemma FourBytes(a: Byte, b: Byte, c: Byte, d: Byte, e: Byte, f: Byte, g: Byte, h: Byte)
    requires a as nat + b as nat * 0x100 + c as nat * 0x1_0000 + d as nat * 0x100_0000
      == e as nat + f as nat * 0x100 + g as nat * 0x1_0000 + h as nat * 0x100_0000
    ensures a == e && b == f && c == g && d == h
  {
    LowByte(a, b as nat + c as nat * 0x100 + d as nat * 0x1_0000, e, f as nat + g as nat * 0x100 + h as nat * 0x1_0000);
    LowByte(b, c as nat + d as nat * 0x100, f, g as nat + h as nat * 0x100);
    LowByte(c, d, g, h);
  }

  lemma LowByte(a: Byte, x: nat, b: Byte, y: nat)
    requires a as nat + x * 0x100 == b as nat + y * 0x100
    ensures a == b && x == y
  {
  }

  /** The table maps a word to a place before ip where it stands. */
  ghost predicate IsTable(src: seq<Byte>, table: map<nat, nat>, ip: nat)
  {
    forall w :: w in table ==> table[w] < ip && table[w] + 4 <= |src| && Read32(src, table[w]) == w
  }

  lemma TableLater(src: seq<Byte>, table: map<nat, nat>, ip: nat, ip2: nat)
    requires IsTable(src, table, ip) && ip + 4 <= |src| && ip < ip2
    ensures IsTable(src, table[Read32(src, ip) := ip], ip2)
  {
    hide Read32;
  }

  lemma Found(src: seq<Byte>, table: map<nat, nat>, ip: nat)
    requires IsTable(src, table, ip) && ip + 4 <= |src| && Read32(src, ip) in table
    ensures var ref := table[Read32(src, ip)]; ref < ip && Repeats(src, ip, ip - ref, 4)
  {
    SameWord(src, table[Read32(src, ip)], ip);
    hide Read32;
  }

  lemma RepeatsOn(src: seq<Byte>, ip: nat, ref: nat, length: nat)
    requires ref < ip && Repeats(src, ip, ip - ref, length)
    requires ip + length < |src| && src[ref + length] == src[ip + length]
    ensures Repeats(src, ip, ip - ref, length + 1)
  {
  }

  /** How far the bytes at ref and at ip go on being the same. */
  method MatchLength(src: seq<Byte>, ref: nat, ip: nat, matchLimit: nat) returns (length: nat)
    requires ref < ip && ip + 4 <= matchLimit <= |src| && Repeats(src, ip, ip - ref, 4)
    ensures length >= 4 && ip + length <= matchLimit && Repeats(src, ip, ip - ref, length)
    ensures ip + length == matchLimit || src[ref + length] != src[ip + length]
  {
    hide Repeats;
    length := 4;
    while ip + length < matchLimit && src[ref + length] == src[ip + length]
      invariant 4 <= length && ip + length <= matchLimit && Repeats(src, ip, ip - ref, length)
    {
      RepeatsOn(src, ip, ref, length);
      length := length + 1;
    }
  }

  /** lz4Compress */
  method Compress(src: seq<Byte>) returns (out: seq<Byte>, ghost items: seq<Item>)
    ensures IsBlock(items) && AllReach(items) && out == EncodeAll(items) && Expanded(items) == src
    ensures Spaced(items, |src|)
    ensures |out| <= |src| + |src| / 255 + 16
  {
    hide Compressed, Repeats, Read32, Encode, IsTable;
    var n, table: map<nat, nat>, anchor: nat := |src|, map[], 0;
    out, items := [], [];
    NothingCompressed(src);
    if n >= 13 {
      var limit, matchLimit := n - 12, n - 5;
      var ip: nat := 0;
      NoTable(src);
      while ip < limit
        invariant anchor <= ip && IsTable(src, table, ip) && Compressed(src, items, out, anchor)
        decreases n - ip
      {
        var word := Read32(src, ip);
        if word !in table || ip - table[word] > 65535 {
          TableLater(src, table, ip, ip + 1);
          table := table[word := ip];
          ip := ip + 1;
          continue;
        }
        var ref := table[word];
        Found(src, table, ip);
        var length := MatchLength(src, ref, ip, matchLimit);
        TableLater(src, table, ip, ip + length);
        table := table[word := ip];
        AddMatch(src, items, out, anchor, ip, ip - ref, length);
        items := items + [Item(src[anchor..ip], ip - ref, length)];
        out := Sequence(out, src, anchor, ip, ip - ref, length);
        ip := ip + length;
        anchor := ip;
      }
    }
    AddLast(src, items, out, anchor);
    assert src[anchor..n] == src[anchor..];
    items := items + [Item(src[anchor..n], 0, 0)];
    out := Sequence(out, src, anchor, n, 0, 0);
  }

  lemma NoTable(src: seq<Byte>)
    ensures IsTable(src, map[], 0)
  {
  }

  // ---- the decompressor ------------------------------------------------------------------------------------

  /** The bytes e stand in src at ip. */
  ghost predicate Stands(src: seq<Byte>, ip: nat, e: seq<Byte>)
  {
    ip + |e| <= |src| && src[ip..ip + |e|] == e
  }

  lemma StandsApart(src: seq<Byte>, ip: nat, a: seq<Byte>, b: seq<Byte>)
    requires Stands(src, ip, a + b)
    ensures Stands(src, ip, a) && Stands(src, ip + |a|, b)
  {
    var e := a + b;
    assert e[..|a|] == a && e[|a|..] == b;
    assert src[ip..ip + |a|] == src[ip..ip + |e|][..|a|];
    assert src[ip + |a|..ip + |a| + |b|] == src[ip..ip + |e|][|a|..];
  }

  lemma StandsAt(src: seq<Byte>, ip: nat, e: seq<Byte>, k: nat)
    requires Stands(src, ip, e) && k < |e|
    ensures ip + k < |src| && src[ip + k] == e[k]
  {
    assert src[ip..ip + |e|][k] == src[ip + k];
  }

  /** The next sequence stands where those before it end. */
  lemma {:induction false} NextStands(items: seq<Item>, k: nat)
    requires AreItems(items) && k < |items|
    ensures Stands(EncodeAll(items), |EncodeAll(items[..k])|, Encode(items[k]))
    ensures |EncodeAll(items[..k + 1])| == |EncodeAll(items[..k])| + |Encode(items[k])| <= |EncodeAll(items)|
    decreases |items|
  {
    hide Encode;
    var n := |items| - 1;
    var front := items[..n];
    assert items[..k + 1][..k] == items[..k];
    if k < n {
      NextStands(front, k);
      assert front[..k] == items[..k] && front[..k + 1] == items[..k + 1];
      Longer(EncodeAll(front), Encode(items[n]), |EncodeAll(items[..k])|, Encode(items[k]));
    } else {
      assert items[..n + 1] == items;
    }
  }

  lemma Longer(src: seq<Byte>, more: seq<Byte>, ip: nat, e: seq<Byte>)
    requires Stands(src, ip, e)
    ensures Stands(src + more, ip, e)
  {
  }

  /** The length bytes that stand at ip0, added up. */
  method ReadLength(src: seq<Byte>, ip0: nat, start: nat, ghost extra: nat) returns (value: nat, ip: nat)
    requires Stands(src, ip0, LengthBytes(extra))
    ensures value == start + extra && ip == ip0 + |LengthBytes(extra)|
  {
    hide Stands;
    value, ip := start, ip0;
    ghost var rest := extra;
    while true
      invariant Stands(src, ip, LengthBytes(rest)) && value + rest == start + extra
      invariant ip + |LengthBytes(rest)| == ip0 + |LengthBytes(extra)|
      decreases rest
    {
      StandsAt(src, ip, LengthBytes(rest), 0);
      var b := src[ip];
      if rest >= 255 { StandsApart(src, ip, [255], LengthBytes(rest - 255)); }
      ip := ip + 1;
      value := value + b;
      if b != 255 {
        return;
      }
      rest := rest - 255;
    }
  }

  /** The length whose nibble was in the token. */
  method ReadSize(src: seq<Byte>, ip0: nat, nibble: nat, ghost length: nat) returns (value: nat, ip: nat)
    requires nibble == Nibble(length) && Stands(src, ip0, Extension(length))
    ensures value == length && ip == ip0 + |Extension(length)|
  {
    hide Stands, LengthBytes;
    value, ip := nibble, ip0;
    if nibble == 15 {
      value, ip := ReadLength(src, ip, 15, length - 15);
    }
  }

  /** The bytes of out below op are those of made, as far as out goes. */
  ghost predicate Holds(out: seq<Byte>, made: seq<Byte>)
  {
    forall j :: 0 <= j < |made| && j < |out| ==> out[j] == made[j]
  }

  lemma HoldsMore(out: seq<Byte>, made: seq<Byte>, b: Byte)
    requires Holds(out, made)
    ensures Holds(if |made| < |out| then out[|made| := b] else out, made + [b])
  {
  }

  /** src.copy: what does not fit is dropped. */
  method CopyLiterals(src: seq<Byte>, ip: nat, count: nat, out: array<Byte>, op: nat, ghost made: seq<Byte>)
    requires ip + count <= |src| && op == |made| && Holds(out[..], made)
    modifies out
    ensures Holds(out[..], made + src[ip..ip + count])
  {
    hide Holds;
    var i := 0;
    assert made + src[ip..ip] == made;
    while i < count
      invariant i <= count && Holds(out[..], made + src[ip..ip + i])
    {
      HoldsMore(out[..], made + src[ip..ip + i], src[ip + i]);
      assert made + src[ip..ip + i] + [src[ip + i]] == made + src[ip..ip + i + 1];
      if op + i < out.Length {
        out[op + i] := src[ip + i];
      }
      i := i + 1;
    }
  }

  /** The match, byte by byte. */
  method CopyMatch(out: array<Byte>, op0: nat, offset: nat, length: nat, ghost made: seq<Byte>) returns (op: nat)
    requires op0 == |made| && 0 < offset <= |made| && Holds(out[..], made)
    modifies out
    ensures Holds(out[..], Matched(made, offset, length)) && op == op0 + length == |Matched(made, offset, length)|
  {
    hide Matched;
    op := op0;
    var i := 0;
    MatchedNone(made, offset);
    while i < length
      invariant i <= length && op == op0 + i == |Matched(made, offset, i)| && Holds(out[..], Matched(made, offset, i))
    {
      ghost var m := Matched(made, offset, i);
      MatchedLonger(made, offset, i);
      HoldsMore(out[..], m, m[|m| - offset]);
      if op < out.Length {
        out[op] := out[op - offset];
      }
      i := i + 1;
      op := op + 1;
    }
  }

  lemma MatchedNone(out: seq<Byte>, offset: nat)
    requires 0 < offset <= |out|
    ensures Matched(out, offset, 0) == out
  {
  }

  /** Where the parts of sequence k stand. */
  lemma PartsStand(items: seq<Item>, k: nat)
    requires AreItems(items) && k < |items|
    ensures var src := EncodeAll(items); var x := items[k]; var ip := |EncodeAll(items[..k])|;
      var lp := ip + 1 + |Extension(|x.literals|)|;
      && ip < |src| && src[ip] == Token(x)
      && Stands(src, ip + 1, Extension(|x.literals|))
      && Stands(src, lp, x.literals) && Stands(src, lp + |x.literals|, Tail(x))
      && lp + |x.literals| + |Tail(x)| == |EncodeAll(items[..k + 1])| <= |src|
  {
    hide EncodeAll, Encode, Extension, Tail, Token, Stands;
    var src, x, ip := EncodeAll(items), items[k], |EncodeAll(items[..k])|;
    NextStands(items, k);
    EncodeIs(x);
    StandsApart(src, ip, [Token(x)], Extension(|x.literals|) + (x.literals + Tail(x)));
    StandsAt(src, ip, [Token(x)], 0);
    StandsApart(src, ip + 1, Extension(|x.literals|), x.literals + Tail(x));
    StandsApart(src, ip + 1 + |Extension(|x.literals|)|, x.literals, Tail(x));
  }

  lemma EncodeIs(x: Item)
    requires IsItem(x)
    ensures Encode(x) == [Token(x)] + (Extension(|x.literals|) + (x.literals + Tail(x)))
  {
  }

  /** And those of its match. */
  lemma TailStands(src: seq<Byte>, ip: nat, x: Item)
    requires IsItem(x) && x.length > 0 && Stands(src, ip, Tail(x))
    ensures ip + 2 <= |src| && src[ip] as nat + src[ip + 1] as nat * 256 == x.offset
    ensures Stands(src, ip + 2, Extension(x.length - 4)) && |Tail(x)| == 2 + |Extension(x.length - 4)|
  {
    hide Stands, Extension;
    var two := [x.offset % 256, x.offset / 256];
    StandsApart(src, ip, two, Extension(x.length - 4));
    StandsAt(src, ip, two, 0);
    StandsAt(src, ip, two, 1);
  }

  lemma TokenHalves(x: Item)
    requires IsItem(x)
    ensures Token(x) / 16 == Nibble(|x.literals|)
    ensures x.length > 0 ==> Token(x) % 16 == Nibble(x.length - 4)
  {
  }

  lemma {:induction false} PrefixReaches(items: seq<Item>, k: nat)
    requires AllReach(items) && k < |items|
    ensures Reaches(Expanded(items[..k]), items[k])
    decreases |items|
  {
    var n := |items| - 1;
    if k == n {
    } else {
      assert items[..n][..k] == items[..k];
      PrefixReaches(items[..n], k);
    }
  }

  lemma ExpandedNext(items: seq<Item>, k: nat)
    requires k < |items|
    ensures Expanded(items[..k + 1]) == Expand(Expanded(items[..k]), items[k])
  {
    assert items[..k + 1][..k] == items[..k];
  }

  lemma LastItem(items: seq<Item>, k: nat)
    requires IsBlock(items) && k < |items|
    ensures IsItem(items[k]) && (items[k].length == 0 <==> k == |items| - 1)
    ensures items[k].length == 0 ==> items[..k + 1] == items && Tail(items[k]) == []
    ensures items[k].length > 0 ==> |Tail(items[k])| >= 2 && k + 1 < |items|
  {
  }

  /** lz4Decompress of a block that was made from `items`; it fails just when that stands for another size. */
  method Decompress(src: seq<Byte>, size: nat, ghost items: seq<Item>) returns (out: array<Byte>, ok: bool)
    requires IsBlock(items) && AllReach(items) && src == EncodeAll(items)
    ensures fresh(out) && out.Length == size && (ok <==> |Expanded(items)| == size)
    ensures ok ==> out[..] == Expanded(items)
  {
    hide EncodeAll, Expanded, AllReach, Extension, Tail, Token, Stands, Holds, Matched, Reaches, Nibble;
    out := new Byte[size](i => 0);
    var ip: nat, op: nat := 0, 0;
    ghost var k := 0;
    NothingDecoded(items, out[..]);
    while true
      invariant k < |items| && ip == |EncodeAll(items[..k])| && op == |Expanded(items[..k])|
      invariant Holds(out[..], Expanded(items[..k]))
      decreases |items| - k
    {
      ghost var x, made := items[k], Expanded(items[..k]);
      LastItem(items, k);
      PartsStand(items, k);
      TokenHalves(x);
      PrefixReaches(items, k);
      ExpandedNext(items, k);
      var token := src[ip];
      var literals: nat;
      literals, ip := ReadSize(src, ip + 1, token / 16, |x.literals|);
      LiteralsStand(src, ip, x.literals);
      CopyLiterals(src, ip, literals, out, op, made);
      ip := ip + literals;
      op := op + literals;
      if ip >= |src| {
        break;
      }
      TailStands(src, ip, x);
      var offset := src[ip] as nat + src[ip + 1] as nat * 256;
      var length: nat;
      length, ip := ReadSize(src, ip + 2, token % 16, x.length - 4);
      ReachesIs(made, x);
      op := CopyMatch(out, op, offset, length + 4, made + x.literals);
      k := k + 1;
    }
    ok := op == size;
    AllHeld(items, out[..]);
  }

  lemma NothingDecoded(items: seq<Item>, out: seq<Byte>)
    ensures |EncodeAll(items[..0])| == 0 && |Expanded(items[..0])| == 0 && Holds(out, Expanded(items[..0]))
  {
  }

  lemma LiteralsStand(src: seq<Byte>, ip: nat, literals: seq<Byte>)
    requires Stands(src, ip, literals)
    ensures ip + |literals| <= |src| && src[ip..ip + |literals|] == literals
  {
  }

  lemma ReachesIs(made: seq<Byte>, x: Item)
    requires Reaches(made, x)
    ensures x.length > 0 ==> 0 < x.offset <= |made + x.literals|
  {
  }

  lemma AllHeld(items: seq<Item>, out: seq<Byte>)
    requires Holds(out, Expanded(items))
    ensures |out| == |Expanded(items)| ==> out == Expanded(items)
  {
  }

  /** The check before a pack is written never fails: what was compressed comes back, byte for byte. */
  method RoundTrip(src: seq<Byte>) returns (packed: seq<Byte>, back: array<Byte>, ok: bool)
    ensures ok && back[..] == src && |packed| <= |src| + |src| / 255 + 16
  {
    ghost var items;
    packed, items := Compress(src);
    back, ok := Decompress(packed, |src|, items);
  }
}
