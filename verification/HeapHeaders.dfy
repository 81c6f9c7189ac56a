/**
 * The headers that describe the blocks in memory. Memory is its 32-bit words, each kept at its own byte address, a
 * multiple of 4. A block's header is two words: the size of the block below while that one is free, and the head,
 * which is the payload size with two flags in its low bits.
 */
module HeapHeaders {
  import opened HeapShape
  import opened Powers

  /** A payload size, 0 for the epilogue. */
  function Payload(h: Shape, c: nat): nat
  {
    if c in h.size then h.size[c] else 0
  }

  /** The flag that says the header at c stands just above a free block. */
  function PrevFlag(h: Shape, c: nat): nat
  {
    if h.OverFree(c) then 2 else 0
  }

  function Head(h: Shape, c: nat): nat
  {
    Payload(h, c) + (if c in h.free then 1 else 0) + PrevFlag(h, c)
  }

  // The parts of a head word.

  function SizeIn(head: nat): nat
  {
    head - head % 8
  }

  predicate FreeIn(head: nat)
  {
    head % 2 == 1
  }

  predicate PrevFreeIn(head: nat)
  {
    head / 2 % 2 == 1
  }

  function WithFree(head: nat): nat
  {
    if FreeIn(head) then head else head + 1
  }

  function WithoutFree(head: nat): nat
  {
    if FreeIn(head) then head - 1 else head
  }

  function WithPrev(head: nat): nat
  {
    if PrevFreeIn(head) then head else head + 2
  }

  function WithoutPrev(head: nat): nat
  {
    if PrevFreeIn(head) then head - 2 else head
  }

  /** Just the flag of the block below. */
  function PrevIn(head: nat): nat
  {
    if PrevFreeIn(head) then 2 else 0
  }

  lemma HeadParts(size: nat, free: bool, prev: bool)
    requires size % 8 == 0
    ensures var head := size + (if free then 1 else 0) + (if prev then 2 else 0);
      && SizeIn(head) == size && FreeIn(head) == free && PrevFreeIn(head) == prev && head / 4 % 2 == 0
      && WithFree(head) == head + (if free then 0 else 1) && WithoutFree(head) == head - (if free then 1 else 0)
      && WithPrev(head) == head + (if prev then 0 else 2) && WithoutPrev(head) == head - (if prev then 2 else 0)
      && PrevIn(head) == if prev then 2 else 0
  {
    var head := size + (if free then 1 else 0) + (if prev then 2 else 0);
    HeadBits(size / 8, if free then 1 else 0, if prev then 1 else 0, head);
  }

  lemma HeadBits(eighths: nat, free: nat, prev: nat, head: nat)
    requires free < 2 && prev < 2 && head == 8 * eighths + 2 * prev + free
    ensures head % 8 == 2 * prev + free && head % 2 == free && head / 2 % 2 == prev && head / 4 % 2 == 0
  {
    DivModUnique(head, eighths, 8, 2 * prev + free);
    DivModUnique(head, 4 * eighths + prev, 2, free);
    DivModUnique(4 * eighths + prev, 2 * eighths, 2, prev);
    DivModUnique(head, 2 * eighths, 4, 2 * prev + free);
    DivModUnique(2 * eighths, eighths, 2, 0);
  }

  ghost predicate IsHeader(h: Shape, c: nat)
  {
    c in h.size || c == h.epi
  }

  /** The head at c is right; at `loose` it may still say that the block below is free though it no longer is. */
  ghost predicate TagAt(m: seq<nat>, h: Shape, c: nat, loose: nat)
  {
    c + 8 <= |m| && (m[c + 4] == Head(h, c) || (c == loose && !h.OverFree(c) && m[c + 4] == Head(h, c) + 2))
  }

  /** The size of free block f stands in the header above it. */
  ghost predicate FootAt(m: seq<nat>, h: Shape, f: nat)
  {
    f in h.size ==> h.End(f) + 8 <= |m| && m[h.End(f)] == h.size[f]
  }

  ghost predicate Tagged(m: seq<nat>, h: Shape, loose: nat)
  {
    && (forall c :: c in h.size ==> TagAt(m, h, c, loose))
    && TagAt(m, h, h.epi, loose)
    && (forall f :: f in h.free ==> FootAt(m, h, f))
  }

  /** A header at c, and what stands below it. */
  ghost predicate Placed(h: Shape, c: nat)
  {
    && IsHeader(h, c) && c % 8 == 0 && c <= h.epi && (h.epi !in h.size) && h.epi % 8 == 0 && h.epi !in h.free
    && (c in h.size ==> Fits(h, c))
    && (c in h.below ==> Rests(h, c) && h.below[c] != c)
  }

  lemma IsPlaced(h: Shape, c: nat)
    requires Tiles(h) && IsHeader(h, c)
    ensures Placed(h, c)
  {
    hide Clear;
    if h.epi in h.size { InSpan(h, h.epi); }
    hide Fits, Rests;
    if c in h.size { InSpan(h, c); }
    if c in h.below { RestsBelow(h, c); }
  }

  lemma RestsBelow(h: Shape, c: nat)
    requires c in h.below && Rests(h, c)
    ensures h.below[c] != c
  {
  }

  /** What the two words of a header and the foot of a block depend on: m2 keeps them. */
  lemma SameTag(m: seq<nat>, m2: seq<nat>, h: Shape, c: nat, loose: nat)
    requires TagAt(m, h, c, loose) && |m2| == |m| && m2[c + 4] == m[c + 4]
    ensures TagAt(m2, h, c, loose)
  {
  }

  lemma SameFoot(m: seq<nat>, m2: seq<nat>, h: Shape, f: nat)
    requires FootAt(m, h, f) && |m2| == |m| && (f in h.size ==> m2[h.End(f)] == m[h.End(f)])
    ensures FootAt(m2, h, f)
  {
  }

  /** Memory that keeps both words of every header describes the same blocks. */
  lemma SameHeaders(m: seq<nat>, m2: seq<nat>, h: Shape, loose: nat)
    requires Tiles(h) && Tagged(m, h, loose) && |m2| == |m|
    requires forall c: nat :: IsHeader(h, c) && c + 8 <= |m| ==> m2[c] == m[c] && m2[c + 4] == m[c + 4]
    ensures Tagged(m2, h, loose)
  {
    hide TagAt, FootAt, Fits, Rests, Clear, Shape.End;
    forall c | c in h.size ensures TagAt(m2, h, c, loose) {
      TagBound(m, h, c, loose);
      assert IsHeader(h, c);
      SameTag(m, m2, h, c, loose);
    }
    assert IsHeader(h, h.epi);
    TagBound(m, h, h.epi, loose);
    SameTag(m, m2, h, h.epi, loose);
    forall f | f in h.free ensures FootAt(m2, h, f) {
      InSpan(h, f);
      assert IsHeader(h, h.End(f));
      FootBound(m, h, f);
      SameFoot(m, m2, h, f);
    }
  }

  /** Every header lies in memory. */
  lemma HeaderBound(m: seq<nat>, h: Shape, loose: nat, c: nat)
    requires Tagged(m, h, loose) && IsHeader(h, c)
    ensures c + 8 <= |m|
  {
    hide FootAt;
    assert TagAt(m, h, c, loose);
  }

  lemma TagBound(m: seq<nat>, h: Shape, c: nat, loose: nat)
    requires TagAt(m, h, c, loose)
    ensures c + 8 <= |m|
  {
  }

  lemma FootBound(m: seq<nat>, h: Shape, f: nat)
    requires FootAt(m, h, f) && f in h.size
    ensures h.End(f) + 8 <= |m|
  {
  }

  /** The heads of all headers, and the feet of all free blocks, make the description. */
  lemma TagsMake(m: seq<nat>, h: Shape, loose: nat)
    requires forall c: nat :: IsHeader(h, c) ==> TagAt(m, h, c, loose)
    requires forall f: nat :: f in h.free ==> FootAt(m, h, f)
    ensures Tagged(m, h, loose)
  {
    hide TagAt, FootAt;
    assert IsHeader(h, h.epi);
  }

  lemma TagOf(m: seq<nat>, h: Shape, loose: nat, c: nat)
    requires Tagged(m, h, loose) && IsHeader(h, c) && Tiles(h)
    ensures TagAt(m, h, c, loose) && Placed(h, c) && c > 0
  {
    hide TagAt, FootAt, Placed;
    IsPlaced(h, c);
    hide Fits, Rests, Clear;
    if c in h.size { InSpan(h, c); }
  }

  lemma FootOf(m: seq<nat>, h: Shape, loose: nat, f: nat)
    requires Tagged(m, h, loose) && f in h.free && Tiles(h)
    ensures f in h.size && FootAt(m, h, f) && f % 8 == 0 && h.End(f) % 8 == 0 && h.End(f) <= h.epi
  {
    hide TagAt, FootAt, Fits, Rests, Clear, Shape.End;
    InSpan(h, f);
  }

  lemma EndIsHeader(h: Shape, b: nat)
    requires Tiles(h) && b in h.size
    ensures IsHeader(h, b) && IsHeader(h, h.End(b)) && Fits(h, b)
  {
    hide Fits, Rests, Clear;
    InSpan(h, b);
  }

  // ---- a free block taken into use ---------------------------------------------------------------------

  lemma TakeTag(m: seq<nat>, h: Shape, b: nat, e: nat, c: nat)
    requires b in h.size && b in h.free && e == h.End(b) && b + 8 <= |m| && e + 8 <= |m| && Fits(h, b)
    requires TagAt(m, h, b, 0) && TagAt(m, h, e, 0) && TagAt(m, h, c, 0) && b > 0 && e > 0 && c > 0
    requires Placed(h, c) && Placed(h, e)
    ensures TagAt(m[b + 4 := WithoutFree(m[b + 4])][e + 4 := WithoutPrev(m[e + 4])], h.Taken(b), c, 0)
  {
    HeadParts(h.size[b], true, h.OverFree(b));
    HeadParts(Payload(h, e), e in h.free, true);
    hide SizeIn, FreeIn, PrevFreeIn, WithFree, WithoutFree, WithPrev, WithoutPrev, PrevIn;
  }

  lemma TakeFoot(m: seq<nat>, h: Shape, b: nat, e: nat, x: nat, y: nat, f: nat)
    requires f in h.Taken(b).free && FootAt(m, h, f) && b + 8 <= |m| && e + 8 <= |m|
    requires f in h.size && h.End(f) % 8 == 0 && b % 8 == 0 && e % 8 == 0
    ensures FootAt(m[b + 4 := x][e + 4 := y], h.Taken(b), f)
  {
  }

  /** Clearing the flags of free block b, in its head and in the header above it, makes it a used one. */
  lemma TakeTags(m: seq<nat>, m2: seq<nat>, h: Shape, b: nat, e: nat)
    requires b + 8 <= |m| && e + 8 <= |m|
    requires m2 == m[b + 4 := WithoutFree(m[b + 4])][e + 4 := WithoutPrev(m[e + 4])]
    requires Tiles(h) && Tagged(m, h, 0) && b in h.free && b in h.size && e == h.End(b)
    ensures Tagged(m2, h.Taken(b), 0)
  {
    hide Tiles, Tagged, TagAt, FootAt, Fits, Rests, Clear, Placed, WithoutFree, WithoutPrev, Shape.End;
    EndIsHeader(h, b);
    TagOf(m, h, 0, b);
    TagOf(m, h, 0, e);
    FootOf(m, h, 0, b);
    var x, y := WithoutFree(m[b + 4]), WithoutPrev(m[e + 4]);
    forall c: nat | IsHeader(h.Taken(b), c) ensures TagAt(m2, h.Taken(b), c, 0) {
      TagOf(m, h, 0, c);
      TakeTag(m, h, b, e, c);
    }
    forall f: nat | f in h.Taken(b).free ensures FootAt(m2, h.Taken(b), f) {
      FootOf(m, h, 0, f);
      TakeFoot(m, h, b, e, x, y, f);
    }
    TagsMake(m2, h.Taken(b), 0);
  }

  // ---- a used block made free ---------------------------------------------------------------------------

  /** The head word with its flag of the block below set. */
  lemma FlagSet(m: seq<nat>, h: Shape, c: nat, loose: nat)
    requires TagAt(m, h, c, loose) && Placed(h, c) && !h.OverFree(c)
    ensures WithPrev(m[c + 4]) == Head(h, c) + 2
  {
    HeadParts(Payload(h, c), c in h.free, false);
    HeadParts(Payload(h, c), c in h.free, true);
  }

  lemma FreeTag(m: seq<nat>, h: Shape, b: nat, e: nat, loose: nat, c: nat)
    requires b in h.size && b !in h.free && e == h.End(b) && b + 8 <= |m| && e + 8 <= |m| && Fits(h, b)
    requires loose != b && (loose == 0 || loose == e) && b > 0 && e > 0 && c > 0
    requires TagAt(m, h, b, loose) && TagAt(m, h, e, loose) && TagAt(m, h, c, loose) && Placed(h, c) && Placed(h, e)
    ensures TagAt(m[b + 4 := WithFree(m[b + 4])][e := h.size[b]][e + 4 := WithPrev(m[e + 4])], h.Freed(b), c, 0)
  {
    FlagSet(m, h, e, loose);
    HeadParts(h.size[b], false, h.OverFree(b));
    hide SizeIn, FreeIn, PrevFreeIn, WithFree, WithoutFree, WithPrev, WithoutPrev, PrevIn;
  }

  lemma FreeFoot(m: seq<nat>, h: Shape, b: nat, e: nat, x: nat, y: nat, f: nat)
    requires b in h.size && e == h.End(b) && b + 8 <= |m| && e + 8 <= |m| && Fits(h, b)
    requires f in h.Freed(b).free && (f in h.free ==> FootAt(m, h, f))
    requires f in h.size ==> Fits(h, f)
    ensures FootAt(m[b + 4 := x][e := h.size[b]][e + 4 := y], h.Freed(b), f)
  {
  }

  /** Setting those flags, and writing the size above the block, makes used block b a free one. */
  lemma FreeTags(m: seq<nat>, m2: seq<nat>, h: Shape, b: nat, e: nat, loose: nat)
    requires b + 8 <= |m| && e + 8 <= |m| && b in h.size
    requires m2 == m[b + 4 := WithFree(m[b + 4])][e := h.size[b]][e + 4 := WithPrev(m[e + 4])]
    requires Tiles(h) && Tagged(m, h, loose) && b !in h.free && e == h.End(b) && (loose == 0 || loose == e)
    ensures Tagged(m2, h.Freed(b), 0)
  {
    hide Tiles, Tagged, TagAt, FootAt, Fits, Rests, Clear, Placed, WithFree, WithPrev, Shape.End;
    EndIsHeader(h, b);
    InSpan(h, b);
    TagOf(m, h, loose, b);
    TagOf(m, h, loose, e);
    var x, y := WithFree(m[b + 4]), WithPrev(m[e + 4]);
    forall c: nat | IsHeader(h.Freed(b), c) ensures TagAt(m2, h.Freed(b), c, 0) {
      TagOf(m, h, loose, c);
      FreeTag(m, h, b, e, loose, c);
    }
    forall f: nat | f in h.Freed(b).free ensures FootAt(m2, h.Freed(b), f) {
      if f in h.free { FootOf(m, h, loose, f); EndIsHeader(h, f); }
      FreeFoot(m, h, b, e, x, y, f);
    }
    TagsMake(m2, h.Freed(b), 0);
  }

  // ---- joining --------------------------------------------------------------------------------------

  lemma JoinUpTag(m: seq<nat>, h: Shape, b: nat, n: nat, c: nat)
    requires b in h.size && n in h.size && n in h.free && b !in h.free && n == h.End(b) && b + 8 <= |m|
    requires Fits(h, b) && Fits(h, n) && TagAt(m, h, b, 0) && TagAt(m, h, c, 0) && b > 0 && c > 0 && Placed(h, c)
    requires IsHeader(h.Joined(b), c)
    ensures TagAt(m[b + 4 := m[b + 4] + 8 + h.size[n]], h.Joined(b), c, h.End(n))
  {
  }

  lemma JoinFoot(m: seq<nat>, h: Shape, b: nat, n: nat, w: nat, x: nat, f: nat)
    requires b in h.size && n in h.size && n == h.End(b) && b !in h.free && w + 8 <= |m| && w % 8 == 0
    requires f in h.Joined(b).free && FootAt(m, h, f) && (f in h.size ==> Fits(h, f))
    ensures FootAt(m[w + 4 := x], h.Joined(b), f)
  {
  }

  /** Used block b takes in the free block above it; the flag above them both is left as it is. */
  lemma JoinUpTags(m: seq<nat>, m2: seq<nat>, h: Shape, b: nat, n: nat)
    requires b + 8 <= |m| && b in h.size && n == h.End(b) && n in h.size
    requires m2 == m[b + 4 := m[b + 4] + 8 + h.size[n]]
    requires Tiles(h) && Tagged(m, h, 0) && b !in h.free && n in h.free
    ensures Tagged(m2, h.Joined(b), h.End(n))
  {
    hide Tiles, Tagged, TagAt, FootAt, Fits, Rests, Clear, Placed, Shape.End;
    EndIsHeader(h, b);
    EndIsHeader(h, n);
    InSpan(h, b);
    TagOf(m, h, 0, b);
    TagBound(m, h, b, 0);
    forall c: nat | IsHeader(h.Joined(b), c) ensures TagAt(m2, h.Joined(b), c, h.End(n)) {
      TagOf(m, h, 0, c);
      JoinUpTag(m, h, b, n, c);
    }
    forall f: nat | f in h.Joined(b).free ensures FootAt(m2, h.Joined(b), f) {
      FootOf(m, h, 0, f);
      EndIsHeader(h, f);
      JoinFoot(m, h, b, n, b, m[b + 4] + 8 + h.size[n], f);
    }
    TagsMake(m2, h.Joined(b), h.End(n));
  }

  lemma JoinDownTag(m: seq<nat>, h: Shape, p: nat, b: nat, loose: nat, c: nat)
    requires p in h.size && b in h.size && p in h.free && b !in h.free && b == h.End(p) && p + 8 <= |m|
    requires loose == 0 || loose == h.End(b)
    requires Fits(h, p) && Fits(h, b) && TagAt(m, h, p, loose)
    requires TagAt(m, h, c, loose) && p > 0 && c > 0 && Placed(h, c)
    requires IsHeader(h.JoinedDown(p), c)
    ensures TagAt(m[p + 4 := WithoutFree(m[p + 4]) + 8 + h.size[b]], h.JoinedDown(p), c, h.End(b))
  {
    HeadParts(h.size[p], true, h.OverFree(p));
    hide SizeIn, FreeIn, PrevFreeIn, WithFree, WithoutFree, WithPrev, WithoutPrev, PrevIn;
  }

  lemma JoinDownFoot(m: seq<nat>, h: Shape, p: nat, b: nat, x: nat, f: nat)
    requires p in h.size && b in h.size && b == h.End(p) && p + 8 <= |m| && p % 8 == 0
    requires f in h.JoinedDown(p).free && FootAt(m, h, f) && (f in h.size ==> Fits(h, f))
    ensures FootAt(m[p + 4 := x], h.JoinedDown(p), f)
  {
  }

  /** The free block below used block b takes b in and is a used block. */
  lemma JoinDownTags(m: seq<nat>, m2: seq<nat>, h: Shape, p: nat, b: nat, loose: nat)
    requires p + 8 <= |m| && p in h.size && b == h.End(p) && b in h.size && (loose == 0 || loose == h.End(b))
    requires m2 == m[p + 4 := WithoutFree(m[p + 4]) + 8 + h.size[b]]
    requires Tiles(h) && Tagged(m, h, loose) && p in h.free && b !in h.free
    ensures Tagged(m2, h.JoinedDown(p), h.End(b))
  {
    hide Tiles, Tagged, TagAt, FootAt, Fits, Rests, Clear, Placed, WithoutFree, Shape.End;
    EndIsHeader(h, p);
    EndIsHeader(h, b);
    InSpan(h, p);
    TagOf(m, h, loose, p);
    var g, x := h.JoinedDown(p), WithoutFree(m[p + 4]) + 8 + h.size[b];
    forall c: nat | IsHeader(g, c) ensures TagAt(m2, g, c, h.End(b)) {
      JoinedHeader(h, p, b, c);
      TagOf(m, h, loose, c);
      JoinDownTag(m, h, p, b, loose, c);
    }
    forall f: nat | f in g.free ensures FootAt(m2, g, f) {
      FootOf(m, h, loose, f);
      EndIsHeader(h, f);
      JoinDownFoot(m, h, p, b, x, f);
    }
    TagsMake(m2, g, h.End(b));
  }

  lemma JoinedHeader(h: Shape, p: nat, b: nat, c: nat)
    requires p in h.size && b in h.size && b == h.End(p) && IsHeader(h.JoinedDown(p), c)
    ensures IsHeader(h, c)
  {
  }

  // ---- settling the flag left behind ---------------------------------------------------------------------

  lemma SettleTag(m: seq<nat>, h: Shape, x: nat, c: nat)
    requires TagAt(m, h, x, x) && TagAt(m, h, c, x) && Placed(h, x) && !h.OverFree(x)
    ensures TagAt(m[x + 4 := WithoutPrev(m[x + 4])], h, c, 0)
  {
    HeadParts(Payload(h, x), x in h.free, false);
    HeadParts(Payload(h, x), x in h.free, true);
  }

  /** Clearing the flag of a header that stands above a used block. */
  lemma SettleTags(m: seq<nat>, m2: seq<nat>, h: Shape, x: nat)
    requires x + 8 <= |m| && m2 == m[x + 4 := WithoutPrev(m[x + 4])]
    requires Tiles(h) && Tagged(m, h, x) && IsHeader(h, x) && !h.OverFree(x)
    ensures Tagged(m2, h, 0)
  {
    hide Tiles, Tagged, TagAt, FootAt, Fits, Rests, Clear, Placed, WithoutPrev, Shape.End;
    TagOf(m, h, x, x);
    TagBound(m, h, x, x);
    IsPlaced(h, x);
    PlacedAligned(h, x);
    forall c: nat | IsHeader(h, c) ensures TagAt(m2, h, c, 0) {
      TagOf(m, h, x, c);
      SettleTag(m, h, x, c);
    }
    forall f: nat | f in h.free ensures FootAt(m2, h, f) {
      FootOf(m, h, x, f);
      FootBound(m, h, f);
      SameFoot(m, m2, h, f);
    }
    TagsMake(m2, h, 0);
  }

  lemma PlacedAligned(h: Shape, c: nat)
    requires Placed(h, c)
    ensures c % 8 == 0
  {
  }

  // ---- splitting --------------------------------------------------------------------------------------

  lemma SplitTag(m: seq<nat>, h: Shape, b: nat, s: nat, c: nat)
    requires b in h.size && b !in h.free && s % 8 == 0 && s >= 8 && s + 16 <= h.size[b] && b + 16 + s <= |m| && b > 0
    requires Fits(h, b) && TagAt(m, h, b, 0) && IsHeader(h.Split(b, s), c)
    requires b + 8 + s !in h.size && b + 8 + s !in h.free
    requires c != b + 8 + s ==> TagAt(m, h, c, 0) && Placed(h, c) && c > 0
    ensures TagAt(m[b + 8 + s + 4 := h.size[b] - s - 8][b + 4 := s + PrevIn(m[b + 4])], h.Split(b, s), c, 0)
  {
    HeadParts(h.size[b], false, h.OverFree(b));
    hide SizeIn, FreeIn, PrevFreeIn, WithFree, WithoutFree, WithPrev, WithoutPrev, PrevIn;
  }

  lemma SplitFoot(m: seq<nat>, h: Shape, b: nat, s: nat, x: nat, y: nat, f: nat)
    requires b in h.size && s % 8 == 0 && b % 8 == 0 && s + 16 <= h.size[b] && b + 16 + s <= |m|
    requires f in h.free && f != b && FootAt(m, h, f) && f in h.size && Fits(h, f) && f != b + 8 + s
    ensures FootAt(m[b + 8 + s + 4 := x][b + 4 := y], h.Split(b, s), f)
  {
  }

  /** A head written inside used block b, and b's own head cut to match, make two used blocks of it. */
  lemma SplitTags(m: seq<nat>, m2: seq<nat>, h: Shape, b: nat, s: nat)
    requires b in h.size && s % 8 == 0 && s >= 8 && s + 16 <= h.size[b] && b + 16 + s <= |m|
    requires m2 == m[b + 8 + s + 4 := h.size[b] - s - 8][b + 4 := s + PrevIn(m[b + 4])]
    requires Tiles(h) && Tagged(m, h, 0) && b !in h.free
    ensures Tagged(m2, h.Split(b, s), 0)
  {
    hide Tiles, Tagged, TagAt, FootAt, Fits, Rests, Clear, Placed, PrevIn;
    EndIsHeader(h, b);
    InSpan(h, b);
    TagOf(m, h, 0, b);
    TagOf(m, h, 0, h.End(b));
    TagBound(m, h, h.End(b), 0);
    var rest := b + 8 + s;
    NoneInside(h, b, rest);
    FreeAreBlocks(h);
    forall c: nat | IsHeader(h.Split(b, s), c) ensures TagAt(m2, h.Split(b, s), c, 0) {
      if c != rest { TagOf(m, h, 0, c); }
      SplitTag(m, h, b, s, c);
    }
    forall f: nat | f in h.Split(b, s).free ensures FootAt(m2, h.Split(b, s), f) {
      FootOf(m, h, 0, f);
      EndIsHeader(h, f);
      SplitFoot(m, h, b, s, h.size[b] - s - 8, s + PrevIn(m[b + 4]), f);
    }
    TagsMake(m2, h.Split(b, s), 0);
  }

  lemma FreeAreBlocks(h: Shape)
    requires Tiles(h)
    ensures h.free <= h.size.Keys
  {
    hide Fits, Rests, Clear;
  }

  // ---- at the top ---------------------------------------------------------------------------------------

  lemma RaiseTag(m: seq<nat>, h: Shape, b: nat, s: nat, to: nat, loose: nat, c: nat)
    requires b in h.size && h.End(b) == h.epi && to == b + 8 + s && s > h.size[b] && s % 8 == 0 && to + 8 <= |m|
    requires Fits(h, b) && b > 0 && b != loose && TagAt(m, h, b, loose) && (loose == 0 || loose == h.epi)
    requires c == to || (c in h.size && TagAt(m, h, c, loose) && Placed(h, c) && c > 0)
    requires to !in h.size && to !in h.free && h.epi !in h.size
    ensures TagAt(m[to := 0][to + 4 := 0][b + 4 := s + PrevIn(m[b + 4])], h.TakenRaised(b, s), c, 0)
  {
    HeadParts(h.size[b], b in h.free, h.OverFree(b));
    hide SizeIn, FreeIn, PrevFreeIn, WithFree, WithoutFree, WithPrev, WithoutPrev, PrevIn;
  }

  lemma RaiseFoot(m: seq<nat>, h: Shape, b: nat, s: nat, to: nat, x: nat, f: nat)
    requires b in h.size && h.End(b) == h.epi && to == b + 8 + s && s > h.size[b] && s % 8 == 0 && to + 8 <= |m|
    requires Fits(h, b) && f in h.free && f != b && FootAt(m, h, f) && (f in h.size ==> Fits(h, f))
    ensures FootAt(m[to := 0][to + 4 := 0][b + 4 := x], h.TakenRaised(b, s), f)
  {
  }

  /** Nothing of the heap stands above its epilogue. */
  lemma NothingAbove(h: Shape, c: nat)
    requires Tiles(h) && c >= h.epi
    ensures c !in h.size && c !in h.free
  {
    hide Fits, Rests, Clear;
    if c in h.size { InSpan(h, c); }
  }

  /** A new epilogue above the last block, and the block's head grown to match. */
  lemma RaiseTags(m: seq<nat>, m2: seq<nat>, h: Shape, b: nat, s: nat, to: nat, loose: nat)
    requires b in h.size && h.End(b) == h.epi && to == b + 8 + s && s > h.size[b] && s % 8 == 0 && to + 8 <= |m|
    requires m2 == m[to := 0][to + 4 := 0][b + 4 := s + PrevIn(m[b + 4])] && (loose == 0 || loose == h.epi)
    requires Tiles(h) && Tagged(m, h, loose)
    ensures Tagged(m2, h.TakenRaised(b, s), 0)
  {
    hide Tiles, Tagged, TagAt, FootAt, Fits, Rests, Clear, Placed, PrevIn, Shape.OverFree;
    EndIsHeader(h, b);
    InSpan(h, b);
    TagOf(m, h, loose, b);
    NothingAbove(h, to);
    NothingAbove(h, h.epi);
    var g := h.TakenRaised(b, s);
    forall c: nat | IsHeader(g, c) ensures TagAt(m2, g, c, 0) {
      if c != to { TagOf(m, h, loose, c); }
      RaiseTag(m, h, b, s, to, loose, c);
    }
    forall f: nat | f in g.free ensures FootAt(m2, g, f) {
      FootOf(m, h, loose, f);
      EndIsHeader(h, f);
      RaiseFoot(m, h, b, s, to, s + PrevIn(m[b + 4]), f);
    }
    TagsMake(m2, g, 0);
  }

  lemma ExtendTag(m: seq<nat>, h: Shape, s: nat, to: nat, c: nat)
    requires to == h.epi + 8 + s && s % 8 == 0 && s >= 8 && to + 8 <= |m| && !h.OverFree(h.epi)
    requires c == to || (IsHeader(h, c) && TagAt(m, h, c, 0) && Placed(h, c) && c > 0)
    requires to !in h.size && to !in h.free && h.epi !in h.size && h.epi !in h.free && h.epi % 8 == 0
    ensures TagAt(m[to := 0][to + 4 := 0][h.epi + 4 := s], h.Extended(s), c, 0)
  {
  }

  lemma ExtendFoot(m: seq<nat>, h: Shape, s: nat, to: nat, f: nat)
    requires to == h.epi + 8 + s && s % 8 == 0 && s >= 8 && to + 8 <= |m| && h.epi % 8 == 0
    requires f in h.free && f in h.size && f != h.epi && FootAt(m, h, f) && h.End(f) % 8 == 0 && h.End(f) <= h.epi
    ensures FootAt(m[to := 0][to + 4 := 0][h.epi + 4 := s], h.Extended(s), f)
  {
  }

  /** A new epilogue, and a used block where the old one was. */
  lemma ExtendTags(m: seq<nat>, m2: seq<nat>, h: Shape, s: nat, to: nat)
    requires to == h.epi + 8 + s && s % 8 == 0 && s >= 8 && to + 8 <= |m|
    requires m2 == m[to := 0][to + 4 := 0][h.epi + 4 := s]
    requires Tiles(h) && Tagged(m, h, 0) && !h.OverFree(h.epi)
    ensures Tagged(m2, h.Extended(s), 0)
  {
    hide Tiles, Tagged, TagAt, FootAt, Fits, Rests, Clear, Placed, Shape.End, Shape.OverFree;
    NothingAbove(h, to);
    NothingAbove(h, h.epi);
    IsPlaced(h, h.epi);
    PlacedAligned(h, h.epi);
    var g := h.Extended(s);
    forall c: nat | IsHeader(g, c) ensures TagAt(m2, g, c, 0) {
      if c != to { TagOf(m, h, 0, c); }
      ExtendTag(m, h, s, to, c);
    }
    forall f: nat | f in g.free ensures FootAt(m2, g, f) {
      FootOf(m, h, 0, f);
      ExtendFoot(m, h, s, to, f);
    }
    TagsMake(m2, g, 0);
  }

  // ---- what is written elsewhere ----------------------------------------------------------------------------

  /** Word w is one of the two list links a free block of S keeps in its payload. */
  predicate IsLink(S: set<nat>, w: nat)
  {
    (w >= 8 && w - 8 in S) || (w >= 12 && w - 12 in S)
  }

  /** Only links of blocks of S, and words above the epilogue, are different. */
  ghost predicate OnlyLinks(m: seq<nat>, m2: seq<nat>, S: set<nat>, top: nat)
  {
    |m2| == |m| && forall w :: 0 <= w < |m| && m2[w] != m[w] ==> IsLink(S, w) || w >= top
  }

  lemma LinkIsNoHeader(h: Shape, S: set<nat>, c: nat, w: nat)
    requires Tiles(h) && S <= h.size.Keys && IsHeader(h, c) && (w == c || w == c + 4)
    ensures !IsLink(S, w)
  {
    hide Tiles, Fits, Rests, Clear;
    IsPlaced(h, c);
    PlacedAligned(h, c);
    if w >= 8 && w - 8 in S { LinkInside(h, w - 8, c); }
    if w >= 12 && w - 12 in S { LinkInside(h, w - 12, c); }
  }

  lemma LinkInside(h: Shape, b: nat, c: nat)
    requires Tiles(h) && b in h.size && IsHeader(h, c) && b < c
    ensures b + 16 <= c && b % 8 == 0
  {
    hide Tiles, Fits, Rests, Clear;
    InSpan(h, b);
    if c in h.size && c < b + 16 { NoneInside(h, b, c); }
  }

  /** List links are no part of the headers. */
  lemma LinksKeepTags(m: seq<nat>, m2: seq<nat>, h: Shape, loose: nat, S: set<nat>)
    requires Tiles(h) && Tagged(m, h, loose) && S <= h.size.Keys && OnlyLinks(m, m2, S, h.epi + 8)
    ensures Tagged(m2, h, loose)
  {
    forall c: nat | IsHeader(h, c) && c + 8 <= |m| ensures m2[c] == m[c] && m2[c + 4] == m[c + 4] {
      hide Tiles, Tagged, IsLink;
      LinkIsNoHeader(h, S, c, c);
      LinkIsNoHeader(h, S, c, c + 4);
      IsPlaced(h, c);
      PlacedLow(h, c);
    }
    hide *;
    SameHeaders(m, m2, h, loose);
  }

  lemma PlacedLow(h: Shape, c: nat)
    requires Placed(h, c)
    ensures c <= h.epi
  {
  }
}
