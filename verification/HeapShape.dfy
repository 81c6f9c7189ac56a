/** How the blocks of the heap tile its span, and what splitting, joining and extending blocks does to that. */
module HeapShape {

  /**
   * The blocks, each known by the address of its header: payload sizes, the block just below each address where a
   * header stands, and which blocks are free. The epilogue header stands at epi, above the last block.
   */
  datatype Shape = Shape(first: nat, epi: nat, size: map<nat, nat>, below: map<nat, nat>, free: set<nat>)
  {
    /** Where the header above block b stands. */
    function End(b: nat): nat
      requires b in size
    {
      b + 8 + size[b]
    }

    ghost function Used(): set<nat>
    {
      size.Keys - free
    }

    /** The header at c stands just above a free block. */
    predicate OverFree(c: nat)
    {
      c in below && below[c] in free
    }

    function Taken(b: nat): Shape
    {
      this.(free := free - {b})
    }

    function Freed(b: nat): Shape
    {
      this.(free := free + {b})
    }

    /** Block b cut down to s bytes, with a block of its own after it. */
    function Split(b: nat, s: nat): Shape
      requires b in size && s + 16 <= size[b]
    {
      var rest := b + 8 + s;
      this.(size := size[b := s][rest := size[b] - s - 8], below := below[rest := b][End(b) := rest])
    }

    /** Block b and the block above it as one. */
    function Joined(b: nat): Shape
      requires b in size && End(b) in size
    {
      var n := End(b);
      this.(size := (size - {n})[b := size[b] + 8 + size[n]], below := (below - {n})[End(n) := b], free := free - {n})
    }

    /** Free block p and the used block above it as one used block. */
    function JoinedDown(p: nat): Shape
      requires p in size && End(p) in size
    {
      assert Taken(p).End(p) == End(p);
      Taken(p).Joined(p)
    }

    /** Block b after it took in the block above it, if that one is free. */
    function AbsorbedUp(b: nat): Shape
      requires b in size
    {
      if End(b) in size && End(b) in free then Joined(b) else this
    }

    /** Where block b begins once the free block below it, if there is one, has taken it in. */
    function Lowest(b: nat): nat
    {
      if OverFree(b) then below[b] else b
    }

    function AbsorbedDown(b: nat): Shape
      requires b in size && (OverFree(b) ==> below[b] in size && End(below[b]) == b)
    {
      if OverFree(b) then JoinedDown(below[b]) else this
    }

    /** The last block, b, made s bytes long, and the epilogue moved to match. */
    function Raised(b: nat, s: nat): Shape
      requires b in size
    {
      var top := b + 8 + s;
      this.(epi := top, size := size[b := s], below := (below - {epi})[top := b])
    }

    /** The last block, free or not, taken into use and raised. */
    function TakenRaised(b: nat, s: nat): Shape
      requires b in size
    {
      Taken(b).Raised(b, s)
    }

    /** A new used block where the epilogue was. */
    function Extended(s: nat): Shape
    {
      var top := epi + 8 + s;
      this.(epi := top, size := size[epi := s], below := below[top := epi])
    }
  }

  /** No heap yet. */
  const NoHeap: Shape := Shape(0, 0, map[], map[], {})

  /** Block b lies in the span, aligned, and headers stand where it begins and where it ends. */
  ghost predicate Fits(h: Shape, b: nat)
    requires b in h.size
  {
    && b % 8 == 0 && h.size[b] % 8 == 0 && h.size[b] >= 8 && h.first <= b && h.End(b) <= h.epi
    && (h.End(b) in h.size || h.End(b) == h.epi)
    && h.End(b) in h.below && h.below[h.End(b)] == b
    && (b == h.first || b in h.below)
  }

  /** The block below c ends at c. */
  ghost predicate Rests(h: Shape, c: nat)
    requires c in h.below
  {
    h.below[c] in h.size && h.End(h.below[c]) == c
  }

  /** Of two blocks, the lower ends before the upper begins. */
  ghost predicate Clear(h: Shape, b: nat, c: nat)
    requires b in h.size && c in h.size
  {
    b < c ==> h.End(b) <= c
  }

  /** The blocks tile the span from first to epi: aligned, each ending where the next begins, none overlapping. */
  ghost predicate Tiles(h: Shape)
  {
    && 0 < h.first <= h.epi && h.first % 8 == 0 && h.epi % 8 == 0
    && (h.first in h.size || h.first == h.epi) && (h.epi == h.first || h.epi in h.below)
    && h.free <= h.size.Keys
    && (forall b :: b in h.size ==> Fits(h, b))
    && (forall c :: c in h.below ==> Rests(h, c))
    && (forall b, c :: b in h.size && c in h.size ==> Clear(h, b, c))
  }

  /** No two free blocks are adjacent. */
  ghost predicate Apart(h: Shape)
  {
    forall f :: f in h.free && f in h.size ==> h.End(f) !in h.free
  }

  lemma TakenTiles(h: Shape, b: nat)
    requires Tiles(h)
    ensures Tiles(h.Taken(b))
  {
    hide Fits, Rests, Clear, Shape.End;
    var g := h.Taken(b);
    forall c | c in g.size ensures Fits(g, c) { SameFits(h, g, c); }
    forall c | c in g.below ensures Rests(g, c) { SameRests(h, g, c); }
    forall c, d | c in g.size && d in g.size ensures Clear(g, c, d) { SameClear(h, g, c, d); }
  }

  lemma FreedTiles(h: Shape, b: nat)
    requires Tiles(h) && b in h.size
    ensures Tiles(h.Freed(b))
  {
    hide Fits, Rests, Clear, Shape.End;
    var g := h.Freed(b);
    forall c | c in g.size ensures Fits(g, c) { SameFits(h, g, c); }
    forall c | c in g.below ensures Rests(g, c) { SameRests(h, g, c); }
    forall c, d | c in g.size && d in g.size ensures Clear(g, c, d) { SameClear(h, g, c, d); }
  }

  lemma SameFits(h: Shape, g: Shape, c: nat)
    requires g == h.(free := g.free) && c in h.size && Fits(h, c)
    ensures Fits(g, c)
  {
  }

  lemma SameRests(h: Shape, g: Shape, c: nat)
    requires g == h.(free := g.free) && c in h.below && Rests(h, c)
    ensures Rests(g, c)
  {
  }

  lemma SameClear(h: Shape, g: Shape, c: nat, d: nat)
    requires g == h.(free := g.free) && c in h.size && d in h.size && Clear(h, c, d)
    ensures Clear(g, c, d)
  {
  }

  // ---- splitting -----------------------------------------------------------------------------------

  /** No header stands inside a block. */
  lemma NoneInside(h: Shape, b: nat, c: nat)
    requires Tiles(h) && b in h.size && b < c < h.End(b)
    ensures c !in h.size
  {
    hide Fits, Rests;
    assert c in h.size ==> Clear(h, b, c);
  }

  /** What is known of a block c beside b. */
  ghost predicate Beside(h: Shape, b: nat, c: nat)
    requires b in h.size
  {
    c in h.size ==> Fits(h, c) && Clear(h, b, c) && Clear(h, c, b)
  }

  lemma IsBeside(h: Shape, b: nat, c: nat)
    requires Tiles(h) && b in h.size
    ensures Fits(h, b) && Beside(h, b, c)
  {
    hide Fits, Rests, Clear;
  }

  lemma SplitFits(h: Shape, b: nat, s: nat, c: nat)
    requires b in h.size && s % 8 == 0 && s >= 8 && s + 16 <= h.size[b] && Fits(h, b)
    requires c in h.Split(b, s).size && Beside(h, b, c) && Beside(h, b, b + 8 + s)
    ensures Fits(h.Split(b, s), c)
  {
  }

  lemma SplitRests(h: Shape, b: nat, s: nat, c: nat)
    requires b in h.size && s + 16 <= h.size[b] && Beside(h, b, b + 8 + s)
    requires c in h.Split(b, s).below && (c in h.below ==> Rests(h, c))
    ensures Rests(h.Split(b, s), c)
  {
  }

  lemma SplitClear(h: Shape, b: nat, s: nat, c: nat, d: nat)
    requires b in h.size && s + 16 <= h.size[b]
    requires c in h.Split(b, s).size && d in h.Split(b, s).size
    requires Beside(h, b, c) && Beside(h, b, d) && Beside(h, b, b + 8 + s)
    requires c in h.size && d in h.size ==> Clear(h, c, d)
    ensures Clear(h.Split(b, s), c, d)
  {
  }

  lemma SplitTiles(h: Shape, b: nat, s: nat)
    requires Tiles(h) && b in h.size && s % 8 == 0 && s >= 8 && s + 16 <= h.size[b]
    ensures Tiles(h.Split(b, s))
  {
    hide Fits, Rests, Clear, Beside, Shape.End;
    var g := h.Split(b, s);
    IsBeside(h, b, b + 8 + s);
    forall c | c in g.size ensures Fits(g, c) { IsBeside(h, b, c); SplitFits(h, b, s, c); }
    forall c | c in g.below ensures Rests(g, c) { SplitRests(h, b, s, c); }
    forall c, d | c in g.size && d in g.size ensures Clear(g, c, d) {
      IsBeside(h, b, c);
      IsBeside(h, b, d);
      SplitClear(h, b, s, c, d);
    }
  }

  // ---- joining ----------------------------------------------------------------------------------------

  lemma JoinFits(h: Shape, b: nat, n: nat, c: nat)
    requires b in h.size && n in h.size && n == h.End(b) && Fits(h, b) && Fits(h, n)
    requires c in h.Joined(b).size && Fits(h, c)
    ensures Fits(h.Joined(b), c)
  {
  }

  lemma JoinRests(h: Shape, b: nat, n: nat, c: nat)
    requires b in h.size && n in h.size && n == h.End(b)
    requires c in h.Joined(b).below && (c in h.below ==> Rests(h, c))
    ensures Rests(h.Joined(b), c)
  {
  }

  lemma JoinClear(h: Shape, b: nat, n: nat, c: nat, d: nat)
    requires b in h.size && n in h.size && n == h.End(b)
    requires c in h.Joined(b).size && d in h.Joined(b).size && c in h.size && d in h.size
    requires Clear(h, c, d) && Clear(h, n, d) && (c == b ==> Clear(h, b, d))
    ensures Clear(h.Joined(b), c, d)
  {
  }

  lemma JoinedTiles(h: Shape, b: nat)
    requires Tiles(h) && b in h.size && h.End(b) in h.size
    ensures Tiles(h.Joined(b))
  {
    hide Fits, Rests, Clear, Shape.End;
    var g, n := h.Joined(b), h.End(b);
    JoinEnds(h, b, n);
    forall c | c in g.size ensures Fits(g, c) { JoinFits(h, b, n, c); }
    forall c | c in g.below ensures Rests(g, c) { JoinRests(h, b, n, c); }
    forall c, d | c in g.size && d in g.size ensures Clear(g, c, d) { JoinClear(h, b, n, c, d); }
  }

  lemma JoinEnds(h: Shape, b: nat, n: nat)
    requires Tiles(h) && b in h.size && n in h.size && n == h.End(b)
    ensures h.first in h.Joined(b).size && h.epi in h.Joined(b).below
  {
    hide Rests, Clear;
    assert Fits(h, b) && Fits(h, n);
  }

  // ---- at the top -----------------------------------------------------------------------------------

  lemma RaiseFits(h: Shape, b: nat, s: nat, c: nat)
    requires b in h.size && h.End(b) == h.epi && s % 8 == 0 && s >= h.size[b] && Fits(h, b)
    requires c in h.size && Fits(h, c)
    ensures Fits(h.Raised(b, s), c)
  {
  }

  lemma RaiseRests(h: Shape, b: nat, s: nat, c: nat)
    requires b in h.size && h.End(b) == h.epi
    requires c in h.Raised(b, s).below && (c in h.below ==> Rests(h, c))
    ensures Rests(h.Raised(b, s), c)
  {
  }

  lemma RaiseClear(h: Shape, b: nat, s: nat, c: nat, d: nat)
    requires b in h.size && h.End(b) == h.epi && c in h.size && d in h.size && Clear(h, c, d) && Fits(h, d)
    ensures Clear(h.Raised(b, s), c, d)
  {
  }

  lemma RaisedTiles(h: Shape, b: nat, s: nat)
    requires Tiles(h) && b in h.size && h.End(b) == h.epi && s % 8 == 0 && s >= h.size[b]
    ensures Tiles(h.Raised(b, s))
  {
    hide Fits, Rests, Clear, Shape.End;
    var g := h.Raised(b, s);
    RaiseEnds(h, b, s);
    forall c | c in g.size ensures Fits(g, c) { RaiseFits(h, b, s, c); }
    forall c | c in g.below ensures Rests(g, c) { RaiseRests(h, b, s, c); }
    forall c, d | c in g.size && d in g.size ensures Clear(g, c, d) { RaiseClear(h, b, s, c, d); }
  }

  lemma RaiseEnds(h: Shape, b: nat, s: nat)
    requires Tiles(h) && b in h.size && h.End(b) == h.epi && s % 8 == 0
    ensures h.first in h.size && (b + 8 + s) % 8 == 0 && b + 8 + s >= h.first
  {
    hide Fits, Rests, Clear;
    InSpan(h, b);
  }

  /** A block lies in the span, at a multiple of 8. */
  lemma InSpan(h: Shape, b: nat)
    requires Tiles(h) && b in h.size
    ensures 0 < h.first <= b < b + 16 <= h.End(b) <= h.epi && b % 8 == 0 && h.size[b] % 8 == 0 && h.End(b) % 8 == 0
    ensures h.End(b) in h.size || h.End(b) == h.epi
  {
    assert Fits(h, b) && h.first > 0 by { hide Fits, Rests, Clear; }
    hide Rests, Clear, Tiles;
  }

  lemma ExtendFits(h: Shape, s: nat, c: nat)
    requires s % 8 == 0 && s >= 8 && h.epi % 8 == 0 && h.epi >= h.first && (h.epi == h.first || h.epi in h.below)
    requires c in h.Extended(s).size && (c in h.size ==> Fits(h, c))
    ensures Fits(h.Extended(s), c)
  {
  }

  lemma ExtendRests(h: Shape, s: nat, c: nat)
    requires c in h.Extended(s).below && (c in h.below ==> Rests(h, c)) && (h.epi in h.size ==> Fits(h, h.epi))
    ensures Rests(h.Extended(s), c)
  {
  }

  lemma ExtendClear(h: Shape, s: nat, c: nat, d: nat)
    requires c in h.Extended(s).size && d in h.Extended(s).size
    requires c in h.size ==> Fits(h, c)
    requires d in h.size ==> Fits(h, d)
    requires c in h.size && d in h.size ==> Clear(h, c, d)
    ensures Clear(h.Extended(s), c, d)
  {
  }

  lemma ExtendedTiles(h: Shape, s: nat)
    requires Tiles(h) && s % 8 == 0 && s >= 8
    ensures Tiles(h.Extended(s))
  {
    hide Fits, Rests, Clear, Shape.End;
    var g := h.Extended(s);
    forall c | c in g.size ensures Fits(g, c) { ExtendFits(h, s, c); }
    forall c | c in g.below ensures Rests(g, c) { ExtendRests(h, s, c); }
    forall c, d | c in g.size && d in g.size ensures Clear(g, c, d) { ExtendClear(h, s, c, d); }
  }

  // ---- no two free blocks adjacent ------------------------------------------------------------------

  /** The block below a header that is free is the one `below` names. */
  lemma BelowIs(h: Shape, c: nat)
    requires Tiles(h) && c in h.below
    ensures h.below[c] in h.size && h.End(h.below[c]) == c && h.below[c] < c
  {
    hide Fits, Clear;
    assert Rests(h, c);
  }

  lemma EndBelow(h: Shape, b: nat)
    requires Tiles(h) && b in h.size
    ensures h.End(b) in h.below && h.below[h.End(b)] == b
  {
    hide Rests, Clear;
    assert Fits(h, b) by { hide Fits; }
    hide Tiles;
  }

  lemma ApartUp(h: Shape, b: nat)
    requires Tiles(h) && Apart(h) && b in h.size && b !in h.free
    ensures var g := h.AbsorbedUp(b);
      Apart(g) && b in g.size && b !in g.free && g.End(b) !in g.free && g.Used() == h.Used() && g.free <= h.free
    ensures h.AbsorbedUp(b).OverFree(b) <==> h.OverFree(b)
    ensures h.OverFree(b) ==> h.AbsorbedUp(b).below[b] == h.below[b]
  {
    hide Fits, Rests, Clear, Shape.End;
    var g, n := h.AbsorbedUp(b), h.End(b);
    InSpan(h, b);
    if n in h.size && n in h.free {
      InSpan(h, n);
      if b in h.below { BelowIs(h, b); }
      assert g.End(b) == h.End(n) by { JoinedEnd(h, b, n); }
      forall f | f in g.free && f in g.size ensures g.End(f) !in g.free { JoinedSame(h, b, f); }
      EndBelow(h, n);
    }
  }

  lemma UpKeepsUsed(h: Shape, b: nat)
    requires Tiles(h) && Apart(h) && b in h.size && b !in h.free
    ensures b !in h.AbsorbedUp(b).free
  {
    hide Tiles, Apart, Shape.End, Shape.OverFree, Shape.AbsorbedUp;
    ApartUp(h, b);
  }

  lemma JoinedEnd(h: Shape, b: nat, n: nat)
    requires b in h.size && n == h.End(b) && n in h.size
    ensures h.Joined(b).End(b) == h.End(n)
  {
  }

  lemma JoinedSame(h: Shape, b: nat, f: nat)
    requires b in h.size && h.End(b) in h.size && f in h.Joined(b).size && f != b
    ensures h.Joined(b).End(f) == h.End(f)
  {
  }

  lemma ApartDown(h: Shape, b: nat)
    requires Tiles(h) && Apart(h) && b in h.size && b !in h.free && h.End(b) !in h.free
    requires h.OverFree(b) ==> h.below[b] in h.size && h.End(h.below[b]) == b
    ensures var g, c := h.AbsorbedDown(b), h.Lowest(b);
      Apart(g) && c in g.size && c !in g.free && g.End(c) == h.End(b) && g.End(c) !in g.free && !g.OverFree(c)
    ensures h.OverFree(b) ==> h.below[b] !in h.Used()
    ensures h.AbsorbedDown(b).Used() == h.Used() - {b} + {h.Lowest(b)} && h.AbsorbedDown(b).free <= h.free
  {
    hide Fits, Rests, Clear;
    var g, c := h.AbsorbedDown(b), h.Lowest(b);
    if h.OverFree(b) {
      InSpan(h, c);
      InSpan(h, b);
      if c in h.below { BelowIs(h, c); }
    }
  }

  lemma ApartFreed(h: Shape, c: nat)
    requires Tiles(h) && Apart(h) && c in h.size && c !in h.free && h.End(c) !in h.free && !h.OverFree(c)
    ensures Apart(h.Freed(c)) && h.Freed(c).Used() == h.Used() - {c}
  {
    hide Fits, Rests, Clear, Shape.End;
    var g := h.Freed(c);
    InSpan(h, c);
    forall f | f in g.free && f in g.size ensures g.End(f) !in g.free {
      EndBelow(h, f);
      FreedEnd(h, c, f);
    }
  }

  lemma FreedEnd(h: Shape, c: nat, f: nat)
    requires f in h.size
    ensures h.Freed(c).End(f) == h.End(f)
  {
  }

  /** Both neighbours absorbed, and the result made free: what releasing used block b comes to. */
  lemma ReleaseShape(h: Shape, b: nat, h1: Shape, c: nat, h2: Shape)
    requires Tiles(h) && Apart(h) && b in h.size && b !in h.free && h1 == h.AbsorbedUp(b) && Tiles(h1)
    requires h1.OverFree(b) ==> h1.below[b] in h1.size && h1.End(h1.below[b]) == b
    requires b in h1.size && h2 == h1.AbsorbedDown(b) && c == h1.Lowest(b) && Tiles(h2)
    ensures c in h2.size && c !in h2.free && Apart(h2.Freed(c))
    ensures h1.Used() == h.Used() && h2.Used() - {c} == h.Used() - {b} && h2.Freed(c).Used() == h.Used() - {b}
    ensures h2.first == h.first && h2.epi == h.epi
  {
    hide Tiles, Apart, Shape.End, Shape.OverFree, Shape.Used;
    ApartUp(h, b);
    ApartDown(h1, b);
    ApartFreed(h2, c);
    UsedDown(h1, b, c);
    SameEnds(h, b, h1, h2);
  }

  lemma UsedDown(h1: Shape, b: nat, c: nat)
    requires b in h1.size && b !in h1.free && c == h1.Lowest(b) && (h1.OverFree(b) ==> h1.below[b] !in h1.Used())
    ensures h1.Used() - {b} + {c} - {c} == h1.Used() - {b}
  {
  }

  lemma SameEnds(h: Shape, b: nat, h1: Shape, h2: Shape)
    requires b in h.size && h1 == h.AbsorbedUp(b) && b in h1.size
    requires h1.OverFree(b) ==> h1.below[b] in h1.size && h1.End(h1.below[b]) == b
    requires h2 == h1.AbsorbedDown(b)
    ensures h2.first == h.first && h2.epi == h.epi
  {
  }

  lemma SplitShape(h: Shape, b: nat, s: nat)
    requires Tiles(h) && Apart(h) && b in h.Used() && s + 16 <= h.size[b]
    requires b + 8 + s !in h.size && b + 8 + s !in h.free
    ensures var g, rest := h.Split(b, s), b + 8 + s;
      && Apart(g) && rest in g.Used() && g.Used() - {rest} == h.Used() && b in g.size && g.size[b] == s
      && g.first == h.first && g.epi == h.epi && g.free == h.free
  {
    hide Tiles;
  }

  lemma TakenShape(h: Shape, b: nat)
    requires Apart(h) && b in h.free && b in h.size
    ensures Apart(h.Taken(b)) && h.Taken(b).Used() == h.Used() + {b}
  {
  }

  lemma RaisedShape(h: Shape, b: nat, s: nat)
    requires Apart(h) && b in h.size && b + 8 + s !in h.free
    ensures var g := h.TakenRaised(b, s);
      && Apart(g) && g.Used() == h.Used() + {b} && b in g.size
      && g.size[b] == s && g.free == h.free - {b} && g.first == h.first
  {
  }

  lemma ExtendedShape(h: Shape, s: nat)
    requires Apart(h) && h.epi !in h.size && h.epi !in h.free
    ensures var g := h.Extended(s);
      && Apart(g) && g.Used() == h.Used() + {h.epi} && h.epi in g.size
      && g.size[h.epi] == s && g.free == h.free && g.first == h.first
  {
  }

  lemma SpanIs(h: Shape)
    requires Tiles(h)
    ensures 0 < h.first <= h.epi && h.epi !in h.size && h.epi !in h.free && h.epi % 8 == 0 && h.free <= h.size.Keys
  {
    hide Fits, Rests, Clear;
    if h.epi in h.size { InSpan(h, h.epi); }
  }

  /** A free block taken into use is a new used block. */
  lemma FreshlyTaken(h: Shape, b: nat, size: nat)
    requires Tiles(h) && b in h.free && b in h.size && h.size[b] >= size
    ensures b !in h.Used() && b in h.Taken(b).size && h.Taken(b).size[b] >= size && b % 8 == 0
    ensures h.Taken(b).first == h.first && h.Taken(b).epi == h.epi
  {
    hide Tiles;
    InSpan(h, b);
  }

  /** The end of the last block, made longer, is above the epilogue. */
  lemma AboveLast(h: Shape, b: nat, size: nat)
    requires Tiles(h) && b in h.size && h.End(b) == h.epi && h.size[b] < size && size % 8 == 0
    ensures b + 8 + size >= h.epi + 8 && b % 8 == 0
  {
    hide Tiles;
    InSpan(h, b);
  }

  lemma RaisedFree(h: Shape, b: nat, s: nat)
    requires Tiles(h) && Apart(h) && b in h.size && b in h.free && b + 8 + s >= h.epi
    ensures var g := h.TakenRaised(b, s);
      && Apart(g) && g.Used() == h.Used() + {b} && b in g.size && g.size[b] == s && g.free == h.free - {b}
      && g.first == h.first && g.epi == b + 8 + s && b !in h.Used() && h.Used() - {b} == h.Used()
  {
    hide Tiles, Apart, Shape.TakenRaised;
    SpanIs(h);
    if b + 8 + s in h.free { InSpan(h, b + 8 + s); }
    RaisedShape(h, b, s);
    RaisedTop(h, b, s);
  }

  lemma RaisedTop(h: Shape, b: nat, s: nat)
    requires b in h.size
    ensures h.TakenRaised(b, s).epi == b + 8 + s
  {
  }

  lemma ExtendedTop(h: Shape, s: nat)
    requires Tiles(h) && Apart(h)
    ensures var g := h.Extended(s);
      && Apart(g) && g.Used() == h.Used() + {h.epi} && h.epi in g.size && g.size[h.epi] == s && g.free == h.free
      && g.first == h.first && g.epi == h.epi + 8 + s && h.epi !in h.Used() && h.epi % 8 == 0
  {
    hide Tiles, Apart;
    SpanIs(h);
    ExtendedShape(h, s);
  }

  /** A used block joined to the free one above it: still used, and now below a header that follows no free block. */
  lemma JoinedShape(h: Shape, b: nat)
    requires Tiles(h) && Apart(h) && b in h.Used() && h.End(b) in h.size && h.End(b) in h.free
    ensures var g, n := h.Joined(b), h.End(b);
      && Tiles(g) && Apart(g) && b in g.size && g.size[b] == h.size[b] + 8 + h.size[n] && g.End(b) == h.End(n)
      && g.Used() == h.Used() && g.free == h.free - {n} && !g.OverFree(g.End(b)) && g.first == h.first && g.epi == h.epi
      && (g.OverFree(b) <==> h.OverFree(b))
  {
    hide Tiles, Apart, Shape.OverFree;
    ApartUp(h, b);
    JoinedTiles(h, b);
    EndBelow(h.Joined(b), b);
    NotOver(h.Joined(b), b);
  }

  lemma NotOver(h: Shape, b: nat)
    requires b in h.size && b !in h.free && h.End(b) in h.below && h.below[h.End(b)] == b
    ensures !h.OverFree(h.End(b))
  {
  }

  lemma RaisedUsed(h: Shape, b: nat, s: nat)
    requires Tiles(h) && Apart(h) && b in h.Used() && b + 8 + s >= h.epi
    ensures var g := h.TakenRaised(b, s);
      && Apart(g) && g.Used() == h.Used() && b in g.size && g.size[b] == s && g.free == h.free
      && g.first == h.first && g.epi == b + 8 + s
  {
    hide Tiles, Apart, Shape.TakenRaised;
    SpanIs(h);
    if b + 8 + s in h.free { InSpan(h, b + 8 + s); }
    RaisedShape(h, b, s);
    RaisedTop(h, b, s);
  }
}
