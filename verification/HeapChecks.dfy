/** What heap_check makes of any memory whatever: its walks, and what it means that they end well. */
module HeapChecks {
  import opened HeapShape
  import opened HeapHeaders
  import opened HeapLists
  import opened HeapPayloads
  import opened HeapState
  import opened SizeClasses
  import opened Powers
  import opened Sequences

  /** A word of memory; past the end of it none is stored. */
  function Word(m: seq<nat>, a: nat): nat
  {
    if a < |m| then m[a] else 0
  }

  // ---- the walk over the blocks --------------------------------------------------------------------------

  /** Where the block at b ends, as its header says. */
  function NextOf(m: seq<nat>, b: nat): nat
  {
    b + 8 + SizeIn(Word(m, b + 4))
  }

  /** The check finds nothing wrong with the block at b. */
  predicate BlockPasses(m: seq<nat>, b: nat, high: nat, prevFree: bool)
  {
    var head := Word(m, b + 4);
    && b % 8 == 0 && SizeIn(head) >= 8 && head / 4 % 2 == 0 && NextOf(m, b) <= high
    && PrevFreeIn(head) == prevFree && !(FreeIn(head) && prevFree)
    && (FreeIn(head) ==> Word(m, NextOf(m, b)) == SizeIn(head))
  }

  /** The walk from b ends at the epilogue with nothing wrong. */
  predicate WalkPasses(m: seq<nat>, b: nat, high: nat, prevFree: bool)
    decreases high - b
  {
    if b >= high then b == high && PrevFreeIn(Word(m, b + 4)) == prevFree && SizeIn(Word(m, b + 4)) == 0
    else BlockPasses(m, b, high, prevFree) && WalkPasses(m, NextOf(m, b), high, FreeIn(Word(m, b + 4)))
  }

  /** c is the first block at which the walk from b finds something wrong. */
  predicate StopsAt(m: seq<nat>, b: nat, high: nat, prevFree: bool, c: nat)
    decreases high - b
  {
    if b < high && BlockPasses(m, b, high, prevFree) then StopsAt(m, NextOf(m, b), high, FreeIn(Word(m, b + 4)), c)
    else c == b && !WalkPasses(m, b, high, prevFree)
  }

  /** The free blocks it meets. */
  function FreeAhead(m: seq<nat>, b: nat, high: nat): nat
    decreases high - b
  {
    if b >= high then 0 else (if FreeIn(Word(m, b + 4)) then 1 else 0) + FreeAhead(m, NextOf(m, b), high)
  }

  /** Whether the header at c has to say that the block below it is free. */
  predicate PrevAt(h: Shape, c: nat, prevFree: bool)
  {
    if c == h.first then prevFree else h.OverFree(c)
  }

  /** What the header of block b has to be. */
  predicate HeadSays(m: seq<nat>, h: Shape, b: nat, prevFree: bool)
    requires b in h.size
  {
    Word(m, b + 4) == h.size[b] + (if b in h.free then 1 else 0) + (if PrevAt(h, b, prevFree) then 2 else 0)
  }

  /** The blocks of h tile their span, no two free ones side by side, and the words in memory say so. */
  ghost predicate DescribesFrom(m: seq<nat>, h: Shape, prevFree: bool)
  {
    && Tiles(h) && Apart(h) && (prevFree ==> h.first !in h.free)
    && (forall b :: b in h.size ==> HeadSays(m, h, b, prevFree))
    && (forall f :: f in h.free && f in h.size ==> Word(m, h.End(f)) == h.size[f])
    && SizeIn(Word(m, h.epi + 4)) == 0 && (PrevFreeIn(Word(m, h.epi + 4)) <==> PrevAt(h, h.epi, prevFree))
  }

  /** r with a block put in front of it. */
  function InFront(r: Shape, b: nat, size: nat, free: bool): Shape
  {
    Shape(b, r.epi, r.size[b := size], r.below[r.first := b], if free then r.free + {b} else r.free)
  }

  /** The blocks the walk meets. */
  function ShapeFrom(m: seq<nat>, b: nat, high: nat): Shape
    decreases high - b
  {
    if b >= high then Shape(b, b, map[], map[], {})
    else InFront(ShapeFrom(m, NextOf(m, b), high), b, SizeIn(Word(m, b + 4)), FreeIn(Word(m, b + 4)))
  }

  lemma FrontFits(r: Shape, b: nat, size: nat, free: bool, c: nat)
    requires b % 8 == 0 && size % 8 == 0 && size >= 8 && b + 8 + size == r.first && r.first <= r.epi
    requires (r.first in r.size || r.first == r.epi) && c in InFront(r, b, size, free).size
    requires c in r.size ==> Fits(r, c) && c >= r.first
    ensures Fits(InFront(r, b, size, free), c)
  {
  }

  lemma FrontRests(r: Shape, b: nat, size: nat, free: bool, c: nat)
    requires b + 8 + size == r.first && c in InFront(r, b, size, free).below && b !in r.size
    requires c in r.below ==> Rests(r, c)
    ensures Rests(InFront(r, b, size, free), c)
  {
  }

  lemma FrontClear(r: Shape, b: nat, size: nat, free: bool, c: nat, d: nat)
    requires b + 8 + size == r.first
    requires c in InFront(r, b, size, free).size && d in InFront(r, b, size, free).size
    requires (c in r.size ==> c >= r.first) && (d in r.size ==> d >= r.first)
    requires c in r.size && d in r.size ==> Clear(r, c, d)
    ensures Clear(InFront(r, b, size, free), c, d)
  {
  }

  lemma FrontTiles(r: Shape, b: nat, size: nat, free: bool)
    requires Tiles(r) && 0 < b && b % 8 == 0 && size % 8 == 0 && size >= 8 && b + 8 + size == r.first
    ensures Tiles(InFront(r, b, size, free)) && b !in r.size && b !in r.free
  {
    hide Fits, Rests, Clear, Shape.End;
    var g := InFront(r, b, size, free);
    if b in r.size { InSpan(r, b); }
    FrontEnds(r);
    forall c | c in g.size ensures Fits(g, c) {
      if c in r.size { InSpan(r, c); }
      FrontFits(r, b, size, free, c);
    }
    forall c | c in g.below ensures Rests(g, c) { FrontRests(r, b, size, free, c); }
    forall c, d | c in g.size && d in g.size ensures Clear(g, c, d) {
      if c in r.size { InSpan(r, c); }
      if d in r.size { InSpan(r, d); }
      FrontClear(r, b, size, free, c, d);
    }
  }

  lemma FrontEnds(r: Shape)
    requires Tiles(r)
    ensures (r.first in r.size || r.first == r.epi) && r.first <= r.epi && r.epi % 8 == 0 && r.free <= r.size.Keys
    ensures r.epi == r.first || r.epi in r.below
  {
    hide Fits, Rests, Clear;
  }

  /** A header word is its parts. */
  lemma HeadFrom(head: nat)
    requires head / 4 % 2 == 0
    ensures head == SizeIn(head) + (if FreeIn(head) then 1 else 0) + (if PrevFreeIn(head) then 2 else 0)
    ensures SizeIn(head) % 8 == 0
  {
    var low := head % 8;
    DivModIdentity(head, 8);
    DivModUnique(head, 4 * (head / 8) + low / 2, 2, low % 2);
    DivModUnique(head / 2, 2 * (head / 8) + low / 4, 2, low / 2 % 2);
    DivModUnique(head, 2 * (head / 8) + low / 4, 4, low % 4);
    DivModUnique(head / 4, head / 8, 2, low / 4);
    DivModUnique(SizeIn(head), head / 8, 8, 0);
  }

  /** What the headers of r say of the block below stays true with that block there. */
  lemma FrontPrev(r: Shape, b: nat, size: nat, free: bool, c: nat, prevFree: bool)
    requires b < r.first && b !in r.free && c >= r.first && (c in r.below ==> r.below[c] != b)
    requires c == r.first || c in r.below
    ensures PrevAt(InFront(r, b, size, free), c, prevFree) <==> PrevAt(r, c, free)
  {
  }

  lemma BelowIsAbove(r: Shape, b: nat, c: nat)
    requires Tiles(r) && IsHeader(r, c) && b < r.first
    ensures c >= r.first && (c == r.first || c in r.below) && (c in r.below ==> r.below[c] != b)
  {
    hide Rests, Clear, Shape.End;
    FrontEnds(r);
    if c in r.size {
      assert Fits(r, c);
      InSpan(r, c);
    }
    hide Fits, Tiles;
    if c in r.below {
      BelowIs(r, c);
      InSpan(r, r.below[c]);
    }
  }

  lemma FrontApart(r: Shape, b: nat, size: nat, free: bool)
    requires Tiles(r) && Apart(r) && b + 8 + size == r.first && (free ==> r.first !in r.free)
    requires b !in r.size && b !in r.free
    ensures Apart(InFront(r, b, size, free))
  {
    hide Tiles;
    var g := InFront(r, b, size, free);
    forall f | f in g.free && f in g.size ensures g.End(f) !in g.free {
      if f == b {
        assert free && g.End(f) == r.first;
      } else {
        InSpan(r, f);
        assert f in r.free && g.End(f) == r.End(f) && r.End(f) > b;
      }
    }
  }

  lemma FrontHead(m: seq<nat>, r: Shape, b: nat, size: nat, free: bool, c: nat, prevFree: bool)
    requires c in r.size && c != b && HeadSays(m, r, c, free)
    requires PrevAt(InFront(r, b, size, free), c, prevFree) <==> PrevAt(r, c, free)
    ensures HeadSays(m, InFront(r, b, size, free), c, prevFree)
  {
  }

  lemma FirstHead(m: seq<nat>, r: Shape, b: nat, prevFree: bool)
    requires Word(m, b + 4) / 4 % 2 == 0 && PrevFreeIn(Word(m, b + 4)) == prevFree && b !in r.free
    ensures HeadSays(m, InFront(r, b, SizeIn(Word(m, b + 4)), FreeIn(Word(m, b + 4))), b, prevFree)
  {
    HeadFrom(Word(m, b + 4));
    hide SizeIn, FreeIn, PrevFreeIn;
  }

  /** A block that passes, in front of blocks that memory describes. */
  lemma FrontDescribes(m: seq<nat>, r: Shape, b: nat, high: nat, prevFree: bool)
    requires BlockPasses(m, b, high, prevFree) && 0 < b && r.first == NextOf(m, b) && r.epi == high
    requires DescribesFrom(m, r, FreeIn(Word(m, b + 4)))
    ensures var g := InFront(r, b, SizeIn(Word(m, b + 4)), FreeIn(Word(m, b + 4)));
      DescribesFrom(m, g, prevFree) && |g.free| == |r.free| + if FreeIn(Word(m, b + 4)) then 1 else 0
  {
    hide Tiles, Apart, SizeIn, FreeIn, PrevFreeIn, HeadSays, PrevAt, Word;
    var size, free := SizeIn(Word(m, b + 4)), FreeIn(Word(m, b + 4));
    var g := InFront(r, b, size, free);
    HeadFrom(Word(m, b + 4));
    FrontTiles(r, b, size, free);
    FrontApart(r, b, size, free);
    FirstHead(m, r, b, prevFree);
    forall c | c in g.size ensures HeadSays(m, g, c, prevFree) {
      if c != b {
        BelowIsAbove(r, b, c);
        FrontPrev(r, b, size, free, c, prevFree);
        FrontHead(m, r, b, size, free, c, prevFree);
      }
    }
    BelowIsAbove(r, b, r.epi);
    FrontPrev(r, b, size, free, r.epi, prevFree);
    FrontFeet(m, r, b, size, free);
  }

  lemma FrontFeet(m: seq<nat>, r: Shape, b: nat, size: nat, free: bool)
    requires b !in r.size && b !in r.free && (free ==> Word(m, b + 8 + size) == size)
    requires forall f :: f in r.free && f in r.size ==> Word(m, r.End(f)) == r.size[f]
    ensures var g := InFront(r, b, size, free);
      forall f :: f in g.free && f in g.size ==> Word(m, g.End(f)) == g.size[f]
  {
    hide Word;
    var g := InFront(r, b, size, free);
    forall f | f in g.free && f in g.size ensures Word(m, g.End(f)) == g.size[f] {
      if f == b {
        assert free && g.End(f) == b + 8 + size;
      } else {
        assert f in r.free && r.End(f) == g.End(f);
      }
    }
  }

  /** A walk that passes meets blocks that tile the span, and memory describes them. */
  lemma {:induction false} WalkDescribes(m: seq<nat>, b: nat, high: nat, prevFree: bool)
    requires WalkPasses(m, b, high, prevFree) && 0 < b && b % 8 == 0 && high % 8 == 0
    ensures var h := ShapeFrom(m, b, high);
      h.first == b && h.epi == high && DescribesFrom(m, h, prevFree) && |h.free| == FreeAhead(m, b, high)
    decreases high - b
  {
    hide DescribesFrom, Word;
    if b >= high {
      NoBlocks(m, b, prevFree);
    } else {
      HeadFrom(Word(m, b + 4));
      hide SizeIn, FreeIn, PrevFreeIn;
      WalkDescribes(m, NextOf(m, b), high, FreeIn(Word(m, b + 4)));
      FrontDescribes(m, ShapeFrom(m, NextOf(m, b), high), b, high, prevFree);
    }
  }

  lemma NoBlocks(m: seq<nat>, b: nat, prevFree: bool)
    requires 0 < b && b % 8 == 0
    requires PrevFreeIn(Word(m, b + 4)) == prevFree && SizeIn(Word(m, b + 4)) == 0
    ensures DescribesFrom(m, Shape(b, b, map[], map[], {}), prevFree)
  {
  }

  /** The walk from b comes upon a block at c. */
  predicate Met(m: seq<nat>, b: nat, high: nat, c: nat)
    decreases high - b
  {
    b < high && (c == b || Met(m, NextOf(m, b), high, c))
  }

  lemma {:induction false} MetIsBlock(m: seq<nat>, b: nat, high: nat, c: nat)
    ensures Met(m, b, high, c) <==> c in ShapeFrom(m, b, high).size
    decreases high - b
  {
    hide SizeIn, FreeIn, Word;
    if b >= high {
    } else {
      MetIsBlock(m, NextOf(m, b), high, c);
    }
  }

  // ---- the walks down the lists --------------------------------------------------------------------------

  /** The variables of the allocator: memory, list heads, both bitmaps, and where the span begins and ends. */
  datatype Image = Image(m: seq<nat>, bins: seq<nat>, sl: seq<nat>, fl: nat, first: nat, epi: nat)
  {
    predicate Formed()
    {
      && |bins| == BINS && |sl| == FL_COUNT && 0 < first <= epi && first % 8 == 0 && epi % 8 == 0
      && epi + 8 <= |m| <= 0x4000_0000
    }

    /** The free blocks the walk counts. */
    function FreeBlocks(): nat
    {
      FreeAhead(m, first, epi)
    }

    /** The addresses in list i. */
    function List(i: nat): seq<nat>
      requires i < |bins|
    {
      ListFrom(m, bins[i], FreeBlocks())
    }

    function Lists(): (l: seq<seq<nat>>)
      requires |bins| == BINS
      ensures |l| == BINS && forall i :: 0 <= i < BINS ==> l[i] == List(i)
    {
      seq(BINS, i requires 0 <= i < BINS => List(i))
    }

    function Blocks(): Shape
    {
      ShapeFrom(m, first, epi)
    }

    ghost function AsView(): View
      requires |bins| == BINS
    {
      View(m, bins, sl, fl, Blocks(), Lists())
    }
  }

  /** What the walk down list i asks of the address f, met after `before`. */
  predicate NodePasses(a: Image, i: nat, f: nat, before: nat)
  {
    && a.first <= f < a.epi && FreeIn(Word(a.m, f + 4)) && Word(a.m, f + 12) == before
    && BinOf(SizeIn(Word(a.m, f + 4))) == i
  }

  /** The walk down list i from f ends with nothing wrong, `left` addresses later at the most. */
  predicate ListPasses(a: Image, i: nat, f: nat, before: nat, left: nat)
    decreases left
  {
    f == 0 || (NodePasses(a, i, f, before) && left > 0 && ListPasses(a, i, Word(a.m, f + 8), f, left - 1))
  }

  /** c is the first address at which it finds something wrong. */
  predicate ListStopsAt(a: Image, i: nat, f: nat, before: nat, left: nat, c: nat)
    decreases left
  {
    f != 0
    && if NodePasses(a, i, f, before) && left > 0 then ListStopsAt(a, i, Word(a.m, f + 8), f, left - 1, c) else c == f
  }

  /** The addresses from f on, `left` of them at the most. */
  function ListFrom(m: seq<nat>, f: nat, left: nat): (l: seq<nat>)
    ensures |l| <= left
    decreases left
  {
    if f == 0 || left == 0 then [] else [f] + ListFrom(m, Word(m, f + 8), left - 1)
  }

  /** The bitmaps agree with the head of list (f, s). */
  predicate HeadAgrees(a: Image, f: nat, s: nat)
    requires a.Formed() && f < FL_COUNT && s < SL_COUNT
  {
    var i := f * SL_COUNT + s;
    (a.bins[i] != 0 <==> Bit(a.sl[f], s)) && (a.bins[i] != 0 ==> Bit(a.fl, f))
  }

  /** A level without lists is not marked. */
  predicate LevelAgrees(a: Image, f: nat)
    requires a.Formed() && f < FL_COUNT
  {
    a.sl[f] == 0 ==> !Bit(a.fl, f)
  }

  /** The walks down the lists of level f from (f, s) on, with `left` blocks not listed yet, and what follows. */
  predicate ListsPass(a: Image, f: nat, s: nat, left: nat)
    requires a.Formed() && f <= FL_COUNT && s <= SL_COUNT
    decreases FL_COUNT - f, SL_COUNT - s
  {
    if f == FL_COUNT then left == 0
    else if s == SL_COUNT then LevelAgrees(a, f) && ListsPass(a, f + 1, 0, left)
    else
      var head := a.bins[f * SL_COUNT + s];
      && HeadAgrees(a, f, s) && ListPasses(a, f * SL_COUNT + s, head, 0, left)
      && ListsPass(a, f, s + 1, left - |ListFrom(a.m, head, left)|)
  }

  /** What one walk decides, what follows the last of a level, and what follows the last of all. */
  lemma ListsStep(a: Image, f: nat, s: nat, left: nat)
    requires a.Formed() && f <= FL_COUNT && s <= SL_COUNT
    ensures f < FL_COUNT && s < SL_COUNT ==>
      var i := f * SL_COUNT + s;
      (ListsPass(a, f, s, left) <==>
        HeadAgrees(a, f, s) && ListPasses(a, i, a.bins[i], 0, left)
        && ListsPass(a, f, s + 1, left - |ListFrom(a.m, a.bins[i], left)|))
    ensures f < FL_COUNT ==>
      (ListsPass(a, f, SL_COUNT, left) <==> (a.sl[f] == 0 ==> !Bit(a.fl, f)) && ListsPass(a, f + 1, 0, left))
    ensures ListsPass(a, FL_COUNT, s, left) <==> left == 0
  {
    hide ListPasses, HeadAgrees, ListFrom, Bit;
  }

  /** Everything heap_check looks at is as it should be. */
  predicate CheckPasses(a: Image)
    requires a.Formed()
  {
    WalkPasses(a.m, a.first, a.epi, false) && ListsPass(a, 0, 0, a.FreeBlocks())
  }

  /** The addresses in the lists are those of blocks. */
  ghost predicate OnlyBlocksListed(a: Image)
    requires a.Formed()
  {
    forall i, f :: 0 <= i < BINS && f in a.List(i) ==> Met(a.m, a.first, a.epi, f)
  }

  /** The epilogue has no flags of its own, and the bitmaps no bits past the last list and the last level. */
  ghost predicate NoStrayBits(a: Image)
    requires a.Formed()
  {
    && Word(a.m, a.epi + 4) % 2 == 0 && Word(a.m, a.epi + 4) / 4 % 2 == 0
    && (forall f, s :: 0 <= f < FL_COUNT && s >= SL_COUNT ==> !Bit(a.sl[f], s))
    && (forall f :: f >= FL_COUNT ==> !Bit(a.fl, f))
  }

  // ---- a sound heap passes ---------------------------------------------------------------------------------

  /** In a sound heap the walk goes from block to block. */
  lemma {:induction false} SoundWalks(v: View, c: nat)
    requires Sound(v, 0, v.h.free) && Apart(v.h) && IsHeader(v.h, c)
    ensures WalkPasses(v.m, c, v.h.epi, v.h.OverFree(c))
    ensures FreeAhead(v.m, c, v.h.epi) + |Under(v.h.free, c)| == |v.h.free|
    decreases v.h.epi - c
  {
    hide Sound, Tiles, Apart, SizeIn, FreeIn, PrevFreeIn, Head, Under, Shape.OverFree;
    SoundTiles(v, 0, v.h.free);
    SpanIs(v.h);
    if c in v.h.size { InSpan(v.h, c); }
    Reads(v, 0, v.h.free, c);
    if c == v.h.epi {
      CountAll(v.h, v.h.free);
    } else {
      BlockReads(v, 0, v.h.free, c);
      NextReads(v, 0, v.h.free, c);
      if c in v.h.free {
        NotBoth(v.h, c);
        FootReads(v, v.h.free, c);
      }
      CountNext(v.h, v.h.free, c);
      SoundWalks(v, v.h.End(c));
    }
  }

  /** And comes upon all of them. */
  lemma {:induction false} SoundMeets(v: View, c: nat, b: nat)
    requires Sound(v, 0, v.h.free) && IsHeader(v.h, c) && b in v.h.size && c <= b
    ensures Met(v.m, c, v.h.epi, b)
    decreases v.h.epi - c
  {
    hide Sound, Tiles, SizeIn, FreeIn, PrevFreeIn, Head, Shape.OverFree;
    SoundTiles(v, 0, v.h.free);
    InSpan(v.h, b);
    if c == b {
    } else {
      BlockReads(v, 0, v.h.free, c);
      NextReads(v, 0, v.h.free, c);
      EightApart(v.h, c, b);
      SoundMeets(v, v.h.End(c), b);
    }
  }

  ghost predicate Shows(a: Image, v: View)
  {
    v.m == a.m && v.bins == a.bins && v.sl == a.sl && v.fl == a.fl && v.h.first == a.first && v.h.epi == a.epi
  }

  /** A list of a sound heap, from place k on. */
  lemma {:induction false} SoundList(a: Image, v: View, i: nat, k: nat, left: nat)
    requires Sound(v, 0, v.h.free) && Shows(a, v) && i < BINS && |v.lists| == BINS && k <= |v.lists[i]|
    requires left >= |v.lists[i]| - k
    ensures ListPasses(a, i, At(v.lists[i], k), At(v.lists[i], k - 1), left)
    ensures ListFrom(a.m, At(v.lists[i], k), left) == v.lists[i][k..]
    decreases |v.lists[i]| - k
  {
    hide Sound, SizeIn, FreeIn, BinOf;
    ListReads(v, i, k);
    if k == |v.lists[i]| {
    } else {
      SoundList(a, v, i, k + 1, left - 1);
    }
  }

  /** The lists of a sound heap, from (f, s) on. */
  lemma {:induction false} SoundLists(a: Image, v: View, f: nat, s: nat, left: nat)
    requires a.Formed() && Sound(v, 0, v.h.free) && Shows(a, v) && f <= FL_COUNT && s <= SL_COUNT
    requires left + |ListedUnder(v.h, f * SL_COUNT + s)| == |v.h.free| && (f == FL_COUNT ==> s == 0)
    ensures ListsPass(a, f, s, left)
    decreases FL_COUNT - f, SL_COUNT - s
  {
    hide Sound, BinOf, ListedUnder, Bit, ListPasses, ListFrom, Seen, Filed;
    SoundFiled(v, 0, v.h.free);
    if f == FL_COUNT {
      SeeAll(v.h, v.lists);
    } else if s == SL_COUNT {
      LevelSays(v, f);
      SoundLists(a, v, f + 1, 0, left);
    } else {
      var i := f * SL_COUNT + s;
      MapsSay(v, f, s);
      HeadReads(v, 0, v.h.free, i);
      ListReads(v, i, 0);
      SeeThrough(v.h, v.lists, i);
      SoundList(a, v, i, 0, left);
      SoundLists(a, v, f, s + 1, left - |v.lists[i]|);
    }
  }

  /** A list holds all the blocks of its class. */
  lemma SeeThrough(h: Shape, lists: seq<seq<nat>>, i: nat)
    requires Filed(lists, h.size, h.free) && i < BINS && |lists| == BINS
    ensures |ListedUnder(h, i + 1)| == |ListedUnder(h, i)| + |lists[i]| && |ListedUnder(h, i + 1)| <= |h.free|
  {
    hide Filed, BinOf;
    SeeList(h, lists, i);
    SeeSome(h, lists, i, |lists[i]|);
    SubsetSize(ListedUnder(h, i + 1), h.free);
  }

  lemma {:induction false} SeeSome(h: Shape, lists: seq<seq<nat>>, i: nat, k: nat)
    requires Filed(lists, h.size, h.free) && i < BINS && k <= |lists[i]|
    ensures |Seen(h, lists, i, k)| == |Seen(h, lists, i, 0)| + k
  {
    hide Filed, Seen;
    if k == 0 {
    } else {
      SeeSome(h, lists, i, k - 1);
      SeeNext(h, lists, i, k - 1);
    }
  }

  // ---- what passes is sound, but for what the check does not look at ---------------------------------------

  /** A list that ends soon enough is the same list with more room. */
  lemma {:induction false} MoreRoom(a: Image, i: nat, f: nat, before: nat, left: nat, more: nat)
    requires ListPasses(a, i, f, before, left) && left <= more
    ensures ListPasses(a, i, f, before, more) && ListFrom(a.m, f, more) == ListFrom(a.m, f, left)
    decreases left
  {
    hide NodePasses, Word;
    if f == 0 {
    } else {
      MoreRoom(a, i, Word(a.m, f + 8), f, left - 1, more - 1);
    }
  }

  /** What was found at place k of a list. */
  lemma {:induction false} NodeAt(a: Image, i: nat, f: nat, before: nat, left: nat, k: nat)
    requires ListPasses(a, i, f, before, left) && k < |ListFrom(a.m, f, left)|
    ensures var l := ListFrom(a.m, f, left);
      && f == At(l, 0) && NodePasses(a, i, l[k], if k == 0 then before else l[k - 1])
      && Word(a.m, l[k] + 8) == At(l, k + 1)
    decreases left
  {
    hide NodePasses, Word;
    if k > 0 {
      NodeAt(a, i, Word(a.m, f + 8), f, left - 1, k - 1);
    } else if |ListFrom(a.m, f, left)| > 1 {
      NodeAt(a, i, Word(a.m, f + 8), f, left - 1, 0);
    } else {
      EndsThere(a, i, Word(a.m, f + 8), f, left - 1);
    }
  }

  lemma EndsThere(a: Image, i: nat, f: nat, before: nat, left: nat)
    requires ListPasses(a, i, f, before, left)
    ensures f == At(ListFrom(a.m, f, left), 0)
  {
  }

  /** What was found at list (g, t), and at level g. */
  lemma {:induction false} ListsSay(a: Image, f: nat, s: nat, left: nat, g: nat, t: nat)
    requires a.Formed() && f <= FL_COUNT && s <= SL_COUNT && ListsPass(a, f, s, left) && left <= a.FreeBlocks()
    requires g < FL_COUNT && t < SL_COUNT && (f < g || (f == g && s <= t))
    ensures HeadAgrees(a, g, t) && LevelAgrees(a, g)
    ensures ListPasses(a, g * SL_COUNT + t, a.bins[g * SL_COUNT + t], 0, a.FreeBlocks())
    decreases FL_COUNT - f, SL_COUNT - s
  {
    hide HeadAgrees, LevelAgrees, ListPasses, ListFrom, Bit, Image.FreeBlocks;
    if s == SL_COUNT {
      ListsSay(a, f + 1, 0, left, g, t);
    } else if f == g && s == t {
      MoreRoom(a, f * SL_COUNT + s, a.bins[f * SL_COUNT + s], 0, left, a.FreeBlocks());
      LevelSaid(a, f, s, left);
    } else {
      var rest := left - |ListFrom(a.m, a.bins[f * SL_COUNT + s], left)|;
      ListsSay(a, f, s + 1, rest, g, t);
    }
  }

  lemma {:induction false} LevelSaid(a: Image, f: nat, s: nat, left: nat)
    requires a.Formed() && f < FL_COUNT && s <= SL_COUNT && ListsPass(a, f, s, left)
    ensures LevelAgrees(a, f)
    decreases SL_COUNT - s
  {
    hide HeadAgrees, LevelAgrees, ListPasses, ListFrom;
    if s == SL_COUNT {
    } else {
      LevelSaid(a, f, s + 1, left - |ListFrom(a.m, a.bins[f * SL_COUNT + s], left)|);
    }
  }

  /** All the lists from i on, one after the other. */
  function Chained(a: Image, i: nat): seq<nat>
    requires a.Formed()
    decreases BINS - i
  {
    if i >= BINS then [] else a.List(i) + Chained(a, i + 1)
  }

  /** Together the lists have as many addresses as there are free blocks. */
  lemma {:induction false} ListsTotal(a: Image, f: nat, s: nat, left: nat)
    requires a.Formed() && f <= FL_COUNT && s <= SL_COUNT && ListsPass(a, f, s, left) && left <= a.FreeBlocks()
    requires f == FL_COUNT ==> s == 0
    ensures |Chained(a, f * SL_COUNT + s)| == left
    decreases FL_COUNT - f, SL_COUNT - s
  {
    hide HeadAgrees, LevelAgrees, ListPasses, ListFrom, Bit, Image.FreeBlocks;
    if f == FL_COUNT {
    } else if s == SL_COUNT {
      ListsTotal(a, f + 1, 0, left);
    } else {
      var i := f * SL_COUNT + s;
      MoreRoom(a, i, a.bins[i], 0, left, a.FreeBlocks());
      ListsTotal(a, f, s + 1, left - |ListFrom(a.m, a.bins[i], left)|);
    }
  }

  lemma ListGood(a: Image, i: nat)
    requires a.Formed() && CheckPasses(a) && i < BINS
    ensures ListPasses(a, i, a.bins[i], 0, a.FreeBlocks())
  {
    hide ListPasses, ListFrom, HeadAgrees, LevelAgrees, WalkPasses, Image.FreeBlocks, ListsPass;
    var f, s := i / SL_COUNT, i % SL_COUNT;
    assert f < FL_COUNT && s < SL_COUNT && f * SL_COUNT + s == i;
    ListsSay(a, 0, 0, a.FreeBlocks(), f, s);
  }

  /** What the check found at place k of list i. */
  lemma ListSays(a: Image, i: nat, k: nat)
    requires a.Formed() && CheckPasses(a) && i < BINS && k < |a.List(i)|
    ensures var l := a.List(i);
      a.bins[i] == At(l, 0) && NodePasses(a, i, l[k], At(l, k - 1)) && Word(a.m, l[k] + 8) == At(l, k + 1)
  {
    hide ListPasses, ListFrom, NodePasses, Image.FreeBlocks, CheckPasses, Word;
    ListGood(a, i);
    NodeAt(a, i, a.bins[i], 0, a.FreeBlocks(), k);
  }

  /** Going back from two places of a list at once, the first of it is reached from one before the other. */
  lemma {:induction false} NoRepeat(a: Image, i: nat, j: nat, k: nat)
    requires a.Formed() && CheckPasses(a) && i < BINS && j < k < |a.List(i)|
    ensures a.List(i)[j] != a.List(i)[k]
    decreases j
  {
    hide CheckPasses, ListFrom, Image.FreeBlocks, Image.List;
    ListSays(a, i, j);
    ListSays(a, i, k);
    ListSays(a, i, k - 1);
    if j > 0 {
      NoRepeat(a, i, j - 1, k - 1);
    }
  }

  lemma {:induction false} ChainedIs(a: Image, i: nat)
    requires a.Formed() && CheckPasses(a) && i <= BINS
    ensures Distinct(Chained(a, i))
    ensures forall f :: f in Chained(a, i) ==> exists j :: i <= j < BINS && f in a.List(j)
    decreases BINS - i
  {
    hide CheckPasses, ListFrom, Image.FreeBlocks, Image.List;
    if i == BINS {
    } else {
      ChainedIs(a, i + 1);
      var l, r := a.List(i), Chained(a, i + 1);
      forall j, k | 0 <= j < k < |l + r| ensures (l + r)[j] != (l + r)[k] {
        if k < |l| {
          NoRepeat(a, i, j, k);
        } else if j < |l| {
          assert r[k - |l|] in r;
          var n :| i + 1 <= n < BINS && r[k - |l|] in a.List(n);
          OtherList(a, i, n, j, r[k - |l|]);
        }
      }
    }
  }

  /** An address is in the list of one class only. */
  lemma OtherList(a: Image, i: nat, n: nat, j: nat, f: nat)
    requires a.Formed() && CheckPasses(a) && i < n < BINS && j < |a.List(i)| && f in a.List(n)
    ensures a.List(i)[j] != f
  {
    hide CheckPasses, Image.List, BinOf, SizeIn, FreeIn, Word;
    var k :| 0 <= k < |a.List(n)| && a.List(n)[k] == f;
    ListSays(a, i, j);
    ListSays(a, n, k);
  }

  lemma PassedShape(a: Image)
    requires a.Formed() && CheckPasses(a)
    ensures var h := a.Blocks();
      h.first == a.first && h.epi == a.epi && DescribesFrom(a.m, h, false) && |h.free| == a.FreeBlocks()
  {
    hide DescribesFrom, ListsPass;
    WalkDescribes(a.m, a.first, a.epi, false);
  }

  /** A header that says what it has to. */
  lemma HeadIs(m: seq<nat>, h: Shape, c: nat)
    requires Tiles(h) && c in h.size && HeadSays(m, h, c, false) && h.epi + 8 <= |m|
    ensures c + 8 <= |m| && m[c + 4] == Head(h, c)
    ensures SizeIn(Word(m, c + 4)) == h.size[c] && (FreeIn(Word(m, c + 4)) <==> c in h.free)
  {
    hide Tiles, SizeIn, FreeIn, PrevFreeIn, WithFree, WithoutFree, WithPrev, WithoutPrev, PrevIn;
    InSpan(h, c);
    FirstHeader(h);
    HeadParts(h.size[c], c in h.free, PrevAt(h, c, false));
  }

  /** The header of the epilogue, when it has no flags of its own. */
  lemma TopIs(m: seq<nat>, h: Shape)
    requires Tiles(h) && h.epi + 8 <= |m|
    requires SizeIn(m[h.epi + 4]) == 0 && m[h.epi + 4] % 2 == 0 && m[h.epi + 4] / 4 % 2 == 0
    requires PrevFreeIn(m[h.epi + 4]) <==> PrevAt(h, h.epi, false)
    ensures m[h.epi + 4] == Head(h, h.epi)
  {
    SpanIs(h);
    FirstHeader(h);
    HeadFrom(m[h.epi + 4]);
    hide Tiles, SizeIn, PrevFreeIn;
  }

  lemma PassedTagged(a: Image)
    requires a.Formed() && CheckPasses(a) && NoStrayBits(a)
    ensures var h := a.Blocks(); Tiles(h) && Apart(h) && Tagged(a.m, h, 0)
  {
    hide CheckPasses, Tiles, Apart, HeadSays, SizeIn, PrevFreeIn, Head, Bit, Image.Blocks, PrevAt, TagAt;
    hide FootAt, Image.List, Met;
    PassedShape(a);
    var h := a.Blocks();
    SpanIs(h);
    TopIs(a.m, h);
    forall c: nat | IsHeader(h, c) ensures TagAt(a.m, h, c, 0) { TagIs(a.m, h, c); }
    forall f | f in h.free ensures FootAt(a.m, h, f) { FootIs(a.m, h, f); }
    TagsMake(a.m, h, 0);
  }

  lemma TagIs(m: seq<nat>, h: Shape, c: nat)
    requires DescribesFrom(m, h, false) && IsHeader(h, c) && h.epi + 8 <= |m| && m[h.epi + 4] == Head(h, h.epi)
    ensures TagAt(m, h, c, 0)
  {
    hide Tiles, HeadSays, Head;
    if c in h.size { HeadIs(m, h, c); }
  }

  lemma FootIs(m: seq<nat>, h: Shape, f: nat)
    requires DescribesFrom(m, h, false) && f in h.free && h.epi + 8 <= |m|
    ensures FootAt(m, h, f)
  {
    hide Tiles, HeadSays, PrevAt;
    if f in h.size { InSpan(h, f); }
  }

  /** A listed address that is a block's is that of a free block of the list's class. */
  lemma ListedIs(a: Image, i: nat, f: nat)
    requires a.Formed() && CheckPasses(a) && OnlyBlocksListed(a) && i < BINS && f in a.List(i)
    ensures var h := a.Blocks();
      f in h.size && f in h.free && BinOf(h.size[f]) == i && 0 < f && f + 16 <= |a.m| && f % 8 == 0
  {
    hide CheckPasses, Tiles, Apart, HeadSays, SizeIn, FreeIn, PrevFreeIn, Bit, Image.List, Met, PrevAt, BinOf, Word;
    PassedShape(a);
    MetIsBlock(a.m, a.first, a.epi, f);
    InSpan(a.Blocks(), f);
    HeadIs(a.m, a.Blocks(), f);
    var k :| 0 <= k < |a.List(i)| && a.List(i)[k] == f;
    ListSays(a, i, k);
  }

  lemma PassedLinked(a: Image)
    requires a.Formed() && CheckPasses(a) && OnlyBlocksListed(a)
    ensures Linked(a.m, a.bins, a.Lists())
  {
    hide CheckPasses, OnlyBlocksListed, Image.List, Image.Blocks, BinOf, Node;
    forall i: nat | i < BINS ensures Chain(a.m, a.bins[i], a.List(i)) {
      HeadOfList(a, i);
      forall k: nat | k < |a.List(i)| ensures Node(a.m, a.List(i), k) { NodeIs(a, i, k); }
    }
  }

  lemma NodeIs(a: Image, i: nat, k: nat)
    requires a.Formed() && CheckPasses(a) && OnlyBlocksListed(a) && i < BINS && k < |a.List(i)|
    ensures Node(a.m, a.List(i), k)
  {
    hide CheckPasses, OnlyBlocksListed, Image.List, Image.Blocks, BinOf, SizeIn, FreeIn;
    ListSays(a, i, k);
    ListedIs(a, i, a.List(i)[k]);
  }

  lemma HeadOfList(a: Image, i: nat)
    requires a.Formed() && CheckPasses(a) && i < BINS
    ensures a.bins[i] == At(a.List(i), 0)
  {
    hide ListPasses, ListFrom, CheckPasses, Image.FreeBlocks;
    ListGood(a, i);
    EndsThere(a, i, a.bins[i], 0, a.FreeBlocks());
  }

  lemma PassedMapped(a: Image)
    requires a.Formed() && CheckPasses(a) && OnlyBlocksListed(a) && NoStrayBits(a)
    ensures Mapped(a.sl, a.fl, a.Lists())
  {
    hide CheckPasses, OnlyBlocksListed, Image.List, Bit, Met, BitFor, LevelFor;
    forall f, s | 0 <= f < FL_COUNT && 0 <= s ensures BitFor(a.sl, a.Lists(), f, s) { BitSays(a, f, s); }
    forall f | 0 <= f ensures LevelFor(a.sl, a.fl, f) {
      if f < FL_COUNT { MarkSays(a, f); }
      assert f >= FL_COUNT ==> !Bit(a.fl, f);
      LevelIs(a, f);
    }
  }

  lemma LevelIs(a: Image, f: nat)
    requires a.Formed() && (if f < FL_COUNT then Bit(a.fl, f) <==> a.sl[f] != 0 else !Bit(a.fl, f))
    ensures LevelFor(a.sl, a.fl, f)
  {
  }

  lemma BitSays(a: Image, f: nat, s: nat)
    requires a.Formed() && CheckPasses(a) && OnlyBlocksListed(a) && NoStrayBits(a) && f < FL_COUNT
    ensures BitFor(a.sl, a.Lists(), f, s)
  {
    hide CheckPasses, Image.List, Bit, Met, ListPasses, Image.FreeBlocks;
    if s < SL_COUNT {
      var i := f * SL_COUNT + s;
      PassedLists(a, f, s);
      HeadOfList(a, i);
      if a.List(i) != [] { NotNothing(a, i); }
    }
  }

  lemma PassedLists(a: Image, f: nat, s: nat)
    requires a.Formed() && CheckPasses(a) && f < FL_COUNT && s < SL_COUNT
    ensures HeadAgrees(a, f, s) && LevelAgrees(a, f)
  {
    hide ListPasses, ListFrom, HeadAgrees, LevelAgrees, WalkPasses, Image.FreeBlocks;
    ListsSay(a, 0, 0, a.FreeBlocks(), f, s);
  }

  lemma NotNothing(a: Image, i: nat)
    requires a.Formed() && CheckPasses(a) && OnlyBlocksListed(a) && i < BINS && a.List(i) != []
    ensures a.List(i)[0] != 0
  {
    hide CheckPasses, OnlyBlocksListed, Image.List, Image.Blocks, BinOf;
    ListedIs(a, i, a.List(i)[0]);
  }

  /** A level is marked when, and only when, one of its lists is. */
  lemma MarkSays(a: Image, f: nat)
    requires a.Formed() && CheckPasses(a) && OnlyBlocksListed(a) && NoStrayBits(a) && f < FL_COUNT
    ensures Bit(a.fl, f) <==> a.sl[f] != 0
  {
    hide CheckPasses, Image.List, Bit, Met;
    PassedLists(a, f, 0);
    if a.sl[f] != 0 {
      CtzIs(a.sl[f], 0);
      PassedLists(a, f, Ctz(a.sl[f]));
    }
  }

  /** The lists hold the free blocks, all of them, each in the list of its class. */
  lemma PassedFiled(a: Image)
    requires a.Formed() && CheckPasses(a) && OnlyBlocksListed(a)
    ensures var h := a.Blocks(); Filed(a.Lists(), h.size, h.free) && h.free <= h.size.Keys
  {
    hide CheckPasses, OnlyBlocksListed, Image.List, Image.Blocks, BinOf, Holds, Indexed, DescribesFrom;
    hide Image.FreeBlocks;
    var h := a.Blocks();
    PassedShape(a);
    forall i | 0 <= i < BINS ensures Holds(a.List(i), i, h.size, h.free) { ListHolds(a, i); }
    AllListed(a);
    forall f | f in h.free ensures Indexed(a.Lists(), h.size, f) { FreeIndexed(a, f); }
    assert Tiles(h) by { DescribedTiles(a.m, h); }
    SpanIs(h);
  }

  lemma DescribedTiles(m: seq<nat>, h: Shape)
    requires DescribesFrom(m, h, false)
    ensures Tiles(h) && Apart(h)
  {
    hide Tiles, Apart, HeadSays;
  }

  lemma ListHolds(a: Image, i: nat)
    requires a.Formed() && CheckPasses(a) && OnlyBlocksListed(a) && i < BINS
    ensures Holds(a.List(i), i, a.Blocks().size, a.Blocks().free)
  {
    hide CheckPasses, OnlyBlocksListed, Image.List, Image.Blocks, BinOf;
    var l := a.List(i);
    forall k | 0 <= k < |l|
      ensures l[k] > 0 && l[k] % 8 == 0 && l[k] in a.Blocks().free && l[k] in a.Blocks().size
        && BinOf(a.Blocks().size[l[k]]) == i
    {
      ListedIs(a, i, l[k]);
    }
    forall j, k | 0 <= j < k < |l| ensures l[j] != l[k] { NoRepeat(a, i, j, k); }
  }

  /** As many addresses are listed as there are free blocks, each once: no free block is left out. */
  lemma AllListed(a: Image)
    requires a.Formed() && CheckPasses(a) && OnlyBlocksListed(a)
    ensures forall f :: f in a.Blocks().free ==> f in Chained(a, 0)
  {
    hide OnlyBlocksListed, Image.List, Image.Blocks, BinOf, DescribesFrom, Distinct, ListsPass, WalkPasses;
    hide Chained, Image.FreeBlocks;
    PassedShape(a);
    ChainedIs(a, 0);
    ListsTotal(a, 0, 0, a.FreeBlocks());
    forall f | f in Chained(a, 0) ensures f in a.Blocks().free {
      var j :| 0 <= j < BINS && f in a.List(j);
      ListedIs(a, j, f);
    }
    forall f | f in a.Blocks().free ensures f in Chained(a, 0) {
      DistinctAll(Chained(a, 0), a.Blocks().free, f);
    }
  }

  lemma FreeIndexed(a: Image, f: nat)
    requires a.Formed() && CheckPasses(a) && OnlyBlocksListed(a) && f in Chained(a, 0)
    ensures Indexed(a.Lists(), a.Blocks().size, f)
  {
    hide CheckPasses, OnlyBlocksListed, Image.List, Image.Blocks, BinOf, Distinct, Chained;
    ChainedIs(a, 0);
    var j :| 0 <= j < BINS && f in a.List(j);
    ListedIs(a, j, f);
  }

  /** Where the check passes, the lists hold exactly the free blocks if and only if only blocks are listed. */
  lemma FiledExactly(a: Image)
    requires a.Formed() && CheckPasses(a)
    ensures Filed(a.Lists(), a.Blocks().size, a.Blocks().free) <==> OnlyBlocksListed(a)
  {
    hide CheckPasses, Image.List, ShapeFrom, BinOf, Indexed, Met;
    var h := a.Blocks();
    if OnlyBlocksListed(a) { PassedFiled(a); }
    if Filed(a.Lists(), h.size, h.free) {
      forall i, f | 0 <= i < BINS && f in a.List(i) ensures Met(a.m, a.first, a.epi, f) {
        assert Holds(a.Lists()[i], i, h.size, h.free) && f in a.Lists()[i];
        MetIsBlock(a.m, a.first, a.epi, f);
      }
    }
  }

  /** Some blocks and lists make the heap that memory, heads and bitmaps show a sound one at rest. */
  ghost predicate Intact(a: Image)
  {
    exists v: View :: Shows(a, v) && Sound(v, 0, v.h.free) && Apart(v.h)
  }

  /**
   * heap_check finds nothing, and the two things it does not look at are as they should be, exactly when the heap is
   * sound.
   */
  lemma PassesExactly(a: Image)
    requires a.Formed()
    ensures Intact(a) <==> CheckPasses(a) && OnlyBlocksListed(a) && NoStrayBits(a)
  {
    hide CheckPasses, OnlyBlocksListed, NoStrayBits, Sound, Shows, Apart;
    if CheckPasses(a) && OnlyBlocksListed(a) && NoStrayBits(a) { PassedIsSound(a); }
    if Intact(a) {
      var v :| Shows(a, v) && Sound(v, 0, v.h.free) && Apart(v.h);
      SoundPasses(a, v);
      SoundNotStray(a, v);
    }
  }

  lemma PassedIsSound(a: Image)
    requires a.Formed() && CheckPasses(a) && OnlyBlocksListed(a) && NoStrayBits(a)
    ensures Intact(a)
  {
    hide CheckPasses, OnlyBlocksListed, NoStrayBits, Linked, Mapped, Filed, Tiles, Tagged, Apart;
    hide Image.List, DescribesFrom;
    PassedShape(a);
    PassedTagged(a);
    PassedLinked(a);
    PassedMapped(a);
    PassedFiled(a);
    var v := a.AsView();
    assert Shows(a, v) && Sound(v, 0, v.h.free) && Apart(v.h);
  }

  /** heap_check finds nothing wrong with a sound heap. */
  lemma SoundPasses(a: Image, v: View)
    requires a.Formed() && Shows(a, v) && Sound(v, 0, v.h.free) && Apart(v.h)
    ensures CheckPasses(a) && a.FreeBlocks() == |v.h.free|
  {
    hide Sound, Apart, Under, ListedUnder, Tiles, Filed, Shape.OverFree, WalkPasses, FreeAhead, ListsPass;
    SoundTiles(v, 0, v.h.free);
    SpanIs(v.h);
    FirstHeader(v.h);
    CountAll(v.h, v.h.free);
    SoundWalks(v, a.first);
    SoundFiled(v, 0, v.h.free);
    SeeAll(v.h, v.lists);
    SoundLists(a, v, 0, 0, |v.h.free|);
  }

  lemma SoundNotStray(a: Image, v: View)
    requires a.Formed() && Shows(a, v) && Sound(v, 0, v.h.free) && Apart(v.h)
    ensures OnlyBlocksListed(a) && NoStrayBits(a)
  {
    hide Sound, Apart, Tiles, Filed, Bit, Met, BitFor, LevelFor, Image.List, CheckPasses;
    SoundPasses(a, v);
    SoundTop(v);
    MapsSound(v, 0, v.h.free);
    forall i, f | 0 <= i < BINS && f in a.List(i) ensures Met(a.m, a.first, a.epi, f) { ListedMet(a, v, i, f); }
    forall f, s | 0 <= f < FL_COUNT && s >= SL_COUNT ensures !Bit(a.sl[f], s) { NoBitPast(v, f, s); }
    forall f | f >= FL_COUNT ensures !Bit(a.fl, f) { NoLevelPast(v, f); }
  }

  lemma SoundTop(v: View)
    requires Sound(v, 0, v.h.free)
    ensures var head := Word(v.m, v.h.epi + 4); head % 2 == 0 && head / 4 % 2 == 0
  {
    hide Sound, Tiles, SizeIn, PrevFreeIn, Head, Shape.OverFree;
    SoundTiles(v, 0, v.h.free);
    SpanIs(v.h);
    Reads(v, 0, v.h.free, v.h.epi);
  }

  lemma NoBitPast(v: View, f: nat, s: nat)
    requires Mapped(v.sl, v.fl, v.lists) && f < FL_COUNT && s >= SL_COUNT
    ensures !Bit(v.sl[f], s)
  {
    hide Bit, LevelFor;
    assert BitFor(v.sl, v.lists, f, s);
  }

  lemma NoLevelPast(v: View, f: nat)
    requires Mapped(v.sl, v.fl, v.lists) && f >= FL_COUNT
    ensures !Bit(v.fl, f)
  {
    hide Bit, BitFor;
    assert LevelFor(v.sl, v.fl, f);
  }

  lemma ListedIsBlock(v: View, i: nat, f: nat)
    requires Filed(v.lists, v.h.size, v.h.free) && i < BINS && |v.lists| == BINS && f in v.lists[i]
    ensures f in v.h.size
  {
    hide BinOf, Indexed;
    assert Holds(v.lists[i], i, v.h.size, v.h.free);
  }

  lemma ListedMet(a: Image, v: View, i: nat, f: nat)
    requires a.Formed() && Shows(a, v) && Sound(v, 0, v.h.free) && Apart(v.h) && i < BINS && f in a.List(i)
    requires a.FreeBlocks() == |v.h.free|
    ensures Met(a.m, a.first, a.epi, f)
  {
    hide Sound, Apart, Tiles, ListFrom, ListPasses, FreeAhead, Met, BinOf, Filed, ListedUnder;
    HeadReads(v, 0, v.h.free, i);
    SoundFiled(v, 0, v.h.free);
    SeeThrough(v.h, v.lists, i);
    SoundList(a, v, i, 0, |v.h.free|);
    SoundTiles(v, 0, v.h.free);
    FirstHeader(v.h);
    ListedIsBlock(v, i, f);
    InSpan(v.h, f);
    SoundMeets(v, a.first, f);
  }

  // ---- a damaged heap that passes ----------------------------------------------------------------------------

  /** A used block of 32 bytes at 8, with a header of a free one in its payload, and a free block of 24 at 48. */
  function Forged(): (a: Image)
    ensures a.Formed()
  {
    var words := map[12 := 32, 20 := 25, 52 := 25, 80 := 24, 84 := 2];
    Image(seq(88, i => if i in words then words[i] else 0), seq(BINS, i => if i == 3 then 16 else 0),
          seq(FL_COUNT, f => if f == 0 then 8 else 0), 1, 8, 80)
  }

  lemma ForgedIs()
    ensures var a := Forged();
      && a.first == 8 && a.epi == 80 && a.fl == 1
      && Word(a.m, 12) == 32 && Word(a.m, 20) == 25 && Word(a.m, 24) == 0 && Word(a.m, 28) == 0
      && Word(a.m, 52) == 25 && Word(a.m, 80) == 24 && Word(a.m, 84) == 2
      && (forall f :: 0 <= f < FL_COUNT ==> a.sl[f] == if f == 0 then 8 else 0)
      && (forall i :: 0 <= i < BINS ==> a.bins[i] == if i == 3 then 16 else 0)
  {
  }

  /** A block with nothing wrong in front of blocks with nothing wrong. */
  lemma WalkOn(m: seq<nat>, b: nat, high: nat, prevFree: bool, size: nat, free: bool)
    requires Word(m, b + 4) == size + (if free then 1 else 0) + (if prevFree then 2 else 0)
    requires b % 8 == 0 && size % 8 == 0 && size >= 8 && b + 8 + size <= high && !(free && prevFree)
    requires (free ==> Word(m, b + 8 + size) == size) && WalkPasses(m, b + 8 + size, high, free)
    ensures WalkPasses(m, b, high, prevFree)
    ensures FreeAhead(m, b, high) == FreeAhead(m, b + 8 + size, high) + if free then 1 else 0
    ensures ShapeFrom(m, b, high).free == ShapeFrom(m, b + 8 + size, high).free + if free then {b} else {}
  {
    hide SizeIn, FreeIn, PrevFreeIn, WithFree, WithoutFree, WithPrev, WithoutPrev, PrevIn, Word;
    HeadParts(size, free, prevFree);
  }

  lemma ForgedWalk()
    ensures var a := Forged();
      WalkPasses(a.m, a.first, a.epi, false) && a.FreeBlocks() == 1 && a.Blocks().free == {48}
  {
    hide Forged, Word, WalkPasses, FreeAhead, ShapeFrom;
    ForgedIs();
    ForgedTop();
    WalkOn(Forged().m, 48, 80, false, 24, true);
    WalkOn(Forged().m, 8, 80, false, 32, false);
  }

  lemma ForgedTop()
    ensures var m := Forged().m;
      WalkPasses(m, 80, 80, true) && FreeAhead(m, 80, 80) == 0 && ShapeFrom(m, 80, 80).free == {}
  {
    hide Forged, Word;
    ForgedIs();
  }

  lemma BitsOfEight(s: nat)
    ensures Bit(8, s) <==> s == 3
  {
    if s > 3 {
      NoBitsIsZero(s - 4);
      assert Bit(1, s - 3) == Bit(0, s - 4) && Bit(2, s - 2) == Bit(1, s - 3);
      assert Bit(8, s) == Bit(4, s - 1) == Bit(2, s - 2);
    }
  }

  lemma ForgedBits(f: nat, s: nat)
    requires f < FL_COUNT && s < SL_COUNT
    ensures var a := Forged(); (Bit(a.sl[f], s) <==> f == 0 && s == 3) && (Bit(a.fl, f) <==> f == 0)
  {
    hide Forged, Word;
    ForgedIs();
    BitsOfEight(s);
    NoBitsIsZero(s);
    if f > 0 { NoBitsIsZero(f - 1); }
  }

  lemma ForgedList(left: nat)
    requires left >= 1
    ensures var a := Forged(); ListPasses(a, 3, 16, 0, left) && ListFrom(a.m, 16, left) == [16]
  {
    hide Forged, Word;
    ForgedIs();
    assert SizeIn(25) == 24 && BinOf(24) == 3;
  }

  lemma {:induction false} ForgedLists(f: nat, s: nat, left: nat)
    requires f <= FL_COUNT && s <= SL_COUNT && left == (if f == 0 && s <= 3 then 1 else 0)
    ensures ListsPass(Forged(), f, s, left)
    decreases FL_COUNT - f, SL_COUNT - s
  {
    hide Forged, Bit, ListsPass, ListPasses, ListFrom, HeadAgrees, Word;
    ListsStep(Forged(), f, s, left);
    if f == FL_COUNT {
    } else if s == SL_COUNT {
      ForgedBits(f, 0);
      ForgedIs();
      ForgedLists(f + 1, 0, left);
    } else {
      ForgedHead(f, s, left);
      ForgedLists(f, s + 1, if f == 0 && s < 3 then 1 else 0);
    }
  }

  lemma ForgedHead(f: nat, s: nat, left: nat)
    requires f < FL_COUNT && s < SL_COUNT && left == (if f == 0 && s <= 3 then 1 else 0)
    ensures var a, i := Forged(), f * SL_COUNT + s;
      && HeadAgrees(a, f, s) && ListPasses(a, i, a.bins[i], 0, left)
      && |ListFrom(a.m, a.bins[i], left)| == if i == 3 then 1 else 0
  {
    hide Forged, Bit, ListPasses, ListFrom, Word;
    ForgedIs();
    ForgedBits(f, s);
    ForgedList(1);
    NoList(Forged(), f * SL_COUNT + s, left);
  }

  lemma NoList(a: Image, i: nat, left: nat)
    ensures ListPasses(a, i, 0, 0, left) && ListFrom(a.m, 0, left) == []
  {
  }

  /** heap_check finds nothing wrong with a heap whose one free block is in no list. */
  lemma ForgedPasses()
    ensures var a := Forged();
      CheckPasses(a) && a.Blocks().free == {48} && forall i :: 0 <= i < BINS ==> 48 !in a.List(i)
  {
    hide Forged, WalkPasses, ListsPass, ListFrom, Bit, Image.FreeBlocks, Image.Blocks, Word;
    var a := Forged();
    ForgedIs();
    ForgedWalk();
    ForgedLists(0, 0, 1);
    forall i | 0 <= i < BINS ensures 48 !in a.List(i) {
      ForgedList(1);
      NoList(a, i, 1);
    }
  }
}
