/** The whole state of the heap, and what each step on it keeps. */
module HeapState {
  import opened HeapShape
  import opened HeapHeaders
  import opened HeapPayloads
  import opened HeapLists
  import opened SizeClasses

  /** Memory, list heads and bitmaps, with the blocks and the lists they stand for. */
  datatype View = View(m: seq<nat>, bins: seq<nat>, sl: seq<nat>, fl: nat, h: Shape, lists: seq<seq<nat>>)

  /**
   * Memory describes the blocks of the shape, which tile the heap; the lists hold the blocks of S and no others, and
   * the bitmaps say which lists hold any. Between two steps of an operation S lacks the block being worked on, and the
   * head at `loose` may lag behind; at rest S is the free blocks and loose is 0.
   */
  ghost predicate Sound(v: View, loose: nat, S: set<nat>)
  {
    && Tiles(v.h) && Tagged(v.m, v.h, loose)
    && Linked(v.m, v.bins, v.lists) && Mapped(v.sl, v.fl, v.lists)
    && Filed(v.lists, v.h.size, S) && S <= v.h.size.Keys
    && |v.m| <= 0x4000_0000
  }

  // ---- reading headers ---------------------------------------------------------------------------

  /** What the two words of a header say. */
  lemma Reads(v: View, loose: nat, S: set<nat>, c: nat)
    requires Sound(v, loose, S) && IsHeader(v.h, c) && c != loose
    ensures c + 8 <= |v.m| && c % 8 == 0 && c > 0
    ensures SizeIn(v.m[c + 4]) == Payload(v.h, c) && v.m[c + 4] / 4 % 2 == 0
    ensures FreeIn(v.m[c + 4]) <==> c in v.h.free
    ensures PrevFreeIn(v.m[c + 4]) <==> v.h.OverFree(c)
    ensures v.m[c + 4] == Head(v.h, c)
  {
    hide Tiles, Tagged, Fits, Rests, Linked, Mapped, Filed;
    TagOf(v.m, v.h, loose, c);
    PayloadAligned(v.h, c);
    HeadParts(Payload(v.h, c), c in v.h.free, v.h.OverFree(c));
  }

  lemma PayloadAligned(h: Shape, c: nat)
    requires Tiles(h) && IsHeader(h, c)
    ensures Payload(h, c) % 8 == 0
  {
    hide Tiles, Fits, Rests;
    if c in h.size { InSpan(h, c); }
  }

  /** The free block below a header is where the header says. */
  lemma ReadsBelow(v: View, loose: nat, S: set<nat>, c: nat)
    requires Sound(v, loose, S) && IsHeader(v.h, c) && v.h.OverFree(c)
    ensures c + 8 <= |v.m| && v.m[c] + 8 <= c
    ensures var p := v.h.below[c]; p == c - 8 - v.m[c] && p in v.h.size && p in v.h.free && v.h.End(p) == c
  {
    hide Tiles, Tagged, Linked, Mapped, Filed;
    TagOf(v.m, v.h, loose, c);
    FootOf(v.m, v.h, loose, v.h.below[c]);
  }

  /** A block's size is within memory, so within the size classes. */
  lemma ClassInRange(v: View, loose: nat, S: set<nat>, b: nat)
    requires Sound(v, loose, S) && b in v.h.size
    ensures BinOf(v.h.size[b]) < BINS && v.h.End(b) + 8 <= |v.m|
  {
    hide BinOf, Tagged, Fits, Rests, Linked, Mapped, Filed, Tiles;
    InSpan(v.h, b);
    EndIsHeader(v.h, b);
    HeaderBound(v.m, v.h, loose, v.h.End(b));
    BinRange(v.h.size[b]);
  }

  // ---- writes that keep the lists and the used blocks ------------------------------------------------

  /** Writes outside the payloads of the listed blocks keep the links. */
  lemma LinksSurvive(v: View, loose: nat, S: set<nat>, m2: seq<nat>)
    requires Sound(v, loose, S) && DifferOutside(v.m, m2, v.h, S)
    ensures Linked(m2, v.bins, v.lists)
  {
    hide Tagged, Fits, Rests, Mapped, Chain, Tiles, BinOf, DifferOutside, Indexed;
    forall i, k | 0 <= i < BINS && 0 <= k < |v.lists[i]| && v.lists[i][k] + 16 <= |v.m|
      ensures |m2| == |v.m|
        && m2[v.lists[i][k] + 8] == v.m[v.lists[i][k] + 8] && m2[v.lists[i][k] + 12] == v.m[v.lists[i][k] + 12]
    {
      assert Holds(v.lists[i], i, v.h.size, S);
      InSpan(v.h, v.lists[i][k]);
      PayloadSame(v.m, m2, v.h, S, v.lists[i][k]);
    }
    assert |m2| == |v.m| by { SameLength(v.m, m2, v.h, S); }
    LinkedSame(v.m, m2, v.bins, v.lists);
  }

  lemma SameLength(m: seq<nat>, m2: seq<nat>, h: Shape, K: set<nat>)
    requires DifferOutside(m, m2, h, K)
    ensures |m2| == |m|
  {
  }

  lemma PayloadSame(m: seq<nat>, m2: seq<nat>, h: Shape, K: set<nat>, b: nat)
    requires DifferOutside(m, m2, h, K) && b in K && b in h.size && h.size[b] >= 8 && b + 16 <= |m|
    ensures |m2| == |m| && m2[b + 8] == m[b + 8] && m2[b + 12] == m[b + 12]
  {
    assert !Outside(h, K, b + 8) && !Outside(h, K, b + 12);
  }

  /** What a step needs to show beside the headers it writes. */
  lemma StepSound(v: View, loose: nat, S: set<nat>, m2: seq<nat>, g: Shape, loose2: nat)
    requires Sound(v, loose, S) && DifferOutside(v.m, m2, v.h, S)
    requires Tiles(g) && Tagged(m2, g, loose2)
    requires S <= g.size.Keys && (forall f :: f in S && f in v.h.size ==> f in g.size && g.size[f] == v.h.size[f])
    ensures Sound(v.(m := m2, h := g), loose2, S)
  {
    hide Tiles, Tagged, Linked, Mapped, Filed, DifferOutside;
    LinksSurvive(v, loose, S, m2);
    SameLength(v.m, m2, v.h, S);
    FiledSizes(v.lists, v.h.size, g.size, S);
  }

  // ---- the steps -----------------------------------------------------------------------------------

  lemma TakeDiffers(v: View, S: set<nat>, m2: seq<nat>, b: nat, e: nat, x: nat, y: nat, K: set<nat>)
    requires b + 8 <= |v.m| && e + 8 <= |v.m| && m2 == v.m[b + 4 := x][e + 4 := y]
    requires Sound(v, 0, S) && IsHeader(v.h, b) && IsHeader(v.h, e)
    ensures DifferOutside(v.m, m2, v.h, K)
  {
    hide Tiles, Tagged, Linked, Mapped, Filed, Outside, IsHeader;
    HeaderOutside(v.h, K, b, b + 4);
    HeaderOutside(v.h, K, e, e + 4);
  }

  /** Free block b, no longer listed, is taken into use. */
  lemma TakeStep(v: View, S: set<nat>, m2: seq<nat>, b: nat, e: nat)
    requires b + 8 <= |v.m| && e + 8 <= |v.m|
    requires m2 == v.m[b + 4 := WithoutFree(v.m[b + 4])][e + 4 := WithoutPrev(v.m[e + 4])]
    requires Sound(v, 0, S) && b in v.h.size && b in v.h.free && b !in S && e == v.h.End(b)
    ensures Sound(v.(m := m2, h := v.h.Taken(b)), 0, S)
    ensures Keeps(v.m, v.h, m2, v.h.Taken(b), v.h.Used())
  {
    hide Tiles, Tagged, Linked, Mapped, Filed, Keeps, DifferOutside, Fits, WithoutFree, WithoutPrev;
    var h := v.h;
    EndIsHeader(h, b);
    TakeTags(v.m, m2, h, b, e);
    TakenTiles(h, b);
    TakeDiffers(v, S, m2, b, e, WithoutFree(v.m[b + 4]), WithoutPrev(v.m[e + 4]), S);
    TakeDiffers(v, S, m2, b, e, WithoutFree(v.m[b + 4]), WithoutPrev(v.m[e + 4]), h.Used());
    StepSound(v, 0, S, m2, h.Taken(b), 0);
    KeepsWrites(v.m, m2, h, h.Taken(b), h.Used());
  }

  lemma FreeDiffers(v: View, S: set<nat>, loose: nat, m2: seq<nat>, b: nat, e: nat, x: nat, y: nat, z: nat, K: set<nat>)
    requires b + 8 <= |v.m| && e + 8 <= |v.m| && m2 == v.m[b + 4 := x][e := y][e + 4 := z]
    requires Sound(v, loose, S) && IsHeader(v.h, b) && IsHeader(v.h, e)
    ensures DifferOutside(v.m, m2, v.h, K)
  {
    hide Tiles, Tagged, Linked, Mapped, Filed, Outside, IsHeader;
    HeaderOutside(v.h, K, b, b + 4);
    HeaderOutside(v.h, K, e, e);
    HeaderOutside(v.h, K, e, e + 4);
  }

  /** Used block b is made free. */
  lemma FreeStep(v: View, S: set<nat>, loose: nat, m2: seq<nat>, b: nat, e: nat)
    requires b + 8 <= |v.m| && e + 8 <= |v.m| && b in v.h.size
    requires m2 == v.m[b + 4 := WithFree(v.m[b + 4])][e := v.h.size[b]][e + 4 := WithPrev(v.m[e + 4])]
    requires Sound(v, loose, S) && b !in v.h.free && e == v.h.End(b) && (loose == 0 || loose == e)
    ensures Sound(v.(m := m2, h := v.h.Freed(b)), 0, S)
    ensures Keeps(v.m, v.h, m2, v.h.Freed(b), v.h.Used() - {b})
  {
    hide Tiles, Tagged, Linked, Mapped, Filed, Keeps, DifferOutside, Fits, WithFree, WithPrev;
    var h, K := v.h, v.h.Used() - {b};
    EndIsHeader(h, b);
    FreeTags(v.m, m2, h, b, e, loose);
    FreedTiles(h, b);
    FreeDiffers(v, S, loose, m2, b, e, WithFree(v.m[b + 4]), h.size[b], WithPrev(v.m[e + 4]), S);
    FreeDiffers(v, S, loose, m2, b, e, WithFree(v.m[b + 4]), h.size[b], WithPrev(v.m[e + 4]), K);
    StepSound(v, loose, S, m2, h.Freed(b), 0);
    KeepsWrites(v.m, m2, h, h.Freed(b), K);
  }

  lemma HeadDiffers(v: View, S: set<nat>, loose: nat, m2: seq<nat>, b: nat, x: nat, K: set<nat>)
    requires b + 8 <= |v.m| && m2 == v.m[b + 4 := x] && Sound(v, loose, S) && IsHeader(v.h, b)
    ensures DifferOutside(v.m, m2, v.h, K)
  {
    hide Tiles, Tagged, Linked, Mapped, Filed, Outside, IsHeader;
    HeaderOutside(v.h, K, b, b + 4);
  }

  /** Used block b takes in the free block n above it, no longer listed. */
  lemma JoinUpStep(v: View, S: set<nat>, m2: seq<nat>, b: nat, n: nat)
    requires b + 8 <= |v.m| && b in v.h.size && n == v.h.End(b) && n in v.h.size
    requires m2 == v.m[b + 4 := v.m[b + 4] + 8 + v.h.size[n]]
    requires Sound(v, 0, S) && b !in v.h.free && n in v.h.free && n !in S && b !in S
    ensures Sound(v.(m := m2, h := v.h.Joined(b)), v.h.End(n), S)
    ensures Keeps(v.m, v.h, m2, v.h.Joined(b), v.h.Used() - {b})
  {
    hide Tiles, Tagged, Linked, Mapped, Filed, Keeps, DifferOutside, Fits;
    var h, K := v.h, v.h.Used() - {b};
    EndIsHeader(h, b);
    JoinUpTags(v.m, m2, h, b, n);
    JoinedTiles(h, b);
    HeadDiffers(v, S, 0, m2, b, v.m[b + 4] + 8 + h.size[n], S);
    HeadDiffers(v, S, 0, m2, b, v.m[b + 4] + 8 + h.size[n], K);
    StepSound(v, 0, S, m2, h.Joined(b), h.End(n));
    KeepsWrites(v.m, m2, h, h.Joined(b), K);
  }

  /** The free block p below used block b, no longer listed, takes b in. */
  lemma JoinDownStep(v: View, S: set<nat>, loose: nat, m2: seq<nat>, p: nat, b: nat)
    requires p + 8 <= |v.m| && p in v.h.size && b == v.h.End(p) && b in v.h.size && (loose == 0 || loose == v.h.End(b))
    requires m2 == v.m[p + 4 := WithoutFree(v.m[p + 4]) + 8 + v.h.size[b]]
    requires Sound(v, loose, S) && p in v.h.free && b !in v.h.free && p !in S && b !in S
    ensures Sound(v.(m := m2, h := v.h.JoinedDown(p)), v.h.End(b), S)
    ensures Keeps(v.m, v.h, m2, v.h.JoinedDown(p), v.h.Used() - {b})
  {
    hide Tiles, Tagged, Linked, Mapped, Filed, Keeps, DifferOutside, Fits, WithoutFree;
    var h, K := v.h, v.h.Used() - {b};
    EndIsHeader(h, p);
    JoinDownTags(v.m, m2, h, p, b, loose);
    TakenTiles(h, p);
    JoinedTiles(h.Taken(p), p);
    HeadDiffers(v, S, loose, m2, p, WithoutFree(v.m[p + 4]) + 8 + h.size[b], S);
    HeadDiffers(v, S, loose, m2, p, WithoutFree(v.m[p + 4]) + 8 + h.size[b], K);
    StepSound(v, loose, S, m2, h.JoinedDown(p), h.End(b));
    KeepsWrites(v.m, m2, h, h.JoinedDown(p), K);
  }

  /** The flag left behind at x, above a used block, is cleared. */
  lemma SettleStep(v: View, S: set<nat>, m2: seq<nat>, x: nat)
    requires x + 8 <= |v.m| && m2 == v.m[x + 4 := WithoutPrev(v.m[x + 4])]
    requires Sound(v, x, S) && IsHeader(v.h, x) && !v.h.OverFree(x)
    ensures Sound(v.(m := m2), 0, S)
    ensures Keeps(v.m, v.h, m2, v.h, v.h.Used())
  {
    hide Tiles, Tagged, Linked, Mapped, Filed, Keeps, DifferOutside, WithoutPrev, Shape.OverFree;
    SettleTags(v.m, m2, v.h, x);
    HeadDiffers(v, S, x, m2, x, WithoutPrev(v.m[x + 4]), S);
    HeadDiffers(v, S, x, m2, x, WithoutPrev(v.m[x + 4]), v.h.Used());
    StepSound(v, x, S, m2, v.h, 0);
    KeepsWrites(v.m, m2, v.h, v.h, v.h.Used());
  }

  lemma SplitDiffers(v: View, S: set<nat>, m2: seq<nat>, b: nat, rest: nat, x: nat, y: nat, K: set<nat>)
    requires rest + 8 <= |v.m| && b < rest && m2 == v.m[rest + 4 := x][b + 4 := y]
    requires Sound(v, 0, S) && b in v.h.size && rest + 8 <= v.h.End(b) && b !in K
    ensures DifferOutside(v.m, m2, v.h, K)
  {
    hide Tiles, Tagged, Linked, Mapped, Filed, Outside, IsHeader;
    InsideOutside(v.h, K, b, b + 4);
    InsideOutside(v.h, K, b, rest + 4);
  }

  /** Used block b is cut in two. */
  lemma SplitStep(v: View, S: set<nat>, m2: seq<nat>, b: nat, s: nat)
    requires b in v.h.size && s % 8 == 0 && s >= 8 && s + 16 <= v.h.size[b] && b + 16 + s <= |v.m|
    requires m2 == v.m[b + 8 + s + 4 := v.h.size[b] - s - 8][b + 4 := s + PrevIn(v.m[b + 4])]
    requires Sound(v, 0, S) && b !in v.h.free && b !in S
    ensures Sound(v.(m := m2, h := v.h.Split(b, s)), 0, S)
    ensures Keeps(v.m, v.h, m2, v.h.Split(b, s), v.h.Used() - {b})
    ensures b + 8 + s !in v.h.size && b + 8 + s !in v.h.free && SamePayload(v.m, m2, b, s)
  {
    hide Tiles, Tagged, Linked, Mapped, Filed, Keeps, DifferOutside, Fits, PrevIn;
    var h, K, rest := v.h, v.h.Used() - {b}, b + 8 + s;
    NoneInside(h, b, rest);
    FreeAreBlocks(h);
    SplitTags(v.m, m2, h, b, s);
    SplitTiles(h, b, s);
    SplitDiffers(v, S, m2, b, rest, h.size[b] - s - 8, s + PrevIn(v.m[b + 4]), S);
    SplitDiffers(v, S, m2, b, rest, h.size[b] - s - 8, s + PrevIn(v.m[b + 4]), K);
    StepSound(v, 0, S, m2, h.Split(b, s), 0);
    KeepsWrites(v.m, m2, h, h.Split(b, s), K);
  }

  lemma RaiseDiffers(v: View, S: set<nat>, loose: nat, m2: seq<nat>, c: nat, to: nat, x: nat, K: set<nat>)
    requires to + 8 <= |v.m| && c + 8 <= to && m2 == v.m[to := 0][to + 4 := 0][c + 4 := x]
    requires Sound(v, loose, S) && IsHeader(v.h, c) && to >= v.h.epi
    ensures DifferOutside(v.m, m2, v.h, K)
  {
    hide Tiles, Tagged, Linked, Mapped, Filed, Outside, IsHeader;
    AboveOutside(v.h, K, to);
    AboveOutside(v.h, K, to + 4);
    HeaderOutside(v.h, K, c, c + 4);
  }

  /** The last block b, no longer listed if it was free, is taken into use and raised to s bytes. */
  lemma RaiseStep(v: View, S: set<nat>, loose: nat, m2: seq<nat>, b: nat, s: nat, to: nat)
    requires b in v.h.size && v.h.End(b) == v.h.epi && to == b + 8 + s
    requires s > v.h.size[b] && s % 8 == 0 && to + 8 <= |v.m|
    requires m2 == v.m[to := 0][to + 4 := 0][b + 4 := s + PrevIn(v.m[b + 4])] && (loose == 0 || loose == v.h.epi)
    requires Sound(v, loose, S) && b !in S
    ensures Sound(v.(m := m2, h := v.h.TakenRaised(b, s)), 0, S)
    ensures Keeps(v.m, v.h, m2, v.h.TakenRaised(b, s), v.h.Used() - {b}) && SamePayload(v.m, m2, b, v.h.size[b])
  {
    hide Tiles, Tagged, Linked, Mapped, Filed, Keeps, DifferOutside, Fits, PrevIn;
    var h, K := v.h, v.h.Used() - {b};
    EndIsHeader(h, b);
    RaiseTags(v.m, m2, h, b, s, to, loose);
    TakenTiles(h, b);
    RaisedTiles(h.Taken(b), b, s);
    RaiseDiffers(v, S, loose, m2, b, to, s + PrevIn(v.m[b + 4]), S);
    RaiseDiffers(v, S, loose, m2, b, to, s + PrevIn(v.m[b + 4]), K);
    StepSound(v, loose, S, m2, h.TakenRaised(b, s), 0);
    KeepsWrites(v.m, m2, h, h.TakenRaised(b, s), K);
  }

  /** A used block is made where the epilogue was. */
  lemma ExtendStep(v: View, S: set<nat>, m2: seq<nat>, s: nat, to: nat)
    requires to == v.h.epi + 8 + s && s % 8 == 0 && s >= 8 && to + 8 <= |v.m|
    requires m2 == v.m[to := 0][to + 4 := 0][v.h.epi + 4 := s]
    requires Sound(v, 0, S) && !v.h.OverFree(v.h.epi)
    ensures Sound(v.(m := m2, h := v.h.Extended(s)), 0, S)
    ensures Keeps(v.m, v.h, m2, v.h.Extended(s), v.h.Used())
    ensures v.h.epi !in v.h.size && v.h.epi !in v.h.free
  {
    hide Tiles, Tagged, Linked, Mapped, Filed, Keeps, DifferOutside, Fits, Shape.OverFree;
    var h, K := v.h, v.h.Used();
    NothingAbove(h, h.epi);
    ExtendTags(v.m, m2, h, s, to);
    ExtendedTiles(h, s);
    RaiseDiffers(v, S, 0, m2, h.epi, to, s, S);
    RaiseDiffers(v, S, 0, m2, h.epi, to, s, K);
    StepSound(v, 0, S, m2, h.Extended(s), 0);
    KeepsWrites(v.m, m2, h, h.Extended(s), K);
  }

  // ---- linking and unlinking ---------------------------------------------------------------------------

  /** The bitmaps after position k of list i was taken out. */
  function MapCut(sl: seq<nat>, l: seq<nat>, i: nat, k: nat): seq<nat>
    requires |sl| == FL_COUNT && i < BINS && k < |l|
  {
    if |l| == 1 then sl[i / SL_COUNT := ClearBit(sl[i / SL_COUNT], i % SL_COUNT)] else sl
  }

  function LevelsCut(sl: seq<nat>, fl: nat, l: seq<nat>, i: nat): nat
    requires |sl| == FL_COUNT && i < BINS
  {
    if |l| == 1 && ClearBit(sl[i / SL_COUNT], i % SL_COUNT) == 0 then ClearBit(fl, i / SL_COUNT) else fl
  }

  lemma MappedCut(sl: seq<nat>, fl: nat, lists: seq<seq<nat>>, i: nat, k: nat)
    requires Mapped(sl, fl, lists) && i < BINS && k < |lists[i]|
    ensures Mapped(MapCut(sl, lists[i], i, k), LevelsCut(sl, fl, lists[i], i), lists[i := Cut(lists[i], k)])
  {
    hide BitFor, LevelFor, ClearBit;
    var l := lists[i];
    if |l| == 1 {
      assert Cut(l, k) == [];
      MappedClear(sl, fl, lists, i / SL_COUNT, i % SL_COUNT);
    } else {
      MappedSame(sl, fl, lists, i, Cut(l, k));
    }
  }

  /** Taking the block at position k of list i out of the lists. */
  lemma UnlinkStep(v: View, v2: View, loose: nat, S: set<nat>, i: nat, k: nat)
    requires i < BINS && |v.lists| == BINS && |v.bins| == BINS && |v.sl| == FL_COUNT && k < |v.lists[i]|
    requires forall j :: 0 <= j < |v.lists[i]| ==> v.lists[i][j] + 16 <= |v.m|
    requires v2.m == Relinked(v.m, v.lists[i], k) && v2.h == v.h && v2.lists == v.lists[i := Cut(v.lists[i], k)]
    requires v2.bins == if k == 0 then v.bins[i := At(v.lists[i], 1)] else v.bins
    requires v2.sl == MapCut(v.sl, v.lists[i], i, k) && v2.fl == LevelsCut(v.sl, v.fl, v.lists[i], i)
    requires Sound(v, loose, S) && S <= v.h.free
    ensures Sound(v2, loose, S - {v.lists[i][k]})
    ensures OnlyLinks(v.m, v2.m, S - {v.lists[i][k]}, |v.m|)
    ensures Keeps(v.m, v.h, v2.m, v.h, v.h.Used())
  {
    hide Tiles, Tagged, Linked, Mapped, Filed, Relinked, Cut, At, MapCut, LevelsCut, Keeps;
    var S2 := S - {v.lists[i][k]};
    CutLinked(v.m, v.bins, v.lists, v.h.size, S, i, k);
    CutFiled(v.lists, v.h.size, S, i, k);
    CutLinks(v.m, v.lists, v.h.size, S, i, k, v.h.epi);
    CutLinks(v.m, v.lists, v.h.size, S, i, k, v.h.epi + 8);
    CutLinks(v.m, v.lists, v.h.size, S, i, k, |v.m|);
    MappedCut(v.sl, v.fl, v.lists, i, k);
    LinksKeepTags(v.m, v2.m, v.h, loose, S2);
    LinksKeep(v.m, v2.m, v.h, v.h.Used(), S2);
  }

  /** Putting free block b in front of the list of its class. */
  lemma PushStep(v: View, v2: View, S: set<nat>, i: nat, b: nat)
    requires i < BINS && |v.lists| == BINS && |v.bins| == BINS && |v.sl| == FL_COUNT
    requires b + 16 <= |v.m| && (v.bins[i] != 0 ==> v.bins[i] + 16 <= |v.m|)
    requires v2.m == Fronted(v.m, v.bins[i], b) && v2.h == v.h && v2.lists == v.lists[i := [b] + v.lists[i]]
    requires v2.bins == v.bins[i := b]
    requires v2.sl == v.sl[i / SL_COUNT := SetBit(v.sl[i / SL_COUNT], i % SL_COUNT)]
    requires v2.fl == SetBit(v.fl, i / SL_COUNT)
    requires Sound(v, 0, S) && S <= v.h.free && b in v.h.free && b !in S && b in v.h.size && BinOf(v.h.size[b]) == i
    ensures Sound(v2, 0, S + {b})
    ensures Keeps(v.m, v.h, v2.m, v.h, v.h.Used())
  {
    hide Tiles, Tagged, Linked, Mapped, Filed, Fronted, At, Keeps, BinOf, SetBit;
    InSpan(v.h, b);
    HeadOf(v.m, v.bins, v.lists, i);
    FrontLinked(v.m, v.bins, v.lists, v.h.size, S, i, b);
    FrontFiled(v.lists, v.h.size, S, i, b);
    FrontLinks(v.m, v.lists, v.h.size, S, i, b, v.h.epi);
    FrontLinks(v.m, v.lists, v.h.size, S, i, b, v.h.epi + 8);
    MappedSet(v.sl, v.fl, v.lists, i / SL_COUNT, i % SL_COUNT, [b] + v.lists[i]);
    LinksKeepTags(v.m, v2.m, v.h, 0, S + {b});
    LinksKeep(v.m, v2.m, v.h, v.h.Used(), S + {b});
  }

  /** What the links of listed block b say, at position k of list i. */
  lemma ReadsLinks(v: View, loose: nat, S: set<nat>, b: nat) returns (i: nat, k: nat)
    requires Sound(v, loose, S) && b in S
    ensures b in v.h.size && i == BinOf(v.h.size[b]) && i < BINS && |v.lists| == BINS == |v.bins| && |v.sl| == FL_COUNT
    ensures k < |v.lists[i]| && v.lists[i][k] == b && b + 16 <= |v.m|
    ensures v.m[b + 8] == At(v.lists[i], k + 1) && v.m[b + 12] == At(v.lists[i], k - 1)
    ensures forall j :: 0 <= j < |v.lists[i]| ==> v.lists[i][j] + 16 <= |v.m| && v.lists[i][j] > 0
  {
    hide Tiles, Tagged, BinOf, Bit;
    assert Indexed(v.lists, v.h.size, b);
    i := BinOf(v.h.size[b]);
    k :| 0 <= k < |v.lists[i]| && v.lists[i][k] == b;
    assert Chain(v.m, v.bins[i], v.lists[i]);
    assert Node(v.m, v.lists[i], k);
    ListInRam(v.m, v.bins, v.lists, i);
    ProperList(v.lists, v.h.size, S, i);
  }

  /** A listed block has a header, and the heads are in memory. */
  lemma InList(v: View, loose: nat, S: set<nat>, b: nat)
    requires Sound(v, loose, S) && b in S
    ensures IsHeader(v.h, b) && b in v.h.size && |v.bins| == |v.lists| == BINS && |v.sl| == FL_COUNT
  {
    hide Tiles, Tagged, Filed;
  }

  /** Writing a new epilogue above the old one disturbs nothing. */
  lemma TopStep(v: View, loose: nat, S: set<nat>, m2: seq<nat>, to: nat)
    requires Sound(v, loose, S) && to >= v.h.epi + 8 && to + 8 <= |v.m| && m2 == v.m[to := 0][to + 4 := 0]
    ensures Sound(v.(m := m2), loose, S) && Keeps(v.m, v.h, m2, v.h, v.h.Used())
  {
    hide Tiles, Tagged, Linked, Mapped, Filed, DifferOutside, Keeps, Outside;
    TopDiffers(v.m, m2, v.h, to, S);
    TopDiffers(v.m, m2, v.h, to, v.h.Used());
    LinksKeepTags(v.m, m2, v.h, loose, {});
    StepSound(v, loose, S, m2, v.h, loose);
    KeepsWrites(v.m, m2, v.h, v.h, v.h.Used());
  }

  lemma TopDiffers(m: seq<nat>, m2: seq<nat>, h: Shape, to: nat, K: set<nat>)
    requires Tiles(h) && to >= h.epi && to + 8 <= |m| && m2 == m[to := 0][to + 4 := 0]
    ensures DifferOutside(m, m2, h, K)
  {
    hide Tiles, Outside;
    AboveOutside(h, K, to);
    AboveOutside(h, K, to + 4);
  }

  /** A head that is right may be thought to lag. */
  lemma Loosen(v: View, S: set<nat>, x: nat)
    requires Sound(v, 0, S)
    ensures Sound(v, x, S)
  {
    hide Tiles, Linked, Mapped, Filed, FootAt;
    assert forall c: nat :: TagAt(v.m, v.h, c, 0) && c > 0 ==> TagAt(v.m, v.h, c, x);
    forall c | IsHeader(v.h, c) ensures TagAt(v.m, v.h, c, x) {
      TagOf(v.m, v.h, 0, c);
    }
    assert IsHeader(v.h, v.h.epi);
  }

  /** What the head of a block says. */
  lemma BlockReads(v: View, loose: nat, S: set<nat>, b: nat)
    requires Sound(v, loose, S) && b in v.h.size && (loose == 0 || b != loose)
    ensures b + 16 <= v.h.End(b) && v.h.End(b) + 8 <= |v.m| && b % 8 == 0 && b > 0
    ensures SizeIn(v.m[b + 4]) == v.h.size[b] && v.m[b + 4] / 4 % 2 == 0
    ensures FreeIn(v.m[b + 4]) <==> b in v.h.free
    ensures PrevFreeIn(v.m[b + 4]) <==> v.h.OverFree(b)
    ensures v.m[b + 4] == Head(v.h, b) && IsHeader(v.h, b)
  {
    hide Tiles, Tagged, Linked, Mapped, Filed, SizeIn, FreeIn, PrevFreeIn;
    InSpan(v.h, b);
    Reads(v, loose, S, b);
    ClassInRange(v, loose, S, b);
  }

  /** What the head above a block says. */
  lemma NextReads(v: View, loose: nat, S: set<nat>, b: nat)
    requires Sound(v, loose, S) && b in v.h.size && v.h.End(b) != loose
    ensures var e := v.h.End(b);
      && IsHeader(v.h, e) && e + 8 <= |v.m| && e % 8 == 0 && SizeIn(v.m[e + 4]) == Payload(v.h, e)
      && (FreeIn(v.m[e + 4]) <==> e in v.h.free) && (e in v.h.free ==> e in v.h.size)
      && (PrevFreeIn(v.m[e + 4]) <==> v.h.OverFree(e)) && (b in v.h.free <==> v.h.OverFree(e))
  {
    hide Tagged, Linked, Mapped, Filed, SizeIn, FreeIn, PrevFreeIn, Fits, Rests, Clear;
    EndIsHeader(v.h, b);
    EndBelow(v.h, b);
    Reads(v, loose, S, v.h.End(b));
  }

  lemma HeadReads(v: View, loose: nat, S: set<nat>, i: nat)
    requires Sound(v, loose, S) && i < BINS
    ensures |v.bins| == |v.lists| == BINS && |v.sl| == FL_COUNT
    ensures v.bins[i] == At(v.lists[i], 0) && (v.bins[i] != 0 ==> v.bins[i] + 16 <= |v.m|)
  {
    hide Tiles, Tagged, Filed, Chain;
    HeadOf(v.m, v.bins, v.lists, i);
  }

  lemma UsedMinus(m: seq<nat>, h: Shape, b: nat)
    ensures Keeps(m, h, m, h, h.Used() - {b})
  {
    KeepsAll(m, h, h.Used() - {b});
  }

  lemma SoundTiles(v: View, loose: nat, S: set<nat>)
    requires Sound(v, loose, S)
    ensures Tiles(v.h) && |v.m| <= 0x4000_0000
  {
    hide Tiles, Tagged, Linked, Mapped, Filed;
  }

  /** The words of a new epilogue are no links. */
  lemma TopIsNoLink(v: View, loose: nat, S: set<nat>, m2: seq<nat>, S2: set<nat>, to: nat)
    requires Sound(v, loose, S) && S2 <= v.h.size.Keys && OnlyLinks(v.m, m2, S2, |v.m|)
    requires to >= v.h.epi && to + 8 <= |v.m|
    ensures |m2| == |v.m| && m2[to] == v.m[to] && m2[to + 4] == v.m[to + 4]
  {
    hide Tiles, Tagged, Linked, Mapped, Filed;
    BelowTop(v.h, S2, to);
    BelowTop(v.h, S2, to + 4);
  }

  lemma BelowTop(h: Shape, S: set<nat>, w: nat)
    requires Tiles(h) && S <= h.size.Keys && w >= h.epi
    ensures !IsLink(S, w)
  {
    hide Tiles;
    if w >= 8 && w - 8 in S { InSpan(h, w - 8); }
    if w >= 12 && w - 12 in S { InSpan(h, w - 12); }
  }

  /** A block of a class at or above the rounded size's is free and large enough. */
  lemma FoundFits(v: View, S: set<nat>, size: nat, j: nat)
    requires Sound(v, 0, S) && size % 8 == 0 && j < BINS && |v.lists| == BINS && v.lists[j] != []
    requires j >= BinOf(Rounded(size))
    ensures v.lists[j][0] in S && v.lists[j][0] in v.h.size && v.h.size[v.lists[j][0]] >= size
  {
    hide Tiles, Tagged, Linked, Mapped, BinOf, Rounded, Indexed;
    assert Holds(v.lists[j], j, v.h.size, S);
    GoodFit(size, v.h.size[v.lists[j][0]]);
  }

  lemma MapsSound(v: View, loose: nat, S: set<nat>)
    requires Sound(v, loose, S)
    ensures Mapped(v.sl, v.fl, v.lists) && |v.lists| == BINS && |v.sl| == FL_COUNT
  {
    hide Tiles, Tagged, Linked, Filed, BitFor, LevelFor;
  }

  lemma IsUsed(h: Shape, b: nat)
    requires b in h.Used()
    ensures b in h.size && b !in h.free
  {
  }

  lemma AllSame(m: seq<nat>, b: nat, n: nat)
    ensures SamePayload(m, m, b, n)
  {
  }

  lemma SameTwice(m: seq<nat>, m2: seq<nat>, m3: seq<nat>, b: nat, n: nat)
    requires SamePayload(m, m2, b, n) && SamePayload(m2, m3, b, n)
    ensures SamePayload(m, m3, b, n)
  {
  }

  lemma KeptBlock(m: seq<nat>, h: Shape, m2: seq<nat>, g: Shape, K: set<nat>, b: nat)
    requires Keeps(m, h, m2, g, K) && b in K
    ensures b in h.size && b in g.size && g.size[b] == h.size[b] && SamePayload(m, m2, b, h.size[b]) && b in g.Used()
  {
    assert KeepsAt(m, h, m2, g, b);
  }

  /** The size still stands in a head whose free flag was cleared. */
  lemma MarkedSize(v: View, S: set<nat>, b: nat)
    requires Sound(v, 0, S) && b in v.h.size && b in v.h.free
    ensures b + 8 <= |v.m| && SizeIn(WithoutFree(v.m[b + 4])) == v.h.size[b]
  {
    hide Tiles, Tagged, Linked, Mapped, Filed;
    BlockReads(v, 0, S, b);
    PayloadAligned(v.h, b);
    HeadParts(v.h.size[b], true, v.h.OverFree(b));
    HeadParts(v.h.size[b], false, v.h.OverFree(b));
  }

  lemma NoneBeyond(lists: seq<seq<nat>>, i: nat)
    requires i >= BINS
    ensures NoneFrom(lists, i, BINS)
  {
  }

  lemma NoneJoined(lists: seq<seq<nat>>, i: nat, j: nat, k: nat)
    requires NoneFrom(lists, i, j) && NoneFrom(lists, j, k)
    ensures NoneFrom(lists, i, k)
  {
  }

  lemma SomeFrom(lists: seq<seq<nat>>, i: nat, j: nat)
    requires i <= j < BINS && j < |lists| && lists[j] != []
    ensures !NoneFrom(lists, i, BINS)
  {
  }

  lemma FromNothing(x: nat)
    ensures From(x, 0) == x
  {
  }

  lemma SameTop(m: seq<nat>, to: nat)
    requires to + 8 <= |m| && m[to] == 0 && m[to + 4] == 0
    ensures m[to := 0][to + 4 := 0] == m
  {
  }

  lemma FlagOf(v: View, loose: nat, S: set<nat>, c: nat)
    requires Sound(v, loose, S) && IsHeader(v.h, c) && c != loose
    ensures c + 8 <= |v.m| && PrevIn(v.m[c + 4]) == PrevFlag(v.h, c)
  {
    hide Tiles, Tagged, Linked, Mapped, Filed;
    Reads(v, loose, S, c);
  }

  lemma EmptyLists(m: seq<nat>, bins: seq<nat>, sl: seq<nat>, lists: seq<seq<nat>>)
    requires |bins| == |lists| == BINS && |sl| == FL_COUNT
    requires (forall i :: 0 <= i < BINS ==> bins[i] == 0 && lists[i] == [])
    requires (forall f :: 0 <= f < FL_COUNT ==> sl[f] == 0)
    ensures Linked(m, bins, lists) && Mapped(sl, 0, lists) && Filed(lists, map[], {})
  {
    hide Mapped, BinOf;
    MappedNone(sl, lists);
  }

  lemma NothingHeld(l: seq<nat>, i: nat)
    requires Holds(l, i, map[], {})
    ensures l == []
  {
    hide BinOf;
    assert l != [] ==> At(l, 0) in l;
  }

  /** An empty heap: nothing between its first address and its epilogue. */
  lemma StartStep(v: View, m2: seq<nat>, bottom: nat)
    requires bottom + 8 <= |v.m| && m2 == v.m[bottom := 0][bottom + 4 := 0] && bottom % 8 == 0 && bottom > 0
    requires |v.m| <= 0x4000_0000
    requires Linked(v.m, v.bins, v.lists) && Mapped(v.sl, v.fl, v.lists) && Filed(v.lists, map[], {})
    ensures var g := Shape(bottom, bottom, map[], map[], {}); Sound(v.(m := m2, h := g), 0, {}) && Apart(g)
  {
    hide Mapped, BinOf, Indexed, Chain;
    forall i | 0 <= i < BINS ensures v.lists[i] == [] {
      NothingHeld(v.lists[i], i);
    }
    LinkedSame(v.m, m2, v.bins, v.lists);
  }

  lemma KeepsNone(m: seq<nat>, h: Shape, m2: seq<nat>, g: Shape)
    ensures Keeps(m, h, m2, g, {})
  {
  }

  lemma HeadOnly(m: seq<nat>, m2: seq<nat>, b: nat, x: nat, n: nat)
    requires b + 8 <= |m| && m2 == m[b + 4 := x]
    ensures SamePayload(m, m2, b, n)
  {
  }

  lemma SamePart(m: seq<nat>, m2: seq<nat>, b: nat, n: nat, k: nat)
    requires SamePayload(m, m2, b, n) && k <= n
    ensures SamePayload(m, m2, b, k)
  {
  }

  // ---- writes to a payload ------------------------------------------------------------------------------------

  /** The memories differ only inside the payload of block b. */
  ghost predicate OnlyInside(m: seq<nat>, m2: seq<nat>, h: Shape, b: nat)
    requires b in h.size
  {
    |m2| == |m| && forall w: nat :: w < |m| && m2[w] != m[w] ==> b + 8 <= w < h.End(b)
  }

  /** Writing to a used block's payload disturbs neither the heap nor any other used block. */
  lemma PayloadStep(v: View, m2: seq<nat>, b: nat)
    requires Sound(v, 0, v.h.free) && b in v.h.size && b !in v.h.free && OnlyInside(v.m, m2, v.h, b)
    ensures Sound(v.(m := m2), 0, v.h.free) && Keeps(v.m, v.h, m2, v.h, v.h.Used() - {b})
  {
    hide Tiles, Tagged, Linked, Mapped, Filed, DifferOutside, Keeps;
    InsideDiffers(v.m, m2, v.h, b, v.h.free);
    InsideDiffers(v.m, m2, v.h, b, v.h.Used() - {b});
    InsideKeepsTags(v.m, m2, v.h, b);
    StepSound(v, 0, v.h.free, m2, v.h, 0);
    KeepsWrites(v.m, m2, v.h, v.h, v.h.Used() - {b});
  }

  lemma InsideDiffers(m: seq<nat>, m2: seq<nat>, h: Shape, b: nat, K: set<nat>)
    requires Tiles(h) && b in h.size && b !in K && OnlyInside(m, m2, h, b)
    ensures DifferOutside(m, m2, h, K)
  {
    hide Tiles, Outside;
    forall w: nat | w < |m| && m2[w] != m[w] ensures Outside(h, K, w) {
      InsideOutside(h, K, b, w);
    }
  }

  lemma InsideKeepsTags(m: seq<nat>, m2: seq<nat>, h: Shape, b: nat)
    requires Tiles(h) && Tagged(m, h, 0) && b in h.size && OnlyInside(m, m2, h, b)
    ensures Tagged(m2, h, 0)
  {
    hide Tiles, Tagged;
    forall c: nat | IsHeader(h, c) && c + 8 <= |m| ensures m2[c] == m[c] && m2[c + 4] == m[c + 4] {
      HeaderNotInside(h, b, c, c);
      HeaderNotInside(h, b, c, c + 4);
    }
    SameHeaders(m, m2, h, 0);
  }

  lemma HeaderNotInside(h: Shape, b: nat, c: nat, w: nat)
    requires Tiles(h) && b in h.size && IsHeader(h, c) && (w == c || w == c + 4)
    ensures !(b + 8 <= w < h.End(b))
  {
    hide Tiles;
    HeaderOutside(h, {b}, c, w);
  }

  lemma PutTwice(m: seq<nat>, a: nat, x: nat, y: nat)
    requires a < |m|
    ensures m[a := x][a := y] == m[a := y]
  {
  }

  /** count bytes from q on in the second memory are those from p on in the first. */
  ghost predicate SameBytes(m: seq<nat>, p: nat, m2: seq<nat>, q: nat, count: nat)
  {
    p + count <= |m| && q + count <= |m2| && m2[q..q + count] == m[p..p + count]
  }

  lemma StillBytes(m: seq<nat>, b: nat, m2: seq<nat>, n: nat, count: nat)
    requires SamePayload(m, m2, b, n) && count <= n && b + 8 + n <= |m|
    ensures SameBytes(m, b + 8, m2, b + 8, count)
  {
  }

  lemma ChainBytes(m: seq<nat>, p: nat, m2: seq<nat>, q: nat, m3: seq<nat>, r: nat, n: nat)
    requires SameBytes(m, p, m2, q, n) && SameBytes(m2, q, m3, r, n)
    ensures SameBytes(m, p, m3, r, n)
  {
  }

  lemma FewerBytes(m: seq<nat>, p: nat, m2: seq<nat>, q: nat, n: nat, k: nat)
    requires SameBytes(m, p, m2, q, n) && k <= n
    ensures SameBytes(m, p, m2, q, k)
  {
    assert m2[q..q + k] == m2[q..q + n][..k];
    assert m[p..p + k] == m[p..p + n][..k];
  }

  // ---- counting blocks --------------------------------------------------------------------------------------

  /** The blocks of S that begin below c. */
  ghost function Under(S: set<nat>, c: nat): set<nat>
  {
    set f | f in S && f < c
  }

  /** Walking from block b to the next counts b if it is one of S. */
  lemma CountNext(h: Shape, S: set<nat>, b: nat)
    requires Tiles(h) && b in h.size && S <= h.size.Keys
    ensures Under(S, h.End(b)) == Under(S, b) + (if b in S then {b} else {})
    ensures |Under(S, h.End(b))| == |Under(S, b)| + if b in S then 1 else 0
  {
    hide Tiles, Shape.End;
    InSpan(h, b);
    forall f | f in S && b < f ensures f >= h.End(b) {
      EightApart(h, b, f);
    }
  }

  lemma CountAll(h: Shape, S: set<nat>)
    requires Tiles(h) && S <= h.size.Keys
    ensures Under(S, h.first) == {} && Under(S, h.epi) == S
  {
    hide Tiles, Shape.End;
    forall f | f in S ensures h.first <= f < h.epi {
      InSpan(h, f);
    }
  }

  lemma FirstHeader(h: Shape)
    requires Tiles(h)
    ensures IsHeader(h, h.first) && !h.OverFree(h.first)
  {
    hide Fits, Rests, Clear;
    if h.first in h.below {
      BelowIs(h, h.first);
      InSpan(h, h.below[h.first]);
    }
  }

  /** Of two neighbours one is used. */
  lemma NotBoth(h: Shape, b: nat)
    requires Tiles(h) && Apart(h) && b in h.size && b in h.free
    ensures !h.OverFree(b)
  {
    hide Tiles;
    if b in h.below { BelowIs(h, b); }
  }

  /** What stands above a free block. */
  lemma FootReads(v: View, S: set<nat>, b: nat)
    requires Sound(v, 0, S) && b in v.h.size && b in v.h.free
    ensures v.h.End(b) + 8 <= |v.m| && v.m[v.h.End(b)] == v.h.size[b]
  {
    hide Tiles, Tagged, Linked, Mapped, Filed;
    FootOf(v.m, v.h, 0, b);
  }

  /** The listed blocks of classes below i. */
  ghost function ListedUnder(h: Shape, i: nat): set<nat>
  {
    set f | f in h.free && f in h.size && BinOf(h.size[f]) < i
  }

  /** Those, and the first k of list i. */
  ghost function Seen(h: Shape, lists: seq<seq<nat>>, i: nat, k: nat): set<nat>
    requires i < |lists| && k <= |lists[i]|
  {
    ListedUnder(h, i) + set j | 0 <= j < k :: lists[i][j]
  }

  /** Walking down list i counts each block of it, once. */
  lemma SeeNext(h: Shape, lists: seq<seq<nat>>, i: nat, k: nat)
    requires Filed(lists, h.size, h.free) && i < BINS && k < |lists[i]|
    ensures |Seen(h, lists, i, k + 1)| == |Seen(h, lists, i, k)| + 1 && Seen(h, lists, i, k + 1) <= h.free
    ensures |Seen(h, lists, i, k + 1)| <= |h.free|
  {
    hide BinOf, Indexed;
    assert Holds(lists[i], i, h.size, h.free);
    var f := lists[i][k];
    assert Seen(h, lists, i, k + 1) == Seen(h, lists, i, k) + {f};
    assert f !in Seen(h, lists, i, k);
    SubsetSize(Seen(h, lists, i, k + 1), h.free);
  }

  lemma {:induction false} SubsetSize(A: set<nat>, B: set<nat>)
    requires A <= B
    ensures |A| <= |B|
    decreases |A|
  {
    if A == {} {
    } else {
      var x :| x in A;
      SubsetSize(A - {x}, B - {x});
    }
  }

  /** A list walked to its end is all of its class. */
  lemma SeeList(h: Shape, lists: seq<seq<nat>>, i: nat)
    requires Filed(lists, h.size, h.free) && i < BINS
    ensures Seen(h, lists, i, 0) == ListedUnder(h, i) && Seen(h, lists, i, |lists[i]|) == ListedUnder(h, i + 1)
  {
    hide BinOf, Indexed;
    assert Holds(lists[i], i, h.size, h.free);
    forall f | f in ListedUnder(h, i + 1) ensures f in Seen(h, lists, i, |lists[i]|) {
      if BinOf(h.size[f]) == i { InItsList(lists, h, f); }
    }
  }

  lemma InItsList(lists: seq<seq<nat>>, h: Shape, f: nat)
    requires Filed(lists, h.size, h.free) && f in h.free
    ensures f in h.size && BinOf(h.size[f]) < |lists| && f in lists[BinOf(h.size[f])]
  {
    hide BinOf, Holds;
    assert Indexed(lists, h.size, f);
  }

  lemma SeeAll(h: Shape, lists: seq<seq<nat>>)
    requires Filed(lists, h.size, h.free)
    ensures ListedUnder(h, 0) == {} && ListedUnder(h, BINS) == h.free
  {
    hide BinOf, Holds, Indexed;
    forall f | f in h.free ensures f in ListedUnder(h, BINS) {
      InItsList(lists, h, f);
    }
  }

  lemma SoundFiled(v: View, loose: nat, S: set<nat>)
    requires Sound(v, loose, S)
    ensures Filed(v.lists, v.h.size, S) && |v.lists| == BINS
  {
    hide Tiles, Tagged, Linked, Mapped, Holds, Indexed;
  }

  /** What the bitmaps say of list (f, s). */
  lemma MapsSay(v: View, f: nat, s: nat)
    requires Sound(v, 0, v.h.free) && f < FL_COUNT && s < SL_COUNT
    ensures |v.sl| == FL_COUNT && |v.lists| == BINS && (Bit(v.sl[f], s) <==> v.lists[f * SL_COUNT + s] != [])
    ensures Bit(v.sl[f], s) ==> Bit(v.fl, f)
  {
    hide Tiles, Tagged, Linked, Filed, Bit;
    assert BitFor(v.sl, v.lists, f, s) && LevelFor(v.sl, v.fl, f);
    NoBitsIsZero(s);
  }

  lemma LevelSays(v: View, f: nat)
    requires Sound(v, 0, v.h.free) && f < FL_COUNT
    ensures |v.sl| == FL_COUNT && (Bit(v.fl, f) <==> v.sl[f] != 0)
  {
    hide Tiles, Tagged, Linked, Filed, Bit, BitFor;
    assert LevelFor(v.sl, v.fl, f);
  }

  /** What position k of list i says, or that the list ends there. */
  lemma ListReads(v: View, i: nat, k: nat)
    requires Sound(v, 0, v.h.free) && i < BINS && |v.lists| == BINS && k <= |v.lists[i]|
    ensures var f := At(v.lists[i], k);
      && (f == 0 <==> k == |v.lists[i]|)
      && (f != 0 ==>
        f + 16 <= |v.m| && v.m[f + 8] == At(v.lists[i], k + 1) && v.m[f + 12] == At(v.lists[i], k - 1)
        && FreeIn(v.m[f + 4]) && BinOf(SizeIn(v.m[f + 4])) == i && v.h.first <= f < v.h.epi)
  {
    hide Tiles, Tagged, BinOf, Bit, FreeIn, SizeIn, PrevFreeIn, Head, Mapped, Indexed;
    if k < |v.lists[i]| {
      assert Holds(v.lists[i], i, v.h.size, v.h.free);
      assert Chain(v.m, v.bins[i], v.lists[i]);
      assert Node(v.m, v.lists[i], k);
      BlockReads(v, 0, v.h.free, v.lists[i][k]);
      InSpan(v.h, v.lists[i][k]);
    }
  }
}
