/** The allocator. */
module Malloc {
  import opened HeapShape
  import opened HeapHeaders
  import opened HeapPayloads
  import opened HeapLists
  import opened HeapState
  import opened HeapChecks
  import opened SizeClasses
  import opened Powers

  /** Requests past this many bytes are refused unseen. */
  const MAX_REQUEST: nat := 0x4000_0000

  datatype Errno = NoError | OutOfMemory | Invalid

  /** How a call took the pointer it was given: the last three are what its error handler is told. */
  datatype Outcome = Done | NotFromMalloc | AlreadyFree | NotLive

  datatype Stats = Stats(start: nat, brk: nat, limit: nat, used: nat, freeBytes: nat, blocks: nat, freeBlocks: nat,
                         largestFree: nat)

  /** The payload of a block for n bytes: the next multiple of 8, and never none. */
  function BlockSize(n: nat): (size: nat)
    ensures size >= n && size % 8 == 0 && size >= 8 && (n <= MAX_REQUEST ==> size <= MAX_REQUEST)
  {
    var size := (n + 7) / 8 * 8;
    if size < 8 then 8 else size
  }

  /** The block whose payload p is. */
  function Of(p: nat): nat
  {
    if p >= 8 then p - 8 else 0
  }

  /** a != 0 && (a & (a - 1)) == 0 */
  predicate PowerOfTwo(a: nat)
  {
    a == 1 || (a > 1 && a % 2 == 0 && PowerOfTwo(a / 2))
  }

  /** (x + a - 1) & ~(a - 1), for a power of two a. */
  function RoundUp(x: nat, a: nat): nat
    requires a > 0
  {
    (x + a - 1) / a * a
  }

  predicate IsMultiple(x: nat, a: nat)
  {
    a > 0 && x % a == 0
  }

  /** The first multiple of the alignment from `at` on that leaves no room in front, or enough for a block. */
  function Wanted(at: nat, alignment: nat): nat
    requires alignment > 0
  {
    var want := RoundUp(at, alignment);
    if want != at && want - at < 16 then want + alignment else want
  }

  lemma WantedIs(at: nat, alignment: nat)
    requires at % 8 == 0 && alignment % 8 == 0 && alignment >= 16
    ensures var want := Wanted(at, alignment);
      IsMultiple(want, alignment) && want % 8 == 0 && (want == at || at + 16 <= want <= at + alignment + 8)
  {
    hide RoundUp;
    RoundedUp(at, alignment);
  }

  lemma {:induction false} PowersOfTwo(a: nat)
    requires PowerOfTwo(a)
    ensures a > 0 && (a > 8 ==> a % 16 == 0) && (a <= 8 ==> a == 1 || a == 2 || a == 4 || a == 8)
  {
    if a == 1 {
    } else {
      var half := a / 2;
      assert a == 2 * half;
      PowersOfTwo(half);
      if half > 8 {
        var q := half / 16;
        assert half == 16 * q;
        DivModUnique(a, 2 * q, 16, 0);
      }
    }
  }

  lemma EightDivides(a: nat, p: nat)
    requires a == 1 || a == 2 || a == 4 || a == 8
    ensures p % 8 == 0 ==> IsMultiple(p, a)
  {
    if p % 8 == 0 {
      DivModUnique(p, p / 8 * 8, 1, 0);
      DivModUnique(p, p / 8 * 4, 2, 0);
      DivModUnique(p, p / 8 * 2, 4, 0);
    }
  }

  /** The least multiple of a that is not below x. */
  lemma RoundedUp(x: nat, a: nat)
    requires a > 0 && x % 8 == 0 && a % 8 == 0
    ensures var r := RoundUp(x, a);
      x <= r < x + a && IsMultiple(r, a) && IsMultiple(r + a, a) && r % 8 == 0
  {
    var q := (x + a - 1) / a;
    DivModIdentity(x + a - 1, a);
    DivModUnique(q * a, q, a, 0);
    Distribute(q, 1, a);
    DivModUnique(q * a + a, q + 1, a, 0);
    MulAssoc(q, a / 8, 8);
    DivModUnique(q * a, q * (a / 8), 8, 0);
  }

  class Heap {
    const mem: array<nat>
    const bins: array<nat>
    const slMap: array<nat>
    /** Where the program's own data ends: sys_heap_start(). */
    const start: nat
    var flMap: nat
    var first: nat
    var epilogue: nat
    ghost var h: Shape
    ghost var lists: seq<seq<nat>>

    ghost predicate Parts()
    {
      && mem != bins && mem != slMap && bins != slMap && bins.Length == BINS && slMap.Length == FL_COUNT
      && mem.Length <= 0x4000_0000 && 0 < start < 0x4000_0000
    }

    ghost function Now(): View
      reads this, mem, bins, slMap
    {
      View(mem[..], bins[..], slMap[..], flMap, h, lists)
    }

    /** Between two steps: the blocks of S are the listed ones, and the head at `loose` may lag behind. */
    ghost predicate Mid(loose: nat, S: set<nat>)
      reads this, mem, bins, slMap
    {
      Parts() && Sound(Now(), loose, S) && S <= h.free
    }

    /** At rest: the free blocks are the listed ones, and no two are adjacent. */
    ghost predicate Settled()
      reads this, mem, bins, slMap
    {
      Mid(0, h.free) && Apart(h) && first == h.first && epilogue == h.epi
    }

    /** Block b, of `size` bytes or more, is in use now and was not; no other block changed hands. */
    ghost predicate Took(used: set<nat>, b: nat, size: nat)
      reads this
    {
      b !in used && h.Used() == used + {b} && b in h.size && h.size[b] >= size && b % 8 == 0
    }

    // ---- single writes ----------------------------------------------------------------------------

    method Put(a: nat, x: nat)
      requires a < mem.Length
      modifies mem
      ensures mem[..] == old(mem[..])[a := x]
    {
      mem[a] := x;
    }

    method PutBin(i: nat, x: nat)
      requires i < bins.Length
      modifies bins
      ensures bins[..] == old(bins[..])[i := x]
    {
      bins[i] := x;
    }

    method ClearBits(i: nat)
      requires slMap.Length == FL_COUNT && i < BINS
      modifies slMap, this`flMap
      ensures slMap[..] == old(slMap[..])[i / SL_COUNT := ClearBit(old(slMap[i / SL_COUNT]), i % SL_COUNT)]
      ensures flMap == if slMap[i / SL_COUNT] == 0 then ClearBit(old(flMap), i / SL_COUNT) else old(flMap)
    {
      hide ClearBit;
      var fl := i / SL_COUNT;
      slMap[fl] := ClearBit(slMap[fl], i % SL_COUNT);
      if slMap[fl] == 0 {
        flMap := ClearBit(flMap, fl);
      }
    }

    method SetBits(i: nat)
      requires slMap.Length == FL_COUNT && i < BINS
      modifies slMap, this`flMap
      ensures slMap[..] == old(slMap[..])[i / SL_COUNT := SetBit(old(slMap[i / SL_COUNT]), i % SL_COUNT)]
      ensures flMap == SetBit(old(flMap), i / SL_COUNT)
    {
      hide SetBit;
      var fl := i / SL_COUNT;
      slMap[fl] := SetBit(slMap[fl], i % SL_COUNT);
      flMap := SetBit(flMap, fl);
    }

    // ---- the lists ----------------------------------------------------------------------------------

    /** Takes free block b out of its list. */
    method UnlinkFree(b: nat, ghost loose: nat, ghost S: set<nat>)
      requires Mid(loose, S) && b in S && (loose == 0 || b != loose)
      modifies mem, bins, slMap, this`flMap, this`lists
      ensures Mid(loose, S - {b})
      ensures OnlyLinks(old(mem[..]), mem[..], S - {b}, mem.Length)
      ensures Keeps(old(mem[..]), h, mem[..], h, h.Used())
    {
      hide Sound, Relinked, Cut, OnlyLinks, Keeps, BinOf, SizeIn, FreeIn, PrevFreeIn, Head, Shape.Used, ClearBit;
      ghost var v := Now();
      InList(v, loose, S, b);
      ghost var i0, k := ReadsLinks(v, loose, S, b);
      BlockReads(v, loose, S, b);
      var i := BinOf(SizeIn(mem[b + 4]));
      var next, prev := mem[b + 8], mem[b + 12];
      if prev != 0 {
        Put(prev + 8, next);
      } else {
        PutBin(i, next);
      }
      if next != 0 {
        Put(next + 12, prev);
      } else if prev == 0 {
        ClearBits(i);
      }
      lists := lists[i := Cut(lists[i], k)];
      RelinkedIs(v.m, v.lists[i], k);
      UnlinkStep(v, Now(), loose, S, i, k);
    }

    /** Sets the flags of used block b, and writes its size above it. */
    method MarkFree(b: nat, ghost loose: nat, ghost S: set<nat>)
      requires Mid(loose, S) && b in h.size && b !in h.free && (loose == 0 || loose == h.End(b))
      modifies mem, this`h
      ensures h == old(h).Freed(b) && Mid(0, S)
      ensures Keeps(old(mem[..]), old(h), mem[..], h, old(h).Used() - {b})
    {
      hide Sound, Keeps, SizeIn, FreeIn, PrevFreeIn, WithFree, WithPrev, Head, Shape.Used, BinOf;
      ghost var v := Now();
      BlockReads(v, loose, S, b);
      var size := SizeIn(mem[b + 4]);
      var next := b + 8 + size;
      Put(b + 4, WithFree(mem[b + 4]));
      Put(next, size);
      Put(next + 4, WithPrev(mem[next + 4]));
      FreeStep(v, S, loose, mem[..], b, next);
      h := h.Freed(b);
    }

    /** Puts free block b in front of the list of its class. */
    method Push(b: nat, ghost S: set<nat>)
      requires Mid(0, S) && b in h.size && b in h.free && b !in S
      modifies mem, bins, slMap, this`flMap, this`lists
      ensures Mid(0, S + {b})
      ensures Keeps(old(mem[..]), h, mem[..], h, h.Used())
    {
      hide Sound, Keeps, SizeIn, FreeIn, PrevFreeIn, Head, Shape.Used, BinOf, Fronted, SetBit;
      ghost var v := Now();
      BlockReads(v, 0, S, b);
      ClassInRange(v, 0, S, b);
      var i := BinOf(SizeIn(mem[b + 4]));
      HeadReads(v, 0, S, i);
      Put(b + 12, 0);
      Put(b + 8, bins[i]);
      if bins[i] != 0 {
        Put(bins[i] + 12, b);
      }
      FrontedIs(v.m, v.bins[i], b);
      PutBin(i, b);
      SetBits(i);
      lists := lists[i := [b] + lists[i]];
      PushStep(v, Now(), S, i, b);
    }

    /** From used to free: b is filed under its class, and the header after it records that it is free and how long. */
    method Insert(b: nat, ghost loose: nat, ghost S: set<nat>)
      requires Mid(loose, S) && b in h.size && b !in h.free && (loose == 0 || loose == h.End(b))
      modifies mem, bins, slMap, this`flMap, this`lists, this`h
      ensures h == old(h).Freed(b) && Mid(0, S + {b})
      ensures Keeps(old(mem[..]), old(h), mem[..], h, old(h).Used() - {b})
    {
      hide Sound, Keeps, Shape.End;
      ghost var K := h.Used() - {b};
      MarkFree(b, loose, S);
      ghost var m1 := mem[..];
      Push(b, S);
      KeepsFewer(m1, h, mem[..], h, h.Used(), K);
      KeepsBoth(old(mem[..]), old(h), m1, h, mem[..], h, K);
    }

    // ---- releasing ------------------------------------------------------------------------------------

    /** Joins the free block above used block b, if there is one, to b. */
    method AbsorbNext(b: nat)
      requires Mid(0, h.free) && b in h.size && b !in h.free
      modifies mem, bins, slMap, this`flMap, this`lists, this`h
      ensures h == old(h).AbsorbedUp(b) && b in h.size && Mid(h.End(b), h.free)
      ensures Keeps(old(mem[..]), old(h), mem[..], h, old(h).Used() - {b})
    {
      hide Sound, Keeps, SizeIn, FreeIn, PrevFreeIn, Head, Shape.Used, BinOf, OnlyLinks;
      ghost var v := Now();
      ghost var K := h.Used() - {b};
      BlockReads(v, 0, h.free, b);
      var next := b + 8 + SizeIn(mem[b + 4]);
      NextReads(v, 0, h.free, b);
      if FreeIn(mem[next + 4]) {
        UnlinkFree(next, 0, h.free);
        ghost var v1 := Now();
        BlockReads(v1, 0, h.free - {next}, b);
        NextReads(v1, 0, h.free - {next}, b);
        Put(b + 4, mem[b + 4] + 8 + SizeIn(mem[next + 4]));
        JoinUpStep(v1, h.free - {next}, mem[..], b, next);
        KeepsFewer(v.m, h, v1.m, h, h.Used(), K);
        h := h.Joined(b);
        KeepsBoth(v.m, v.h, v1.m, v.h, mem[..], h, K);
      } else {
        UsedMinus(v.m, h, b);
        Loosen(v, h.free, h.End(b));
      }
    }

    /** Joins used block b to the free block below it, if there is one; c is where the block now begins. */
    method AbsorbPrev(b: nat) returns (c: nat)
      requires b in h.size && Mid(h.End(b), h.free) && b !in h.free
      modifies mem, bins, slMap, this`flMap, this`lists, this`h
      ensures old(h.OverFree(b)) ==> old(h.below[b]) in old(h.size) && old(h).End(old(h.below[b])) == b
      ensures c == old(h).Lowest(b) && h == old(h).AbsorbedDown(b) && c in h.size && h.End(c) == old(h).End(b)
      ensures !old(h.OverFree(b)) ==> h == old(h)
      ensures Mid(h.End(c), h.free)
      ensures Keeps(old(mem[..]), old(h), mem[..], h, old(h).Used() - {b})
    {
      hide Sound, Keeps, SizeIn, FreeIn, PrevFreeIn, Head, Shape.Used, BinOf, OnlyLinks, WithoutFree;
      ghost var v := Now();
      ghost var K, e := h.Used() - {b}, h.End(b);
      BlockReads(v, e, h.free, b);
      c := b;
      if PrevFreeIn(mem[b + 4]) {
        ReadsBelow(v, e, h.free, b);
        c := b - 8 - mem[b];
        UnlinkFree(c, e, h.free);
        ghost var v1 := Now();
        BlockReads(v1, e, h.free - {c}, b);
        BlockReads(v1, e, h.free - {c}, c);
        Put(c + 4, WithoutFree(mem[c + 4]) + 8 + SizeIn(mem[b + 4]));
        JoinDownStep(v1, h.free - {c}, e, mem[..], c, b);
        KeepsFewer(v.m, h, v1.m, h, h.Used(), K);
        h := h.JoinedDown(c);
        assert h.free == v.h.free - {c};
        KeepsBoth(v.m, v.h, v1.m, v.h, mem[..], h, K);
      } else {
        UsedMinus(v.m, h, b);
      }
    }

    /** No free block stands beside block b. */
    static ghost predicate Alone(g: Shape, b: nat)
    {
      b in g.size && !g.OverFree(b) && g.End(b) !in g.free
    }

    /** Takes b out of the used blocks and comes to rest with no two free blocks side by side. */
    method Release(b: nat)
      requires Mid(0, h.free) && Apart(h) && b in h.Used()
      modifies mem, bins, slMap, this`flMap, this`lists, this`h
      ensures Mid(0, h.free) && Apart(h) && h.first == old(h.first) && h.epi == old(h.epi)
      ensures h.Used() == old(h.Used()) - {b}
      ensures old(Alone(h, b)) ==> h == old(h).Freed(b)
      ensures Keeps(old(mem[..]), old(h), mem[..], h, old(h.Used()) - {b})
    {
      hide Sound, Keeps, Shape.End, Shape.OverFree, Tiles, Apart, Shape.AbsorbedUp, Shape.AbsorbedDown, Shape.Lowest,
        Alone;
      ghost var v := Now();
      ghost var K := h.Used() - {b};
      SoundTiles(v, 0, h.free);
      AbsorbNext(b);
      ghost var v1 := Now();
      SoundTiles(v1, h.End(b), h.free);
      UpKeepsUsed(v.h, b);
      var c := AbsorbPrev(b);
      ghost var v2 := Now();
      SoundTiles(v2, h.End(c), h.free);
      ReleaseShape(v.h, b, v1.h, c, v2.h);
      AloneStays(v.h, b);
      Insert(c, h.End(c), h.free);
      KeepsBoth(v.m, v.h, v1.m, v1.h, v2.m, v2.h, K);
      KeepsBoth(v.m, v.h, v2.m, v2.h, mem[..], h, K);
    }

    /** Shortens b to `size` bytes unless fewer than 16 would be saved; the first `size` bytes stay. */
    method Trim(b: nat, size: nat)
      requires Mid(0, h.free) && Apart(h) && b in h.Used() && size % 8 == 0 && 8 <= size <= h.size[b]
      modifies mem, bins, slMap, this`flMap, this`lists, this`h
      ensures Mid(0, h.free) && Apart(h) && h.first == old(h.first) && h.epi == old(h.epi)
      ensures h.Used() == old(h.Used()) && b in h.size
      ensures h.size[b] == if old(h.size[b]) - size < 16 then old(h.size[b]) else size
      ensures old(h.size[b]) - size < 16 ==> h == old(h)
      ensures Keeps(old(mem[..]), old(h), mem[..], h, h.Used() - {b}) && SamePayload(old(mem[..]), mem[..], b, size)
    {
      hide Sound, Keeps, Tiles, Apart, Shape.Used, Shape.Split, SizeIn, FreeIn, PrevFreeIn, PrevIn, Head, SamePayload;
      ghost var v := Now();
      ghost var K := h.Used() - {b};
      IsUsed(h, b);
      SoundTiles(v, 0, h.free);
      BlockReads(v, 0, h.free, b);
      UsedMinus(v.m, h, b);
      if SizeIn(mem[b + 4]) - size < 16 {
        AllSame(v.m, b, size);
        return;
      }
      var rest := b + 8 + size;
      Put(rest + 4, SizeIn(mem[b + 4]) - size - 8);
      Put(b + 4, size + PrevIn(mem[b + 4]));
      SplitStep(v, h.free, mem[..], b, size);
      h := h.Split(b, size);
      SplitShape(v.h, b, size);
      ghost var v1 := Now();
      Release(rest);
      KeptBlock(v1.m, v1.h, mem[..], h, v.h.Used(), b);
      SameTwice(v.m, v1.m, mem[..], b, size);
      KeepsFewer(v1.m, v1.h, mem[..], h, v.h.Used(), K);
      KeepsBoth(v.m, v.h, v1.m, v1.h, mem[..], h, K);
    }

    // ---- taking -----------------------------------------------------------------------------------------

    /** Clears the flags of free block b, already out of its list. */
    method MarkUsed(b: nat, ghost S: set<nat>)
      requires Mid(0, S) && b in h.size && b in h.free && b !in S
      modifies mem, this`h
      ensures h == old(h).Taken(b) && Mid(0, S)
      ensures Keeps(old(mem[..]), old(h), mem[..], h, old(h).Used())
    {
      hide Sound, Keeps, SizeIn, FreeIn, PrevFreeIn, WithoutFree, WithoutPrev, Head, Shape.Used;
      ghost var v := Now();
      BlockReads(v, 0, S, b);
      Put(b + 4, WithoutFree(mem[b + 4]));
      MarkedSize(v, S, b);
      var next := b + 8 + SizeIn(mem[b + 4]);
      Put(next + 4, WithoutPrev(mem[next + 4]));
      TakeStep(v, S, mem[..], b, next);
      h := h.Taken(b);
    }

    /** Unlinks free block b and takes it into use whole. */
    method TakeBlock(b: nat)
      requires Mid(0, h.free) && Apart(h) && b in h.size && b in h.free
      modifies mem, bins, slMap, this`flMap, this`lists, this`h
      ensures Mid(0, h.free) && Apart(h) && h == old(h).Taken(b) && h.Used() == old(h.Used()) + {b}
      ensures Keeps(old(mem[..]), old(h), mem[..], h, old(h).Used())
    {
      hide Sound, Keeps, Shape.Used, OnlyLinks, Apart;
      ghost var v := Now();
      ghost var S := h.free - {b};
      UnlinkFree(b, 0, h.free);
      ghost var v1 := Now();
      MarkUsed(b, S);
      TakenShape(v.h, b);
      KeepsBoth(v.m, v.h, v1.m, v.h, mem[..], h, v.h.Used());
    }

    /** A free block no shorter than `size`, unless every list from the rounded class on is empty. */
    method Find(size: nat) returns (b: nat)
      requires Mid(0, h.free) && size % 8 == 0
      ensures b == 0 <==> NoneFrom(lists, BinOf(Rounded(size)), BINS)
      ensures b != 0 ==> b in h.free && b in h.size && h.size[b] >= size
    {
      hide Sound, BinOf, Rounded, From, Ctz, NoneFrom, Bit;
      ghost var v := Now();
      MapsSound(v, 0, h.free);
      var i := BinOf(Rounded(size));
      var fl, sl := i / SL_COUNT, i % SL_COUNT;
      if fl >= FL_COUNT {
        NoneBeyond(lists, i);
        return 0;
      }
      var slBits := From(slMap[fl], sl);
      if slBits == 0 {
        NoneInLevel(v.sl, v.fl, v.lists, fl, sl);
        var flBits := if fl + 1 < 32 then From(flMap, fl + 1) else 0;
        if flBits == 0 {
          NoLevel(v.sl, v.fl, v.lists, fl + 1);
          NoneJoined(lists, i, SL_COUNT * fl + SL_COUNT, BINS);
          return 0;
        }
        FirstLevel(v.sl, v.fl, v.lists, fl + 1);
        fl := Ctz(flBits);
        slBits := slMap[fl];
        FromNothing(slBits);
        sl := 0;
      }
      FirstInLevel(v.sl, v.fl, v.lists, fl, sl);
      ghost var j := fl * SL_COUNT + Ctz(slBits);
      HeadReads(v, 0, h.free, j);
      FoundFits(v, h.free, size, j);
      SomeFrom(lists, i, j);
      b := bins[fl * SL_COUNT + Ctz(slBits)];
      BlockReads(v, 0, h.free, b);
    }

    // ---- the top of the heap --------------------------------------------------------------------------------

    /** Sets the end of the heap at `to` when an epilogue there stays below the limit, and else changes nothing. */
    method MoveTop(to: nat, limit: nat, ghost S: set<nat>) returns (ok: bool)
      requires Mid(0, S) && to >= h.epi + 8 && first == h.first && limit <= mem.Length
      modifies mem, this`epilogue
      ensures ok <==> to + 8 <= limit
      ensures ok ==> mem[..] == old(mem[..])[to := 0][to + 4 := 0] && epilogue == to
      ensures !ok ==> mem[..] == old(mem[..]) && epilogue == old(epilogue)
      ensures Mid(0, S) && Keeps(old(mem[..]), h, mem[..], h, h.Used())
    {
      hide Sound, Keeps, Tiles, Shape.Used;
      ghost var v := Now();
      SoundTiles(v, 0, S);
      KeepsAll(v.m, h, h.Used());
      SpanIs(h);
      if to < first || to + 8 > limit {
        return false;
      }
      epilogue := to;
      Put(to, 0);
      Put(to + 4, 0);
      TopStep(v, 0, S, mem[..], to);
      return true;
    }

    /** Whether a used block of `size` bytes can be made at the top under `limit`. */
    static ghost predicate TopRoom(g: Shape, size: nat, limit: nat)
    {
      || (g.OverFree(g.epi) && g.below[g.epi] in g.size && g.size[g.below[g.epi]] >= size)
      || g.Lowest(g.epi) + 16 + size <= limit
    }

    /** The last block, a free one, taken into use and made `size` bytes, the epilogue standing where that ends. */
    method RaiseLast(b: nat, size: nat, flags: nat)
      requires Mid(0, h.free) && Apart(h) && first == h.first && b in h.size && b in h.free && h.End(b) == h.epi
      requires size % 8 == 0 && size > h.size[b] && epilogue == b + 8 + size && epilogue + 8 <= mem.Length
      requires mem[epilogue] == 0 && mem[epilogue + 4] == 0 && b + 8 <= mem.Length && flags == PrevIn(mem[b + 4])
      modifies mem, bins, slMap, this`flMap, this`lists, this`h
      ensures Settled() && Took(old(h.Used()), b, size)
      ensures Keeps(old(mem[..]), old(h), mem[..], h, old(h.Used()))
    {
      hide Sound, Keeps, Tiles, Apart, Shape.Used, Shape.TakenRaised, SizeIn, FreeIn, PrevFreeIn, PrevIn, Head;
      ghost var v := Now();
      ghost var to, S := epilogue, h.free - {b};
      SoundTiles(v, 0, h.free);
      AboveLast(h, b, size);
      SpanIs(h);
      BlockReads(v, 0, h.free, b);
      UnlinkFree(b, 0, h.free);
      ghost var v2 := Now();
      BlockReads(v2, 0, S, b);
      TopIsNoLink(v, 0, h.free, v2.m, S, to);
      Put(b + 4, size + flags);
      SameTop(v2.m, to);
      RaiseStep(v2, S, 0, mem[..], b, size, to);
      h := h.TakenRaised(b, size);
      RaisedFree(v.h, b, size);
      KeepsBoth(v.m, v.h, v2.m, v.h, mem[..], h, v.h.Used());
    }

    /** A used block where the old epilogue was, the new one standing where the block ends. */
    method UseTop(size: nat)
      requires Mid(0, h.free) && Apart(h) && first == h.first && !h.OverFree(h.epi)
      requires size % 8 == 0 && size >= 8 && epilogue == h.epi + 8 + size && epilogue + 8 <= mem.Length
      requires mem[epilogue] == 0 && mem[epilogue + 4] == 0
      modifies mem, this`h
      ensures Settled() && Took(old(h.Used()), old(h.epi), size) && h == old(h).Extended(size)
      ensures Keeps(old(mem[..]), old(h), mem[..], h, old(h.Used()))
    {
      hide Sound, Keeps, Tiles, Apart, Shape.Used, Shape.Extended;
      ghost var v := Now();
      SoundTiles(v, 0, h.free);
      SpanIs(h);
      var b := epilogue - 8 - size;
      Put(b + 4, size);
      SameTop(v.m, epilogue);
      ExtendStep(v, h.free, mem[..], size, epilogue);
      h := h.Extended(size);
      ExtendedTop(v.h, size);
    }

    /** Takes `size` bytes into use at the end of the heap, exactly when TopRoom says so. */
    method Grow(size: nat, limit: nat) returns (b: nat)
      requires Settled() && size % 8 == 0 && 8 <= size <= 0x8000_0010 && limit <= mem.Length
      modifies mem, bins, slMap, this`flMap, this`lists, this`h, this`epilogue
      ensures Settled()
      ensures b != 0 <==> old(TopRoom(h, size, limit))
      ensures b == 0 ==> h == old(h) && lists == old(lists) && mem[..] == old(mem[..])
      ensures b != 0 ==> Took(old(h.Used()), b, size)
      ensures b != 0 && !old(h.OverFree(h.epi)) ==> b == old(h.epi) && h == old(h).Extended(size)
      ensures Keeps(old(mem[..]), old(h), mem[..], h, old(h.Used()))
    {
      hide Sound, Keeps, Tiles, Apart, Shape.Used, Shape.TakenRaised, Shape.Extended, SizeIn, FreeIn, PrevFreeIn,
        PrevIn, Head;
      ghost var v := Now();
      SoundTiles(v, 0, h.free);
      KeepsAll(v.m, h, h.Used());
      SpanIs(h);
      Reads(v, 0, h.free, h.epi);
      b := epilogue;
      if PrevFreeIn(mem[b + 4]) {
        ReadsBelow(v, 0, h.free, b);
        b := b - 8 - mem[b];
        BlockReads(v, 0, h.free, b);
        if SizeIn(mem[b + 4]) >= size {
          TakeBlock(b);
          FreshlyTaken(v.h, b, size);
          return;
        }
        AboveLast(v.h, b, size);
      }
      var flags := PrevIn(mem[b + 4]);
      // No sum wraps below 4 GiB, so the test for one that did never fires.
      assert b + 8 + size < 0x1_0000_0000;
      var old_ := epilogue;
      var to := b + 8 + size;
      var ok := MoveTop(to, limit, h.free);
      if !ok {
        return 0;
      }
      ghost var v1 := Now();
      if b != old_ {
        RaiseLast(b, size, flags);
      } else {
        FlagOf(v, 0, h.free, b);
        UseTop(size);
      }
      KeepsBoth(v.m, v.h, v1.m, v.h, mem[..], h, v.h.Used());
    }

    // ---- the interface --------------------------------------------------------------------------------------

    /** Nothing has been allocated yet. */
    ghost predicate Unstarted()
      reads this, mem, bins, slMap
    {
      && first == 0 && epilogue == 0 && h == NoHeap
      && Linked(mem[..], bins[..], lists) && Mapped(slMap[..], flMap, lists) && Filed(lists, map[], {})
    }

    /** The whole invariant, between any two calls. */
    ghost predicate Valid()
      reads this, mem, bins, slMap
    {
      Parts() && if first == 0 then Unstarted() else Settled()
    }

    /** Memory, and statically allocated list heads and bitmaps, all zero. */
    constructor (ram: nat, programEnd: nat)
      requires ram <= 0x4000_0000 && 0 < programEnd < 0x4000_0000
      ensures Valid() && first == 0 && h.Used() == {} && mem.Length == ram && start == programEnd
      ensures fresh(mem) && fresh(bins) && fresh(slMap)
    {
      hide Linked, Mapped, Filed, Chain, Holds, Indexed, BinOf, Bit;
      mem := new nat[ram];
      bins := new nat[BINS](i => 0);
      slMap := new nat[FL_COUNT](i => 0);
      start := programEnd;
      flMap, first, epilogue := 0, 0, 0;
      h := NoHeap;
      lists := seq(BINS, i => []);
      new;
      EmptyLists(mem[..], bins[..], slMap[..], lists);
    }

    /** Where the heap begins. */
    function Bottom(): nat
    {
      (start + 7) / 8 * 8
    }

    method StartHeap(limit: nat) returns (ok: bool)
      requires Valid() && limit <= mem.Length
      modifies mem, this`first, this`epilogue, this`h
      ensures ok <==> old(first) != 0 || Bottom() + 8 <= limit
      ensures ok ==> first != 0
      ensures old(first) != 0 ==>
        h == old(h) && mem[..] == old(mem[..]) && first == old(first) && epilogue == old(epilogue)
      ensures old(first) == 0 && ok ==> h == Shape(Bottom(), Bottom(), map[], map[], {})
      ensures old(first) == 0 && !ok ==> first == 0
      ensures Valid() && Keeps(old(mem[..]), old(h), mem[..], h, old(h.Used())) && h.Used() == old(h.Used())
    {
      hide Sound, Keeps, Linked, Mapped, Filed, Tiles, Tagged, Apart;
      ghost var v := Now();
      KeepsAll(mem[..], h, h.Used());
      if first != 0 {
        return true;
      }
      var bottom := Bottom();
      if bottom + 8 > limit {
        return false;
      }
      first := bottom;
      epilogue := bottom;
      Put(bottom, 0);
      Put(bottom + 4, 0);
      h := Shape(bottom, bottom, map[], map[], {});
      StartStep(v, mem[..], bottom);
      assert v.h.Used() == {};
      KeepsNone(v.m, v.h, mem[..], h);
      return true;
    }

    /** The blocks as they are once the heap has been started. */
    ghost function Begun(): Shape
      reads this
    {
      if first == 0 then Empty(Bottom()) else h
    }

    /** Whether a block of `size` bytes is to be had: from a list that holds only large enough ones, or at the top. */
    ghost predicate Room(size: nat, limit: nat)
      reads this
    {
      if first == 0 then Bottom() + 16 + size <= limit else HasRoom(lists, h, size, limit)
    }

    static ghost predicate HasRoom(ls: seq<seq<nat>>, g: Shape, size: nat, limit: nat)
    {
      !NoneFrom(ls, BinOf(Rounded(size)), BINS) || TopRoom(g, size, limit)
    }

    /** Takes a block into use, exactly when Room says so, and starts the heap if need be. */
    method Take(size: nat, limit: nat) returns (b: nat)
      requires Valid() && size % 8 == 0 && 8 <= size <= 0x8000_0010 && limit <= mem.Length
      modifies mem, bins, slMap, this`flMap, this`lists, this`h, this`first, this`epilogue
      ensures Valid() && (b != 0 <==> old(Room(size, limit)))
      ensures b == 0 ==> h.Used() == old(h.Used()) && (old(first) != 0 ==> h == old(h))
      ensures b != 0 ==> first != 0 && Took(old(h.Used()), b, size)
      ensures b != 0 && old(Begun().free) == {} ==> b == old(Begun()).epi && h == old(Begun()).Extended(size)
      ensures Keeps(old(mem[..]), old(h), mem[..], h, old(h.Used()))
    {
      hide Sound, Keeps, Apart, BinOf, Rounded, NoneFrom, Shape.Used, TopRoom, Linked, Mapped, Filed, Tiles;
      ghost var v := Now();
      FreshRoom(this, size, limit);
      var ok := StartHeap(limit);
      if !ok {
        return 0;
      }
      ghost var v1 := Now();
      b := Find(size);
      if b != 0 {
        SoundTiles(v1, 0, h.free);
        TakeBlock(b);
        FreshlyTaken(v1.h, b, size);
      } else {
        b := Grow(size, limit);
      }
      KeepsBoth(v.m, v.h, v1.m, v1.h, mem[..], h, v.h.Used());
    }

    /** A request that succeeded: p is a new live pointer, 8-aligned, to a block of at least n bytes. */
    ghost predicate Handed(used: set<nat>, p: nat, n: nat)
      reads this
    {
      p >= 8 && p % 8 == 0 && Took(used, p - 8, n)
    }

    method Malloc(n: nat, limit: nat) returns (p: nat, errno: Errno)
      requires Valid() && limit <= mem.Length
      modifies mem, bins, slMap, this`flMap, this`lists, this`h, this`first, this`epilogue
      ensures Valid() && (p != 0 <==> 0 < n <= MAX_REQUEST && old(Room(BlockSize(n), limit)))
      ensures errno == if p == 0 && n != 0 then OutOfMemory else NoError
      ensures p == 0 ==> h.Used() == old(h.Used()) && (old(first) != 0 ==> h == old(h))
      ensures p != 0 ==> first != 0 && Handed(old(h.Used()), p, BlockSize(n))
      ensures p != 0 && old(Begun().free) == {} ==>
        p == old(Begun()).epi + 8 && h == old(Begun()).Extended(BlockSize(n))
      ensures Keeps(old(mem[..]), old(h), mem[..], h, old(h.Used()))
    {
      hide Sound, Keeps, Apart, BinOf, Rounded, NoneFrom, Shape.Used, TopRoom, Linked, Mapped, Filed, Tiles,
        SamePayload;
      ghost var v := Now();
      KeepsAll(v.m, h, h.Used());
      if n == 0 {
        return 0, NoError;
      }
      if n > MAX_REQUEST {
        return 0, OutOfMemory;
      }
      var size := BlockSize(n);
      var b := Take(size, limit);
      if b == 0 {
        return 0, OutOfMemory;
      }
      ghost var v1 := Now();
      NewUsed(v.h, h, b);
      Trim(b, size);
      KeepsFewer(v1.m, v1.h, mem[..], h, v1.h.Used() - {b}, v.h.Used());
      KeepsBoth(v.m, v.h, v1.m, v1.h, mem[..], h, v.h.Used());
      return b + 8, NoError;
    }

    /** The addresses a payload may have. */
    predicate InHeap(p: nat)
      reads this
    {
      first != 0 && p % 8 == 0 && first + 8 <= p < epilogue
    }

    /** p is a pointer handed out and not taken back. */
    ghost predicate Live(p: nat)
      reads this
    {
      p >= 8 && p - 8 in h.Used()
    }

    /** The free block that the word below header b speaks of is there, and says the same of itself. */
    ghost predicate FootAgrees(b: nat)
      requires first <= b && b + 8 <= mem.Length
      reads this, mem
    {
      var below := (b - 8 - mem[b]) % 0x1_0000_0000;
      mem[b] >= 8 && first <= below < b && FreeIn(mem[below + 4]) && SizeIn(mem[below + 4]) == mem[b]
    }

    /** The words before p and around what they describe pass for those of a used block. */
    ghost predicate Believed(p: nat)
      reads this, mem
    {
      && InHeap(p) && epilogue + 8 <= mem.Length
      && var head := mem[p - 4];
        !FreeIn(head) && head / 4 % 2 == 0 && SizeIn(head) >= 8 && p + SizeIn(head) <= epilogue
        && !PrevFreeIn(mem[p + SizeIn(head) + 4]) && (PrevFreeIn(head) ==> FootAgrees(p - 8))
    }

    /** A pointer the heap may be asked about: any but one before which the program has written a header of its own. */
    ghost predicate Askable(p: nat)
      reads this, mem
    {
      Believed(p) ==> Live(p)
    }

    /** The verdict on a pointer that is not live. */
    ghost function Blame(p: nat): Outcome
      reads this, mem
    {
      if !InHeap(p) then NotFromMalloc
      else if p <= mem.Length && FreeIn(mem[p - 4]) then AlreadyFree
      else NotLive
    }

    /** Tells from the headers around p whether p is live: it is right about every pointer to a block. */
    method LiveBlock(p: nat) returns (live: bool)
      requires Valid()
      ensures live <==> Believed(p)
      ensures Live(p) ==> live
      ensures p >= 8 && p - 8 in h.size ==> (live <==> Live(p))
    {
      hide Sound, Tiles, SizeIn, FreeIn, PrevFreeIn, Linked, Mapped, Filed, Apart;
      BelievedIs(this, p);
      if !InHeap(p) {
        return false;
      }
      InBounds(this);
      var b := p - 8;
      if FreeIn(mem[b + 4]) || mem[b + 4] / 4 % 2 == 1 || SizeIn(mem[b + 4]) < 8 {
        return false;
      }
      var end := p + SizeIn(mem[b + 4]);
      if end < p || end > epilogue {
        return false;
      }
      if PrevFreeIn(mem[end + 4]) {
        return false;
      }
      if PrevFreeIn(mem[b + 4]) {
        var below := (b - 8 - mem[b]) % 0x1_0000_0000;
        if mem[b] < 8 || below < first || below >= b {
          return false;
        }
        if !FreeIn(mem[below + 4]) || SizeIn(mem[below + 4]) != mem[b] {
          return false;
        }
      }
      return true;
    }

    method Free(p: nat) returns (outcome: Outcome)
      requires Valid() && Askable(p)
      modifies mem, bins, slMap, this`flMap, this`lists, this`h
      ensures Valid()
      ensures outcome == old(if p == 0 || Live(p) then Done else Blame(p))
      ensures old(p >= 8 && p - 8 in h.free) ==> outcome == AlreadyFree
      ensures old(Live(p)) ==> h.Used() == old(h.Used()) - {Of(p)}
      ensures old(Live(p) && Alone(h, Of(p))) ==> h == old(h).Freed(Of(p))
      ensures !old(Live(p)) ==> h == old(h) && mem[..] == old(mem[..])
      ensures Keeps(old(mem[..]), old(h), mem[..], h, old(h.Used()) - {Of(p)})
    {
      hide Sound, Keeps, Tiles, SizeIn, FreeIn, PrevFreeIn, Head, Linked, Mapped, Filed, Apart;
      ghost var v := Now();
      UsedMinus(v.m, h, Of(p));
      LiveInHeap(this, p);
      BelievedIs(this, p);
      if p == 0 {
        return Done;
      }
      if !InHeap(p) {
        return NotFromMalloc;
      }
      var b := p - 8;
      InBounds(this);
      if FreeIn(mem[b + 4]) {
        return AlreadyFree;
      }
      var live := LiveBlock(p);
      if !live {
        return NotLive;
      }
      Release(b);
      return Done;
    }

    // ---- resizing ----------------------------------------------------------------------------------------------

    /** Used block b takes in the free block above it. */
    method TakeNext(b: nat)
      requires Mid(0, h.free) && Apart(h) && b in h.Used() && h.End(b) in h.size && h.End(b) in h.free
      modifies mem, bins, slMap, this`flMap, this`lists, this`h
      ensures h == old(h).Joined(b) && Mid(0, h.free) && Apart(h) && h.Used() == old(h.Used()) && b in h.size
      ensures Keeps(old(mem[..]), old(h), mem[..], h, h.Used() - {b})
      ensures SamePayload(old(mem[..]), mem[..], b, old(h.size[b]))
    {
      hide Sound, Keeps, Tiles, Apart, SizeIn, FreeIn, PrevFreeIn, WithoutPrev, Head, SamePayload, Shape.Used,
        OnlyLinks;
      ghost var v := Now();
      IsUsed(h, b);
      ghost var K, n, s := h.Used() - {b}, h.End(b), h.size[b];
      SoundTiles(v, 0, h.free);
      JoinedShape(h, b);
      BlockReads(v, 0, h.free, b);
      NextReads(v, 0, h.free, b);
      var next := b + 8 + SizeIn(mem[b + 4]);
      UnlinkFree(next, 0, h.free);
      ghost var v1 := Now();
      BlockReads(v1, 0, h.free - {n}, b);
      NextReads(v1, 0, h.free - {n}, b);
      Put(b + 4, mem[b + 4] + 8 + SizeIn(mem[next + 4]));
      JoinUpStep(v1, h.free - {n}, mem[..], b, n);
      h := h.Joined(b);
      ghost var v2 := Now();
      BlockReads(v2, h.End(b), h.free, b);
      EndIsHeader(h, b);
      var above := b + 8 + SizeIn(mem[b + 4]);
      Put(above + 4, WithoutPrev(mem[above + 4]));
      SettleStep(v2, h.free, mem[..], above);
      HeadOnly(v1.m, v2.m, b, v2.m[b + 4], s);
      KeptBlock(v.m, v.h, v1.m, v1.h, v.h.Used(), b);
      KeptBlock(v2.m, v2.h, mem[..], h, h.Used(), b);
      SamePart(v2.m, mem[..], b, h.size[b], s);
      SameTwice(v.m, v1.m, v2.m, b, s);
      SameTwice(v.m, v2.m, mem[..], b, s);
      KeepsFewer(v.m, v.h, v1.m, v1.h, v.h.Used(), K);
      KeepsFewer(v2.m, v2.h, mem[..], h, h.Used(), K);
      KeepsBoth(v.m, v.h, v1.m, v1.h, v2.m, v2.h, K);
      KeepsBoth(v.m, v.h, v2.m, v2.h, mem[..], h, K);
    }

    /** The last block, a used one, made `size` bytes, the epilogue standing where that ends. */
    method RaiseUsed(b: nat, size: nat)
      requires Mid(0, h.free) && Apart(h) && first == h.first && b in h.Used() && h.End(b) == h.epi
      requires size % 8 == 0 && size > h.size[b] && epilogue == b + 8 + size && epilogue + 8 <= mem.Length
      requires mem[epilogue] == 0 && mem[epilogue + 4] == 0 && b + 8 <= mem.Length
      modifies mem, this`h
      ensures Settled() && h.Used() == old(h.Used()) && b in h.size && h.size[b] == size
      ensures Keeps(old(mem[..]), old(h), mem[..], h, h.Used() - {b})
      ensures SamePayload(old(mem[..]), mem[..], b, old(h.size[b]))
    {
      hide Sound, Keeps, Tiles, Apart, Shape.TakenRaised, SizeIn, FreeIn, PrevFreeIn, PrevIn, Head, SamePayload,
        Shape.Used;
      ghost var v := Now();
      IsUsed(h, b);
      SoundTiles(v, 0, h.free);
      AboveLast(h, b, size);
      BlockReads(v, 0, h.free, b);
      Put(b + 4, size + PrevIn(mem[b + 4]));
      SameTop(v.m, epilogue);
      RaiseStep(v, h.free, 0, mem[..], b, size, epilogue);
      h := h.TakenRaised(b, size);
      RaisedUsed(v.h, b, size);
    }

    /** Used block b, and the last block, a free one above it, made one used block of `size` bytes. */
    method RaiseOverNext(b: nat, next: nat, size: nat)
      requires Mid(0, h.free) && Apart(h) && first == h.first && b in h.Used() && next == h.End(b)
      requires next in h.size && next in h.free && h.End(next) == h.epi
      requires size % 8 == 0 && b + 8 + size > h.epi && epilogue == b + 8 + size && epilogue + 8 <= mem.Length
      requires mem[epilogue] == 0 && mem[epilogue + 4] == 0 && b + 8 <= mem.Length
      modifies mem, bins, slMap, this`flMap, this`lists, this`h
      ensures Settled() && h.Used() == old(h.Used()) && b in h.size && h.size[b] == size
      ensures Keeps(old(mem[..]), old(h), mem[..], h, h.Used() - {b})
      ensures SamePayload(old(mem[..]), mem[..], b, old(h.size[b]))
    {
      hide Sound, Keeps, Tiles, Apart, Shape.TakenRaised, Shape.Joined, SizeIn, FreeIn, PrevFreeIn, PrevIn, Head,
        SamePayload, Shape.Used, OnlyLinks;
      ghost var v := Now();
      IsUsed(h, b);
      ghost var K, S, s := h.Used() - {b}, h.free - {next}, h.size[b];
      SoundTiles(v, 0, h.free);
      JoinedShape(h, b);
      SpanIs(h);
      UnlinkFree(next, 0, h.free);
      ghost var v1 := Now();
      TopIsNoLink(v, 0, h.free, v1.m, S, epilogue);
      BlockReads(v1, 0, S, b);
      Put(b + 4, size + PrevIn(mem[b + 4]));
      // As if the two had first been joined.
      ghost var mj := v1.m[b + 4 := v1.m[b + 4] + 8 + v.h.size[next]];
      JoinUpStep(v1, S, mj, b, next);
      ghost var g := v.h.Joined(b);
      ghost var vj := v1.(m := mj, h := g);
      FlagOf(v1, 0, S, b);
      FlagOf(vj, g.End(b), S, b);
      PutTwice(v1.m, b + 4, mj[b + 4], mem[b + 4]);
      SameTop(mj, epilogue);
      AboveLast(g, b, size);
      RaiseStep(vj, S, g.epi, mem[..], b, size, epilogue);
      h := g.TakenRaised(b, size);
      RaisedUsed(g, b, size);
      HeadOnly(v1.m, mem[..], b, mem[b + 4], s);
      KeptBlock(v.m, v.h, v1.m, v1.h, v.h.Used(), b);
      SameTwice(v.m, v1.m, mem[..], b, s);
      KeepsFewer(v.m, v.h, v1.m, v1.h, v.h.Used(), K);
      KeepsBoth(v.m, v.h, v1.m, v1.h, mj, g, K);
      KeepsBoth(v.m, v.h, mj, g, mem[..], h, K);
    }

    /** Whether used block b can grow to `size` bytes where it is. */
    ghost predicate InPlace(g: Shape, b: nat, size: nat, limit: nat)
      requires b in g.size
    {
      var n := g.End(b);
      if n in g.size && n in g.free then
        g.size[b] + 8 + g.size[n] >= size || (g.End(n) == g.epi && b + 16 + size <= limit)
      else
        n == g.epi && b + 16 + size <= limit
    }

    /** Lengthens b where it stands, exactly when InPlace says so, keeping its bytes. */
    method GrowInPlace(b: nat, size: nat, limit: nat) returns (ok: bool)
      requires Settled() && b in h.size && b in h.Used() && limit <= mem.Length
      requires size % 8 == 0 && h.size[b] < size <= MAX_REQUEST
      modifies mem, bins, slMap, this`flMap, this`lists, this`h, this`epilogue
      ensures Settled() && h.Used() == old(h.Used()) && b in h.size
      ensures ok <==> old(InPlace(h, b, size, limit))
      ensures ok ==> h.size[b] >= size
      ensures !ok ==> h == old(h) && lists == old(lists) && mem[..] == old(mem[..])
      ensures Keeps(old(mem[..]), old(h), mem[..], h, h.Used() - {b})
      ensures SamePayload(old(mem[..]), mem[..], b, old(h.size[b]))
    {
      hide Sound, Keeps, Tiles, Apart, SizeIn, FreeIn, PrevFreeIn, Head, SamePayload, Shape.Used, Shape.Joined;
      ghost var v := Now();
      ghost var K, s := h.Used() - {b}, h.size[b];
      IsUsed(h, b);
      SoundTiles(v, 0, h.free);
      SpanIs(h);
      BlockReads(v, 0, h.free, b);
      NextReads(v, 0, h.free, b);
      UsedMinus(v.m, h, b);
      AllSame(v.m, b, s);
      var next := b + 8 + SizeIn(mem[b + 4]);
      var room, above := SizeIn(mem[b + 4]), next;
      if FreeIn(mem[next + 4]) {
        BlockReads(v, 0, h.free, next);
        JoinedShape(h, b);
        room := room + 8 + SizeIn(mem[next + 4]);
        above := next + 8 + SizeIn(mem[next + 4]);
        if room >= size {
          TakeNext(b);
          SameEdges(v.h, b);
          ghost var v1 := Now();
          Trim(b, size);
          KeepsBoth(v.m, v.h, v1.m, v1.h, mem[..], h, K);
          SamePart(v1.m, mem[..], b, size, s);
          SameTwice(v.m, v1.m, mem[..], b, s);
          return true;
        }
      }
      if above == epilogue {
        // No sum wraps below 4 GiB.
        assert b + 8 + size < 0x1_0000_0000;
        TopIsAbove(h, b, size);
        ok := MoveTop(b + 8 + size, limit, h.free);
        if ok {
          ghost var v1 := Now();
          if next != above {
            RaiseOverNext(b, next, size);
          } else {
            RaiseUsed(b, size);
          }
          KeepsFewer(v.m, v.h, v1.m, v1.h, h.Used(), K);
          KeptBlock(v.m, v.h, v1.m, v1.h, h.Used(), b);
          KeepsBoth(v.m, v.h, v1.m, v1.h, mem[..], h, K);
          SameTwice(v.m, v1.m, mem[..], b, s);
          return true;
        }
      }
      return false;
    }

    /** A store by the program into a payload of its own. */
    method Write(p: nat, k: nat, x: nat)
      requires Valid() && Live(p) && p - 8 in h.size && k < h.size[p - 8]
      modifies mem
      ensures Valid() && p + k < mem.Length && mem[..] == old(mem[..])[p + k := x]
      ensures Keeps(old(mem[..]), h, mem[..], h, h.Used() - {p - 8})
    {
      hide Sound, Keeps, Tiles, Apart, Linked, Mapped, Filed;
      ghost var v := Now();
      LiveInHeap(this, p);
      BlockReads(v, 0, h.free, p - 8);
      Put(p + k, x);
      PayloadStep(v, mem[..], p - 8);
    }

    /** memcpy(q, p, count) */
    method Memcpy(q: nat, p: nat, count: nat)
      requires p + count <= mem.Length && q + count <= mem.Length && (p + count <= q || q + count <= p)
      modifies mem
      ensures SameBytes(old(mem[..]), p, mem[..], q, count)
      ensures forall w :: 0 <= w < mem.Length && !(q <= w < q + count) ==> mem[w] == old(mem[w])
    {
      var i := 0;
      while i < count
        invariant i <= count
        invariant forall w :: q <= w < q + i ==> mem[w] == old(mem[p + (w - q)])
        invariant forall w :: 0 <= w < mem.Length && !(q <= w < q + i) ==> mem[w] == old(mem[w])
      {
        mem[q + i] := mem[p + i];
        i := i + 1;
      }
      assert mem[q..q + count] == old(mem[p..p + count]);
      assert mem[q..q + count] == mem[..][q..q + count];
      assert old(mem[p..p + count]) == old(mem[..])[p..p + count];
    }

    /** The first bytes of one payload copied to another. */
    method Copy(q: nat, p: nat, count: nat)
      requires Settled() && Live(p) && Live(q) && p != q && p - 8 in h.size && q - 8 in h.size
      requires count <= h.size[p - 8] && count <= h.size[q - 8]
      modifies mem
      ensures Settled() && Keeps(old(mem[..]), h, mem[..], h, h.Used() - {q - 8})
      ensures SameBytes(old(mem[..]), p, mem[..], q, count)
    {
      hide Sound, Keeps, Tiles, Apart, Linked, Mapped, Filed, Head, SizeIn, FreeIn, PrevFreeIn, Shape.Used, SameBytes;
      ghost var v := Now();
      IsUsed(h, q - 8);
      SoundTiles(v, 0, h.free);
      BlockReads(v, 0, h.free, p - 8);
      BlockReads(v, 0, h.free, q - 8);
      EightApart(h, p - 8, q - 8);
      EightApart(h, q - 8, p - 8);
      Memcpy(q, p, count);
      PayloadStep(v, mem[..], q - 8);
    }

    /** The pointer p now is q, to a block of at least n bytes; nothing else became or ceased to be used. */
    ghost predicate Became(used: set<nat>, p: nat, q: nat, n: nat)
      reads this
    {
      && q >= 8 && q % 8 == 0 && h.Used() == used - {Of(p)} + {q - 8}
      && q - 8 in h.size && h.size[q - 8] >= n && (q == p || q - 8 !in used)
    }

    /** The contents of block b moved to the new block at q, and b freed. */
    method Relocate(b: nat, q: nat)
      requires Valid() && first != 0 && b in h.size && b in h.Used() && Live(q) && q - 8 in h.size && q - 8 != b
      requires h.size[q - 8] >= h.size[b]
      modifies mem, bins, slMap, this`flMap, this`lists, this`h
      ensures Valid() && h.Used() == old(h.Used()) - {b} && q - 8 in h.size && h.size[q - 8] == old(h.size[q - 8])
      ensures SameBytes(old(mem[..]), b + 8, mem[..], q, old(h.size[b]))
      ensures Keeps(old(mem[..]), old(h), mem[..], h, old(h.Used()) - {b} - {q - 8})
    {
      hide Sound, Keeps, Tiles, Apart, Linked, Mapped, Filed, Head, SizeIn, FreeIn, PrevFreeIn, SamePayload, SameBytes;
      ghost var v := Now();
      ghost var s, c := h.size[b], q - 8;
      ghost var K := h.Used() - {b} - {c};
      BlockReads(v, 0, h.free, b);
      BlockReads(v, 0, h.free, c);
      Copy(q, b + 8, SizeIn(mem[b + 4]));
      ghost var v1 := Now();
      LiveInHeap(this, b + 8);
      var outcome := Free(b + 8);
      KeptBlock(v1.m, v1.h, mem[..], h, v.h.Used() - {b}, c);
      StillBytes(v1.m, c, mem[..], v.h.size[c], s);
      ChainBytes(v.m, b + 8, v1.m, q, mem[..], q, s);
      KeepsFewer(v.m, v.h, v1.m, v1.h, v.h.Used() - {c}, K);
      KeepsFewer(v1.m, v1.h, mem[..], h, v.h.Used() - {b}, K);
      KeepsBoth(v.m, v.h, v1.m, v1.h, mem[..], h, K);
    }

    /** Moves live block b to a new and larger one, if there is room for that. */
    method Replace(b: nat, n: nat, limit: nat) returns (q: nat, errno: Errno)
      requires Valid() && first != 0 && b in h.size && b in h.Used() && 0 < n <= MAX_REQUEST && limit <= mem.Length
      requires h.size[b] < BlockSize(n)
      modifies mem, bins, slMap, this`flMap, this`lists, this`h, this`first, this`epilogue
      ensures Valid()
      ensures q != 0 <==> old(Room(BlockSize(n), limit))
      ensures errno == if q == 0 then OutOfMemory else NoError
      ensures q == 0 ==> h.Used() == old(h.Used()) && Keeps(old(mem[..]), old(h), mem[..], h, h.Used())
      ensures q != 0 ==> Became(old(h.Used()), b + 8, q, BlockSize(n))
      ensures q != 0 ==> SameBytes(old(mem[..]), b + 8, mem[..], q, Min(old(h.size[b]), n))
      ensures Keeps(old(mem[..]), old(h), mem[..], h, old(h.Used()) - {b})
    {
      hide Sound, Keeps, Tiles, Apart, Linked, Mapped, Filed, Head, SizeIn, FreeIn, PrevFreeIn, SamePayload, SameBytes,
        HasRoom, Shape.Used, BlockSize;
      ghost var v := Now();
      ghost var s := h.size[b];
      IsUsed(h, b);
      BlockReads(v, 0, h.free, b);
      q, errno := Malloc(n, limit);
      ghost var v1 := Now();
      ghost var U, K := v.h.Used(), v.h.Used() - {b};
      KeepsFewer(v.m, v.h, v1.m, v1.h, U, K);
      if q == 0 {
        return;
      }
      KeptBlock(v.m, v.h, v1.m, v1.h, U, b);
      Relocate(b, q);
      MovedUsed(U, b, q - 8);
      StillBytes(v.m, b, v1.m, s, s);
      ChainBytes(v.m, b + 8, v1.m, b + 8, mem[..], q, s);
      FewerBytes(v.m, b + 8, mem[..], q, s, Min(s, n));
      KeepsBoth(v.m, v.h, v1.m, v1.h, mem[..], h, K);
    }

    /** The resizing of a live block. */
    method Resize(b: nat, n: nat, limit: nat) returns (q: nat, errno: Errno)
      requires Valid() && first != 0 && b in h.size && b in h.Used() && n > 0 && limit <= mem.Length
      modifies mem, bins, slMap, this`flMap, this`lists, this`h, this`first, this`epilogue
      ensures Valid()
      ensures q != 0 <==>
        (n <= MAX_REQUEST
         && old(h.size[b] >= BlockSize(n) || InPlace(h, b, BlockSize(n), limit) || Room(BlockSize(n), limit)))
      ensures errno == if q == 0 then OutOfMemory else NoError
      ensures q == 0 ==> h.Used() == old(h.Used()) && Keeps(old(mem[..]), old(h), mem[..], h, h.Used())
      ensures q != 0 ==> Became(old(h.Used()), b + 8, q, BlockSize(n))
      ensures q != 0 ==> SameBytes(old(mem[..]), b + 8, mem[..], q, Min(old(h.size[b]), n))
      ensures Keeps(old(mem[..]), old(h), mem[..], h, old(h.Used()) - {b})
    {
      hide Sound, Keeps, Tiles, Apart, Linked, Mapped, Filed, Head, SizeIn, FreeIn, PrevFreeIn, SamePayload, SameBytes,
        HasRoom, InPlace, Shape.Used, BlockSize;
      ghost var v := Now();
      ghost var s := h.size[b];
      IsUsed(h, b);
      BlockReads(v, 0, h.free, b);
      KeepsAll(v.m, h, h.Used());
      UsedMinus(v.m, h, b);
      if n > MAX_REQUEST {
        return 0, OutOfMemory;
      }
      var size := BlockSize(n);
      if size <= SizeIn(mem[b + 4]) {
        Trim(b, size);
        StillBytes(v.m, b, mem[..], size, Min(s, n));
        SameUsed(v.h.Used(), b);
        return b + 8, NoError;
      }
      var ok := GrowInPlace(b, size, limit);
      if ok {
        StillBytes(v.m, b, mem[..], s, Min(s, n));
        SameUsed(v.h.Used(), b);
        return b + 8, NoError;
      }
      q, errno := Replace(b, n, limit);
    }

    method Realloc(p: nat, n: nat, limit: nat) returns (q: nat, errno: Errno, outcome: Outcome)
      requires Valid() && Askable(p) && limit <= mem.Length
      modifies mem, bins, slMap, this`flMap, this`lists, this`h, this`first, this`epilogue
      ensures Valid()
      ensures outcome == old(if p == 0 || Live(p) then Done else Blame(p))
      ensures old(p >= 8 && p - 8 in h.free) ==> outcome == AlreadyFree
      // Of no pointer at all: an allocation.
      ensures p == 0 ==> (q != 0 <==> 0 < n <= MAX_REQUEST && old(Room(BlockSize(n), limit)))
      ensures p == 0 ==> if q == 0 then h.Used() == old(h.Used()) else Handed(old(h.Used()), q, BlockSize(n))
      // To no size at all: a release.
      ensures p != 0 && n == 0 ==> q == 0 && h.Used() == old(h.Used()) - {Of(p)}
      // A pointer that is not live: nothing happens.
      ensures p != 0 && !old(Live(p)) ==> q == 0 && h == old(h) && mem[..] == old(mem[..])
      // Else a block of the new size with the old contents, or failure and the original untouched.
      ensures old(Live(p)) && n != 0 ==> (q != 0 <==> old(Resizable(Of(p), n, limit)))
      ensures old(Live(p)) && n != 0 && q == 0 ==> Keeps(old(mem[..]), old(h), mem[..], h, old(h.Used()))
      ensures old(Live(p)) && n != 0 && q == 0 ==> h.Used() == old(h.Used()) && errno == OutOfMemory
      ensures old(Live(p)) && q != 0 ==> Became(old(h.Used()), p, q, BlockSize(n))
      ensures old(Live(p)) && q != 0 ==> SameBytes(old(mem[..]), p, mem[..], q, Min(old(Payload(h, Of(p))), n))
      // Whatever happens, no other live block is touched.
      ensures Keeps(old(mem[..]), old(h), mem[..], h, old(h.Used()) - {Of(p)})
    {
      hide Sound, Keeps, Tiles, Apart, Linked, Mapped, Filed, SameBytes, HasRoom, InPlace;
      ghost var v := Now();
      LiveInHeap(this, p);
      BelievedIs(this, p);
      UsedMinus(v.m, h, Of(p));
      NoZero(this);
      if p == 0 {
        q, errno := Malloc(n, limit);
        KeepsFewer(v.m, v.h, mem[..], h, v.h.Used(), v.h.Used() - {Of(p)});
        return q, errno, Done;
      }
      if n == 0 {
        outcome := Free(p);
        return 0, NoError, outcome;
      }
      var live := LiveBlock(p);
      if !live {
        if !InHeap(p) {
          return 0, NoError, NotFromMalloc;
        }
        InBounds(this);
        return 0, NoError, if FreeIn(mem[p - 8 + 4]) then AlreadyFree else NotLive;
      }
      q, errno := Resize(p - 8, n, limit);
      return q, errno, Done;
    }

    /** Whether live block b can be given n bytes, where it is or elsewhere. */
    ghost predicate Resizable(b: nat, n: nat, limit: nat)
      requires b in h.size
      reads this
    {
      n <= MAX_REQUEST && (h.size[b] >= BlockSize(n) || InPlace(h, b, BlockSize(n), limit) || Room(BlockSize(n), limit))
    }

    // ---- aligned requests ------------------------------------------------------------------------------------

    /** Cuts used block b so that a payload begins at `want`, and frees the piece in front. */
    method CutFront(b: nat, want: nat)
      requires Mid(0, h.free) && Apart(h) && b in h.size && b in h.Used() && want % 8 == 0
      requires b + 24 <= want && want + 8 <= b + 8 + h.size[b]
      modifies mem, bins, slMap, this`flMap, this`lists, this`h
      ensures Mid(0, h.free) && Apart(h) && h.first == old(h.first) && h.epi == old(h.epi)
      ensures want - 8 in h.size && want - 8 !in old(h.Used()) && h.Used() == old(h.Used()) - {b} + {want - 8}
      ensures h.size[want - 8] == old(h.size[b]) - (want - 8 - b)
      ensures Keeps(old(mem[..]), old(h), mem[..], h, old(h.Used()) - {b})
    {
      hide Sound, Keeps, Tiles, Apart, Shape.Used, Shape.Split, SizeIn, FreeIn, PrevFreeIn, PrevIn, Head, SamePayload;
      ghost var v := Now();
      IsUsed(h, b);
      SoundTiles(v, 0, h.free);
      BlockReads(v, 0, h.free, b);
      var front := want - (b + 8);
      var nb := want - 8;
      Put(nb + 4, SizeIn(mem[b + 4]) - front);
      Put(b + 4, front - 8 + PrevIn(mem[b + 4]));
      SplitStep(v, h.free, mem[..], b, front - 8);
      h := h.Split(b, front - 8);
      SplitShape(v.h, b, front - 8);
      SplitRest(v.h, b, front - 8);
      ghost var v1 := Now();
      ghost var U, K := v.h.Used(), v.h.Used() - {b};
      SplitUsed(U, v1.h.Used(), b, nb);
      Release(b);
      KeptBlock(v1.m, v1.h, mem[..], h, v1.h.Used() - {b}, nb);
      KeepsFewer(v1.m, v1.h, mem[..], h, v1.h.Used() - {b}, K);
      KeepsBoth(v.m, v.h, v1.m, v1.h, mem[..], h, K);
    }

    /** The payload of used block b made to begin at a multiple of the alignment, and cut to size. */
    method Align(b: nat, alignment: nat, size: nat) returns (c: nat)
      requires Settled() && b in h.size && b in h.Used() && alignment >= 16 && alignment % 8 == 0
      requires size % 8 == 0 && size >= 8 && h.size[b] >= size + alignment + 16
      modifies mem, bins, slMap, this`flMap, this`lists, this`h
      ensures Settled() && IsMultiple(c + 8, alignment) && c % 8 == 0 && (c == b || c !in old(h.Used()))
      ensures c in h.size && h.size[c] >= size && h.Used() == old(h.Used()) - {b} + {c}
      ensures Keeps(old(mem[..]), old(h), mem[..], h, old(h.Used()) - {b})
    {
      hide Sound, Keeps, Tiles, Apart, Shape.Used, SamePayload, Wanted, IsMultiple, Head, SizeIn, FreeIn,
        PrevFreeIn;
      ghost var v := Now();
      ghost var K := h.Used() - {b};
      BlockReads(v, 0, h.free, b);
      UsedMinus(v.m, h, b);
      SameUsed(h.Used(), b);
      c := b;
      var at := b + 8;
      var want := Wanted(at, alignment);
      WantedIs(at, alignment);
      if want != at {
        CutFront(b, want);
        c := want - 8;
      }
      TakenOut(v.h.Used(), h.Used(), b, c);
      ghost var v1 := Now();
      Trim(c, size);
      KeepsBoth(v.m, v.h, v1.m, v1.h, mem[..], h, K);
    }

    method AlignedAlloc(alignment: nat, n: nat, limit: nat) returns (p: nat, errno: Errno)
      requires Valid() && limit <= mem.Length
      modifies mem, bins, slMap, this`flMap, this`lists, this`h, this`first, this`epilogue
      ensures Valid()
      ensures !PowerOfTwo(alignment) <==> errno == Invalid
      ensures PowerOfTwo(alignment) ==>
        errno == if p == 0 && (n != 0 || alignment > MAX_REQUEST) then OutOfMemory else NoError
      ensures p != 0 <==>
        (PowerOfTwo(alignment) && alignment <= MAX_REQUEST && 0 < n <= MAX_REQUEST
         && old(Room(if alignment <= 8 then BlockSize(n) else BlockSize(n) + alignment + 16, limit)))
      ensures p == 0 ==> h.Used() == old(h.Used())
      ensures p != 0 ==> IsMultiple(p, alignment) && Handed(old(h.Used()), p, BlockSize(n))
      ensures Keeps(old(mem[..]), old(h), mem[..], h, old(h.Used()))
    {
      hide Sound, Keeps, Apart, Shape.Used, PowerOfTwo, IsMultiple, Room, BlockSize, Took;
      ghost var v := Now();
      KeepsAll(v.m, h, h.Used());
      if !PowerOfTwo(alignment) {
        return 0, Invalid;
      }
      if alignment > MAX_REQUEST {
        return 0, OutOfMemory;
      }
      PowersOfTwo(alignment);
      if alignment <= 8 {
        p, errno := Malloc(n, limit);
        EightDivides(alignment, p);
        return;
      }
      if n == 0 {
        return 0, NoError;
      }
      if n > MAX_REQUEST {
        return 0, OutOfMemory;
      }
      p := TakeAligned(alignment, BlockSize(n), limit);
      return p, if p == 0 then OutOfMemory else NoError;
    }

    /** A block with room to spare in front, cut down to the payload asked for. */
    method TakeAligned(alignment: nat, size: nat, limit: nat) returns (p: nat)
      requires Valid() && limit <= mem.Length && 16 <= alignment <= MAX_REQUEST && alignment % 8 == 0
      requires size % 8 == 0 && 8 <= size <= MAX_REQUEST
      modifies mem, bins, slMap, this`flMap, this`lists, this`h, this`first, this`epilogue
      ensures Valid() && (p != 0 <==> old(Room(size + alignment + 16, limit)))
      ensures p == 0 ==> h.Used() == old(h.Used())
      ensures p != 0 ==> IsMultiple(p, alignment) && Handed(old(h.Used()), p, size)
      ensures Keeps(old(mem[..]), old(h), mem[..], h, old(h.Used()))
    {
      hide Sound, Keeps, Apart, HasRoom, Shape.Used, Linked, Mapped, Filed, Tiles, SizeIn, FreeIn, PrevFreeIn,
        Head, SamePayload, IsMultiple, Room;
      ghost var v := Now();
      var b := Take(size + alignment + 16, limit);
      if b == 0 {
        return 0;
      }
      ghost var v1 := Now();
      ghost var U := v.h.Used();
      NewUsed(v.h, h, b);
      b := Align(b, alignment, size);
      Replaced(U, v1.h.Used(), h.Used(), b);
      KeepsBoth(v.m, v.h, v1.m, v1.h, mem[..], h, U);
      return b + 8;
    }

    /** malloc_usable_size() */
    method UsableSize(p: nat) returns (size: nat)
      requires Valid() && Askable(p)
      ensures size == if Live(p) then Payload(h, Of(p)) else 0
    {
      hide Sound, SizeIn, Head, FreeIn, PrevFreeIn;
      if p == 0 {
        return 0;
      }
      var live := LiveBlock(p);
      if !live {
        return 0;
      }
      LiveInHeap(this, p);
      BlockReads(Now(), 0, h.free, p - 8);
      return SizeIn(mem[p - 8 + 4]);
    }

    // ---- inspection ---------------------------------------------------------------------------------------------

    /** What the inspection goes by, whatever memory holds. */
    ghost function Shown(): Image
      reads this, mem, bins, slMap
    {
      Image(mem[..], bins[..], slMap[..], flMap, first, epilogue)
    }

    function Peek(a: nat): (x: nat)
      reads mem
      ensures x == Word(mem[..], a)
    {
      if a < mem.Length then mem[a] else 0
    }

    /** Goes over the blocks from the first to the epilogue. */
    method CheckBlocks() returns (bad: nat, freeBlocks: nat)
      requires Shown().Formed()
      ensures bad == 0 <==> WalkPasses(mem[..], first, epilogue, false)
      ensures bad == 0 ==> freeBlocks == Shown().FreeBlocks()
      ensures bad != 0 ==> StopsAt(mem[..], first, epilogue, false, bad)
    {
      hide SizeIn, FreeIn, PrevFreeIn, Word;
      var m := mem[..];
      var low, high, prevFree := first, epilogue, false;
      var b: nat := first;
      freeBlocks := 0;
      while b != epilogue
        invariant low <= b <= high && freeBlocks + FreeAhead(m, b, high) == Shown().FreeBlocks()
        invariant WalkPasses(m, b, high, prevFree) <==> WalkPasses(m, low, high, false)
        invariant forall c: nat :: StopsAt(m, b, high, prevFree, c) <==> StopsAt(m, low, high, false, c)
        decreases high - b
      {
        if b < low || b > high || b % 8 != 0 || SizeIn(Peek(b + 4)) < 8 || Peek(b + 4) / 4 % 2 != 0 {
          return b, freeBlocks;
        }
        if SizeIn(Peek(b + 4)) + b + 8 > high {
          return b, freeBlocks;
        }
        if PrevFreeIn(Peek(b + 4)) != prevFree {
          return b, freeBlocks;
        }
        var isFree := FreeIn(Peek(b + 4));
        if isFree && prevFree {
          return b, freeBlocks;
        }
        var next := b + 8 + SizeIn(Peek(b + 4));
        if isFree {
          freeBlocks := freeBlocks + 1;
          if Peek(next) != SizeIn(Peek(b + 4)) {
            return b, freeBlocks;
          }
        }
        prevFree := isFree;
        b := next;
      }
      if PrevFreeIn(Peek(epilogue + 4)) != prevFree || SizeIn(Peek(epilogue + 4)) != 0 {
        return epilogue, freeBlocks;
      }
      return 0, freeBlocks;
    }

    /** The walk down list (fl, sl); `listed` counts the listed blocks so far. */
    method CheckList(fl: nat, sl: nat, listed0: nat, freeBlocks: nat) returns (bad: nat, listed: nat)
      requires Parts() && Shown().Formed() && fl < FL_COUNT && sl < SL_COUNT && listed0 <= freeBlocks
      ensures var a, i, left := Shown(), fl * SL_COUNT + sl, freeBlocks - listed0;
        && (bad == 0 <==> HeadAgrees(a, fl, sl) && ListPasses(a, i, bins[i], 0, left))
        && (bad == 0 ==> listed == listed0 + |ListFrom(a.m, bins[i], left)|)
        && (bad != 0 && HeadAgrees(a, fl, sl) ==> ListStopsAt(a, i, bins[i], 0, left, bad))
        && (!HeadAgrees(a, fl, sl) ==> bad == if bins[i] != 0 then bins[i] else epilogue)
    {
      hide SizeIn, FreeIn, BinOf, Bit, Word;
      ghost var a, i, left := Shown(), fl * SL_COUNT + sl, freeBlocks - listed0;
      listed := listed0;
      var head: nat, has := bins[fl * SL_COUNT + sl], Bit(slMap[fl], sl);
      if (head != 0) != has || (has && !Bit(flMap, fl)) {
        bad := epilogue;
        if head != 0 {
          bad := head;
        }
        return;
      }
      var before: nat, f: nat := 0, head;
      while f != 0
        invariant listed0 <= listed <= freeBlocks
        invariant ListPasses(a, i, f, before, freeBlocks - listed) <==> ListPasses(a, i, head, 0, left)
        invariant listed + |ListFrom(a.m, f, freeBlocks - listed)| == listed0 + |ListFrom(a.m, head, left)|
        invariant forall c: nat ::
          ListStopsAt(a, i, f, before, freeBlocks - listed, c) <==> ListStopsAt(a, i, head, 0, left, c)
        decreases freeBlocks - listed
      {
        if f < first || f >= epilogue || !FreeIn(Peek(f + 4)) || Peek(f + 12) != before
          || BinOf(SizeIn(Peek(f + 4))) != fl * SL_COUNT + sl || listed + 1 > freeBlocks
        {
          bad := f;
          return;
        }
        listed := listed + 1;
        before := f;
        f := Peek(f + 8);
      }
      bad := 0;
    }

    /** heap_check() */
    method HeapCheck() returns (bad: nat)
      requires Parts() && (first != 0 ==> Shown().Formed())
      ensures first != 0 ==> (bad == 0 <==> CheckPasses(Shown()))
      ensures first == 0 ==> bad == 0
      ensures first != 0 && !WalkPasses(mem[..], first, epilogue, false) ==>
        StopsAt(mem[..], first, epilogue, false, bad)
      ensures Valid() ==> bad == 0
    {
      hide Heap.Valid, WalkPasses, StopsAt, ListsPass, ListPasses, ListFrom, HeadAgrees, Bit, Image.FreeBlocks;
      hide ListStopsAt;
      if first == 0 {
        return 0;
      }
      ghost var a := Shown();
      if Valid() { ValidPasses(this); }
      var freeBlocks, listed := 0, 0;
      bad, freeBlocks := CheckBlocks();
      if bad != 0 {
        return;
      }
      for fl := 0 to FL_COUNT
        invariant listed <= freeBlocks
        invariant ListsPass(a, fl, 0, freeBlocks - listed) <==> CheckPasses(a)
      {
        for sl := 0 to SL_COUNT
          invariant listed <= freeBlocks
          invariant ListsPass(a, fl, sl, freeBlocks - listed) <==> CheckPasses(a)
        {
          ListsStep(a, fl, sl, freeBlocks - listed);
          bad, listed := CheckList(fl, sl, listed, freeBlocks);
          if bad != 0 {
            return;
          }
        }
        ListsStep(a, fl, 0, freeBlocks - listed);
        if slMap[fl] == 0 && Bit(flMap, fl) {
          return epilogue;
        }
      }
      ListsStep(a, 0, 0, freeBlocks - listed);
      if listed != freeBlocks {
        return epilogue;
      }
      return 0;
    }

    /** heap_stats(): a walk over the blocks. */
    method HeapStats(limit: nat) returns (s: Stats)
      requires Valid()
      ensures first == 0 ==> s == Stats(Bottom(), Bottom(), limit, 0, 0, 0, 0, 0)
      ensures first != 0 ==> s.start == first && s.brk == epilogue + 8 && s.limit == limit
      ensures first != 0 ==> s.used + s.freeBytes + 8 * s.blocks + 8 == s.brk - s.start
      ensures first != 0 ==> s.blocks == |h.size.Keys| && s.freeBlocks == |h.free|
      ensures forall f :: f in h.free && f in h.size ==> h.size[f] <= s.largestFree
      ensures s.largestFree != 0 ==> exists f :: f in h.free && f in h.size && h.size[f] == s.largestFree
    {
      hide Sound, Tiles, Apart, SizeIn, FreeIn, PrevFreeIn, Head, Shape.OverFree, Linked, Mapped, Filed;
      if first == 0 {
        return Stats(Bottom(), Bottom(), limit, 0, 0, 0, 0, 0);
      }
      ghost var v := Now();
      SoundTiles(v, 0, h.free);
      SpanIs(h);
      CountAll(h, h.free);
      CountAll(h, h.size.Keys);
      FirstHeader(h);
      var used, freeBytes, blocks, freeBlocks, largest := 0, 0, 0, 0, 0;
      var b := first;
      hide Under;
      while b != epilogue
        invariant IsHeader(h, b) && first <= b <= epilogue && used + freeBytes + 8 * blocks == b - first
        invariant blocks == |Under(h.size.Keys, b)| && freeBlocks == |Under(h.free, b)|
        invariant forall f :: f in Under(h.free, b) && f in h.size ==> h.size[f] <= largest
        invariant largest != 0 ==> exists f :: f in h.free && f in h.size && h.size[f] == largest
        decreases epilogue - b
      {
        BlockReads(v, 0, h.free, b);
        NextReads(v, 0, h.free, b);
        InSpanOf(h, b);
        CountNext(h, h.free, b);
        CountNext(h, h.size.Keys, b);
        var size := SizeIn(mem[b + 4]);
        blocks := blocks + 1;
        if FreeIn(mem[b + 4]) {
          freeBytes := freeBytes + size;
          freeBlocks := freeBlocks + 1;
          if size > largest {
            largest := size;
          }
        } else {
          used := used + size;
        }
        b := b + 8 + size;
      }
      return Stats(first, epilogue + 8, limit, used, freeBytes, blocks, freeBlocks, largest);
    }
  }

  /** In a valid state the variables that bound the heap are what the inspection takes them for. */
  lemma ValidForms(a: Heap)
    requires a.Valid()
    ensures a.Parts() && (a.first != 0 ==> a.Shown().Formed())
  {
    if a.first != 0 { SettledForms(a); }
  }

  lemma SettledForms(a: Heap)
    requires a.Settled()
    ensures a.Shown().Formed()
  {
    hide Sound, Apart, Tiles, SizeIn, FreeIn, PrevFreeIn, Head, BinOf;
    var v := a.Now();
    SoundTiles(v, 0, a.h.free);
    SpanIs(a.h);
    FirstHeader(a.h);
    HeadReads(v, 0, a.h.free, 0);
    Reads(v, 0, a.h.free, a.h.first);
    Reads(v, 0, a.h.free, a.h.epi);
  }

  lemma ValidPasses(a: Heap)
    requires a.Valid() && a.first != 0 && a.Shown().Formed()
    ensures CheckPasses(a.Shown())
  {
    hide Sound, Apart, CheckPasses;
    SoundPasses(a.Shown(), a.Now());
  }

  /** Before the first allocation no list holds anything, and the top is where the heap begins. */
  lemma FreshRoom(a: Heap, size: nat, limit: nat)
    requires a.Valid()
    ensures a.first == 0 ==> NoneFrom(a.lists, BinOf(Rounded(size)), BINS)
    ensures a.first == 0 ==>
      (Heap.TopRoom(Shape(a.Bottom(), a.Bottom(), map[], map[], {}), size, limit) <==> a.Bottom() + 16 + size <= limit)
  {
    hide Sound, Apart, BinOf, Rounded, Linked, Mapped, Tiles, Holds, Indexed;
    if a.first == 0 {
      forall i | 0 <= i < BINS ensures a.lists[i] == [] {
        NothingHeld(a.lists[i], i);
      }
    }
  }

  lemma NewUsed(h: Shape, g: Shape, b: nat)
    requires b !in h.Used() && g.Used() == h.Used() + {b}
    ensures b in g.Used() && g.Used() - {b} == h.Used()
  {
  }

  lemma LiveInHeap(a: Heap, p: nat)
    requires a.Valid()
    ensures p >= 8 && p - 8 in a.h.size ==> a.InHeap(p) && a.Settled()
  {
    hide Sound, Tiles, Apart;
    if a.first != 0 {
      SoundTiles(a.Now(), 0, a.h.free);
      if p >= 8 && p - 8 in a.h.size { InSpan(a.h, p - 8); }
    }
  }

  /** Every header of a started heap is in memory. */
  lemma InBounds(a: Heap)
    requires a.Valid() && a.first != 0
    ensures 0 < a.first <= a.epilogue && a.epilogue + 8 <= a.mem.Length
  {
    hide Sound, Tiles, Apart;
    SoundTiles(a.Now(), 0, a.h.free);
    SpanIs(a.h);
    Reads(a.Now(), 0, a.h.free, a.h.epi);
  }

  /** The words around a block pass for those of a used one exactly if it is used. */
  lemma BelievedIs(a: Heap, p: nat)
    requires a.Valid()
    ensures a.Live(p) ==> a.Believed(p)
    ensures p >= 8 && p - 8 in a.h.size && a.Believed(p) ==> a.Live(p)
    ensures p >= 8 && p - 8 in a.h.free ==> !a.Live(p) && a.InHeap(p) && a.Blame(p) == AlreadyFree
  {
    hide Sound, Tiles, SizeIn, FreeIn, PrevFreeIn, Head, Linked, Mapped, Filed, Apart;
    LiveInHeap(a, p);
    if a.first != 0 {
      SoundTiles(a.Now(), 0, a.h.free);
      SpanIs(a.h);
    }
    if p >= 8 && p - 8 in a.h.size {
      var v, b := a.Now(), p - 8;
      InBounds(a);
      BlockReads(v, 0, a.h.free, b);
      NextReads(v, 0, a.h.free, b);
      InSpanOf(a.h, b);
      if a.h.OverFree(b) {
        ReadsBelow(v, 0, a.h.free, b);
        BlockReads(v, 0, a.h.free, a.h.below[b]);
        InSpanOf(a.h, a.h.below[b]);
      }
    }
  }

  /** A block between used ones is not joined to either. */
  lemma AloneStays(h: Shape, b: nat)
    requires b in h.size
    ensures Heap.Alone(h, b) ==> h.AbsorbedUp(b) == h && h.Lowest(b) == b && !h.OverFree(b)
  {
  }

  lemma InSpanOf(h: Shape, b: nat)
    requires Tiles(h) && b in h.size
    ensures h.first <= b < h.End(b) <= h.epi
  {
    InSpan(h, b);
  }

  lemma SameEdges(h: Shape, b: nat)
    requires b in h.size && h.End(b) in h.size
    ensures h.Joined(b).first == h.first && h.Joined(b).epi == h.epi
  {
  }

  /** The end of a block that has to grow past the top. */
  lemma TopIsAbove(h: Shape, b: nat, size: nat)
    requires Tiles(h) && Apart(h) && b in h.Used() && size % 8 == 0 && h.size[b] < size
    requires var n := h.End(b);
      if n in h.size && n in h.free then h.End(n) == h.epi && h.size[b] + 8 + h.size[n] < size else n == h.epi
    ensures b + 8 + size >= h.epi + 8 && b + 8 + size > h.epi
  {
    hide Tiles, Apart;
    var n := h.End(b);
    if n in h.size && n in h.free {
      JoinedShape(h, b);
      SameEdges(h, b);
      AboveLast(h.Joined(b), b, size);
    } else {
      AboveLast(h, b, size);
    }
  }

  lemma SameUsed(used: set<nat>, b: nat)
    requires b in used
    ensures used - {b} + {b} == used
  {
  }

  lemma MovedUsed(used: set<nat>, b: nat, c: nat)
    requires b in used && c !in used
    ensures used + {c} - {b} == used - {b} + {c} && used + {c} - {b} - {c} == used - {b}
  {
  }

  /** No block is at address 0. */
  lemma NoZero(a: Heap)
    requires a.Valid()
    ensures 0 !in a.h.Used()
  {
    hide Sound, Tiles, Apart;
    if a.first != 0 {
      SoundTiles(a.Now(), 0, a.h.free);
      if 0 in a.h.size { InSpan(a.h, 0); }
    }
  }

  lemma SplitRest(h: Shape, b: nat, s: nat)
    requires b in h.size && s + 16 <= h.size[b]
    ensures b + 8 + s in h.Split(b, s).size && h.Split(b, s).size[b + 8 + s] == h.size[b] - s - 8
  {
  }

  lemma SplitUsed(used: set<nat>, both: set<nat>, b: nat, rest: nat)
    requires b in used && rest in both && both - {rest} == used && rest != b
    ensures both - {b} == used - {b} + {rest} && rest !in used && used - {b} <= both - {b} && b in both
  {
  }

  lemma TakenOut(used: set<nat>, now: set<nat>, b: nat, c: nat)
    requires b in used && now == used - {b} + {c} && (c == b || c !in used)
    ensures c in now && now - {c} == used - {b}
  {
  }

  lemma Replaced(used: set<nat>, taken: set<nat>, now: set<nat>, c: nat)
    requires exists b :: b !in used && taken == used + {b} && now == taken - {b} + {c} && (c == b || c !in taken)
    ensures now == used + {c} && c !in used
  {
  }

  // ---- what the invariant means --------------------------------------------------------------------------------

  /** Payloads of different live pointers have no byte in common, and lie in the heap. */
  lemma LiveDisjoint(a: Heap, p: nat, q: nat)
    requires a.Valid() && a.Live(p) && a.Live(q) && p != q
    ensures p - 8 in a.h.size && q - 8 in a.h.size
    ensures p + a.h.size[p - 8] <= q || q + a.h.size[q - 8] <= p
    ensures a.first + 8 <= p && p + a.h.size[p - 8] <= a.epilogue && p % 8 == 0
  {
    hide Sound, Tiles, Apart, Linked, Mapped, Filed;
    LiveInHeap(a, p);
    SoundTiles(a.Now(), 0, a.h.free);
    InSpan(a.h, p - 8);
    InSpan(a.h, q - 8);
    EightApart(a.h, p - 8, q - 8);
    EightApart(a.h, q - 8, p - 8);
  }

  /** Once everything is freed the heap is one free block again, from end to end. */
  lemma AllFreed(a: Heap, b: nat)
    requires a.Valid() && a.h.Used() == {} && b in a.h.size
    ensures b == a.first && a.h.End(b) == a.epilogue && a.h.size.Keys == {b} && a.h.free == {b}
  {
    hide Sound, Tiles, Linked, Mapped, Filed, Shape.OverFree;
    SoundTiles(a.Now(), 0, a.h.free);
    SpanIs(a.h);
    AllAreFree(a.h);
    forall c | c in a.h.size ensures c == a.h.first && a.h.End(c) == a.h.epi {
      LowestFree(a.h, c);
      InSpan(a.h, c);
    }
  }

  /** No free block is larger than free block f. */
  ghost predicate IsLargest(h: Shape, f: nat)
  {
    f in h.free && f in h.size && forall c :: c in h.free && c in h.size ==> h.size[c] <= h.size[f]
  }

  /** What find() comes to for a request as large as the largest free block: it may look only in the classes above. */
  lemma LargestFound(a: Heap, f: nat)
    requires a.Valid() && IsLargest(a.h, f)
    ensures var size := a.h.size[f];
      !NoneFrom(a.lists, BinOf(Rounded(size)), BINS) <==> size < 64 || size % Grain(size) == 0
  {
    hide Sound, Tiles, Apart, BinOf, Rounded, Grain, Linked, Mapped, Proper;
    var size, l := a.h.size[f], a.lists;
    RoundingStays(size);
    SoundFiled(a.Now(), 0, a.h.free);
    assert Indexed(l, a.h.size, f);
    assert Holds(l[BinOf(size)], BinOf(size), a.h.size, a.h.free);
    if BinOf(Rounded(size)) > BinOf(size) {
      forall k | BinOf(Rounded(size)) <= k < BINS && k < |l| ensures l[k] == [] {
        assert Holds(l[k], k, a.h.size, a.h.free);
        if l[k] != [] {
          var c := l[k][0];
          BinMonotone(a.h.size[c], size);
        }
      }
    }
  }

  /** Nothing past the largest free size is had without moving the top. */
  lemma NothingLarger(a: Heap, f: nat, n: nat)
    requires a.Valid() && IsLargest(a.h, f) && n > a.h.size[f] && n % 8 == 0
    ensures !Heap.HasRoom(a.lists, a.h, n, a.h.epi + 8)
  {
    hide Sound, Apart, BinOf, Rounded, Linked, Mapped, Proper, Tiles;
    var l := a.lists;
    SoundTiles(a.Now(), 0, a.h.free);
    SoundFiled(a.Now(), 0, a.h.free);
    LastFree(a.h);
    forall k | BinOf(Rounded(n)) <= k < BINS && k < |l| ensures l[k] == [] {
      assert Holds(l[k], k, a.h.size, a.h.free);
      if l[k] != [] {
        GoodFit(n, a.h.size[l[k][0]]);
      }
    }
  }

  /** The last block, if it is free, ends at the epilogue. */
  lemma LastFree(h: Shape)
    requires Tiles(h)
    ensures h.OverFree(h.epi) ==>
      h.below[h.epi] in h.size && h.below[h.epi] + 8 + h.size[h.below[h.epi]] == h.epi && h.below[h.epi] in h.free
  {
    hide Tiles;
    if h.OverFree(h.epi) { BelowIs(h, h.epi); }
  }

  /**
   * The largest free size bounds what is had without moving the top, and is had itself exactly when it is the first
   * size of its class or the last block is free and has it: otherwise find() looks in the classes above, which are
   * empty.
   */
  lemma LargestFree(a: Heap, f: nat)
    requires a.Valid() && IsLargest(a.h, f)
    ensures a.h.OverFree(a.h.epi) ==> a.h.below[a.h.epi] in a.h.size
    ensures var size := a.h.size[f];
      Heap.HasRoom(a.lists, a.h, size, a.h.epi + 8) <==>
      (size < 64 || size % Grain(size) == 0 || (a.h.OverFree(a.h.epi) && a.h.size[a.h.below[a.h.epi]] == size))
    ensures var top := a.h.epi + 8;
      forall n: nat :: n > a.h.size[f] && n % 8 == 0 ==> !Heap.HasRoom(a.lists, a.h, n, top)
  {
    hide Sound, Tiles, Apart, BinOf, Rounded, Grain, Linked, Mapped, Filed, NoneFrom;
    SoundTiles(a.Now(), 0, a.h.free);
    LastFree(a.h);
    LargestFound(a, f);
    var top := a.h.epi + 8;
    forall n: nat | n > a.h.size[f] && n % 8 == 0 ensures !Heap.HasRoom(a.lists, a.h, n, top) {
      NothingLarger(a, f, n);
    }
  }

  /** Started, and nothing allocated. */
  function Empty(bottom: nat): Shape
  {
    Shape(bottom, bottom, map[], map[], {})
  }

  /** A heap of one block of 136 bytes has room for another of 8. */
  lemma OneBlock(bottom: nat, ls: seq<seq<nat>>, limit: nat)
    requires bottom + 168 <= limit
    ensures var g := Empty(bottom).Extended(136);
      g.free == {} && g.epi == bottom + 144 && Heap.HasRoom(ls, g, 8, limit)
  {
    hide NoneFrom;
    var g := Empty(bottom).Extended(136);
    assert Heap.TopRoom(g, 8, limit);
  }

  /** The first of those two blocks is freed to one of its own, and the last block is a used one. */
  lemma TwoBlocks(bottom: nat)
    ensures var g := Empty(bottom).Extended(136).Extended(8);
      && g.epi == bottom + 160 && bottom in g.size && g.size[bottom] == 136
      && bottom in g.Used() && Heap.Alone(g, bottom)
      && IsLargest(g.Freed(bottom), bottom) && !g.Freed(bottom).OverFree(g.epi) && g.Freed(bottom).epi == g.epi
      && g.Freed(bottom).size == g.size
  {
  }

  lemma LargestIs(a: Heap, f: nat, s: Stats)
    requires IsLargest(a.h, f) && a.h.size[f] > 0 && a.h.size[f] <= s.largestFree
    requires s.largestFree != 0 ==> exists c :: c in a.h.free && c in a.h.size && a.h.size[c] == s.largestFree
    ensures s.largestFree == a.h.size[f]
  {
  }

  lemma Refused(a: Heap, f: nat)
    requires a.Valid() && IsLargest(a.h, f) && a.h.size[f] == 136 && !a.h.OverFree(a.h.epi)
    ensures !Heap.HasRoom(a.lists, a.h, 136, a.h.epi + 8)
  {
    hide BinOf, Rounded, Grain, NoneFrom, Heap.HasRoom, IsLargest, Shape.OverFree;
    OneThirtySix();
    LargestFree(a, f);
  }

  /** Two blocks, of 136 and of 8 bytes, and the first of them given back. */
  method FirstFreed(ram: nat, programEnd: nat) returns (a: Heap)
    requires 0 < programEnd && (programEnd + 7) / 8 * 8 + 168 <= ram <= 0x4000_0000
    ensures a.Valid() && a.first != 0 && a.mem.Length == ram && a.start == programEnd && fresh(a)
    ensures fresh(a.mem) && fresh(a.bins) && fresh(a.slMap)
    ensures a.h == Empty(a.Bottom()).Extended(136).Extended(8).Freed(a.Bottom())
  {
    hide Sound, Apart, Tiles, Keeps, Linked, Mapped, Filed, Shape.Used, Shape.Extended, Shape.OverFree, IsLargest,
      Heap.HasRoom, Heap.Alone;
    a := new Heap(ram, programEnd);
    ghost var bottom := a.Bottom();
    var first, second, errno, outcome;
    first, errno := a.Malloc(136, ram);
    OneBlock(bottom, a.lists, ram);
    second, errno := a.Malloc(8, ram);
    TwoBlocks(bottom);
    outcome := a.Free(first);
  }

  /** A heap where it is not had: the largest free size is 136, and a request for 136 bytes has to move the top. */
  method LargestMayNotFit(ram: nat, programEnd: nat) returns (a: Heap, s: Stats, p: nat)
    requires 0 < programEnd && (programEnd + 7) / 8 * 8 + 168 <= ram <= 0x4000_0000
    ensures a.Valid() && a.mem.Length == ram && a.start == programEnd && !a.h.OverFree(a.h.epi)
    ensures s.largestFree == 136 && s.brk == a.h.epi + 8 && p == 0
  {
    hide Sound, Apart, Tiles, Keeps, Linked, Mapped, Filed, Shape.Used, Shape.Extended, Shape.OverFree, Shape.Freed,
      IsLargest, Heap.HasRoom, Heap.Alone;
    a := FirstFreed(ram, programEnd);
    ghost var bottom := a.Bottom();
    TwoBlocks(bottom);
    s := a.HeapStats(ram);
    LargestIs(a, bottom, s);
    Refused(a, bottom);
    var errno;
    p, errno := a.Malloc(136, s.brk);
  }

  lemma LowestFree(h: Shape, c: nat)
    requires Tiles(h) && Apart(h) && h.Used() == {} && c in h.size && c in h.free
    ensures c == h.first
  {
    hide Rests, Clear;
    assert c == h.first || c in h.below by { assert Fits(h, c); }
    hide Tiles, Fits;
    NotBoth(h, c);
    if c in h.below {
      AllAreFree(h);
      BelowIs(h, c);
    }
  }

  lemma AllAreFree(h: Shape)
    requires h.Used() == {}
    ensures h.size.Keys <= h.free
  {
    forall b | b in h.size.Keys ensures b in h.free {
      assert b !in h.Used();
    }
  }
}
