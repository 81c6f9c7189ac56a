/** The segregated lists of free blocks: their heads, the links in the blocks, and the two bitmaps. */
module HeapLists {
  import opened SizeClasses
  import opened HeapHeaders

  /** Element k of a list, 0 beyond either end. */
  function At(l: seq<nat>, k: int): nat
  {
    if 0 <= k < |l| then l[k] else 0
  }

  /** The block at position k links to its neighbours in the list. */
  ghost predicate Node(m: seq<nat>, l: seq<nat>, k: nat)
  {
    k < |l| ==> l[k] + 16 <= |m| && m[l[k] + 8] == At(l, k + 1) && m[l[k] + 12] == At(l, k - 1)
  }

  /** `head` and the links in memory spell out the list l. */
  ghost predicate Chain(m: seq<nat>, head: nat, l: seq<nat>)
  {
    head == At(l, 0) && forall k: nat :: k < |l| ==> Node(m, l, k)
  }

  /** Distinct addresses, none 0, each a multiple of 8. */
  ghost predicate Proper(l: seq<nat>)
  {
    && (forall k :: 0 <= k < |l| ==> l[k] > 0 && l[k] % 8 == 0)
    && (forall j, k :: 0 <= j < k < |l| ==> l[j] != l[k])
  }

  ghost predicate Linked(m: seq<nat>, bins: seq<nat>, lists: seq<seq<nat>>)
  {
    |bins| == BINS && |lists| == BINS && forall i :: 0 <= i < BINS ==> Chain(m, bins[i], lists[i])
  }

  /** List i holds only blocks of S of class i. */
  ghost predicate Holds(l: seq<nat>, i: nat, size: map<nat, nat>, S: set<nat>)
  {
    Proper(l) && forall k :: 0 <= k < |l| ==> l[k] in S && l[k] in size && BinOf(size[l[k]]) == i
  }

  /** Block f is in the list of its class. */
  ghost predicate Indexed(lists: seq<seq<nat>>, size: map<nat, nat>, f: nat)
  {
    f in size && BinOf(size[f]) < |lists| && f in lists[BinOf(size[f])]
  }

  /** Together the lists are S, and a block's size says which of them it is in. */
  ghost predicate Filed(lists: seq<seq<nat>>, size: map<nat, nat>, S: set<nat>)
  {
    && |lists| == BINS
    && (forall i :: 0 <= i < BINS ==> Holds(lists[i], i, size, S))
    && (forall f :: f in S ==> Indexed(lists, size, f))
  }

  // ---- taking a block out -------------------------------------------------------------------------

  function Cut(l: seq<nat>, k: nat): seq<nat>
    requires k < |l|
  {
    l[..k] + l[k + 1..]
  }

  /** Memory after the neighbours of l[k] are linked to one another. */
  function Relinked(m: seq<nat>, l: seq<nat>, k: nat): seq<nat>
    requires forall j :: 0 <= j < |l| ==> l[j] + 16 <= |m|
  {
    var prev, next := At(l, k - 1), At(l, k + 1);
    var m1 := if prev != 0 then m[prev + 8 := next] else m;
    if next != 0 then m1[next + 12 := prev] else m1
  }

  /** The same, a write at a time. */
  lemma RelinkedIs(m: seq<nat>, l: seq<nat>, k: nat)
    requires k < |l| && forall j :: 0 <= j < |l| ==> l[j] + 16 <= |m| && l[j] > 0
    ensures var prev, next := At(l, k - 1), At(l, k + 1);
      && (prev == 0 <==> k == 0) && (next == 0 <==> k == |l| - 1)
      && (prev != 0 ==> prev + 16 <= |m|) && (next != 0 ==> next + 16 <= |m|)
      && Relinked(m, l, k) ==
        if prev != 0 && next != 0 then m[prev + 8 := next][next + 12 := prev]
        else if prev != 0 then m[prev + 8 := next]
        else if next != 0 then m[next + 12 := prev] else m
  {
  }

  lemma CutAt(l: seq<nat>, k: nat, j: int)
    requires k < |l|
    ensures At(Cut(l, k), j) == if j < k then At(l, j) else At(l, j + 1)
  {
  }

  lemma CutNode(m: seq<nat>, l: seq<nat>, k: nat, j: nat)
    requires k < |l| && Proper(l) && (forall i :: 0 <= i < |l| ==> l[i] + 16 <= |m|)
    requires j < |l| && j != k && Node(m, l, j)
    ensures var m2 := Relinked(m, l, k);
      && |m2| == |m|
      && m2[l[j] + 8] == (if j == k - 1 then At(l, k + 1) else At(l, j + 1))
      && m2[l[j] + 12] == (if j == k + 1 then At(l, k - 1) else At(l, j - 1))
  {
  }

  lemma CutChain(m: seq<nat>, head: nat, l: seq<nat>, k: nat)
    requires k < |l| && Proper(l) && Chain(m, head, l) && (forall i :: 0 <= i < |l| ==> l[i] + 16 <= |m|)
    ensures Chain(Relinked(m, l, k), if k == 0 then At(l, 1) else head, Cut(l, k)) && Proper(Cut(l, k))
  {
    hide Relinked, Cut, Node, Proper;
    CutProper(l, k);
    CutAt(l, k, 0);
    forall j: nat | j < |Cut(l, k)| ensures Node(Relinked(m, l, k), Cut(l, k), j) {
      CutNodeIs(m, l, k, j);
    }
  }

  lemma CutProper(l: seq<nat>, k: nat)
    requires k < |l| && Proper(l)
    ensures Proper(Cut(l, k)) && |Cut(l, k)| == |l| - 1
  {
  }

  /** Node j of the shorter list is the next one of the longer from the gap on. */
  lemma CutNodeIs(m: seq<nat>, l: seq<nat>, k: nat, j: nat)
    requires k < |l| && Proper(l) && (forall i :: 0 <= i < |l| ==> l[i] + 16 <= |m|) && j < |l| - 1
    requires forall i: nat :: i < |l| ==> Node(m, l, i)
    ensures Node(Relinked(m, l, k), Cut(l, k), j)
  {
    hide Relinked, Cut, Proper;
    CutProper(l, k);
    var i := if j < k then j else j + 1;
    CutNode(m, l, k, i);
    CutAt(l, k, j);
    CutAt(l, k, j - 1);
    CutAt(l, k, j + 1);
  }

  /** A list without the blocks written to is not changed. */
  lemma OtherChain(m: seq<nat>, m2: seq<nat>, head: nat, l: seq<nat>)
    requires Chain(m, head, l) && |m2| == |m|
    requires forall k ::
      0 <= k < |l| && l[k] + 16 <= |m| ==> m2[l[k] + 8] == m[l[k] + 8] && m2[l[k] + 12] == m[l[k] + 12]
    ensures Chain(m2, head, l)
  {
    forall k: nat | k < |l| ensures Node(m2, l, k) {
      assert Node(m, l, k);
    }
  }

  lemma ListInRam(m: seq<nat>, bins: seq<nat>, lists: seq<seq<nat>>, i: nat)
    requires Linked(m, bins, lists) && i < BINS
    ensures forall j :: 0 <= j < |lists[i]| ==> lists[i][j] + 16 <= |m|
  {
    forall j | 0 <= j < |lists[i]| ensures lists[i][j] + 16 <= |m| {
      assert Chain(m, bins[i], lists[i]);
      assert Node(m, lists[i], j);
    }
  }

  lemma RelinkedFar(m: seq<nat>, l: seq<nat>, k: nat, c: nat)
    requires (forall j :: 0 <= j < |l| ==> l[j] + 16 <= |m|)
    requires (forall j :: 0 <= j < |l| ==> l[j] != c && l[j] % 8 == 0)
    requires c % 8 == 0 && c + 16 <= |m|
    ensures |Relinked(m, l, k)| == |m| && Relinked(m, l, k)[c + 8] == m[c + 8] && Relinked(m, l, k)[c + 12] == m[c + 12]
  {
  }

  lemma RelinkedSize(m: seq<nat>, l: seq<nat>, k: nat)
    requires forall j :: 0 <= j < |l| ==> l[j] + 16 <= |m|
    ensures |Relinked(m, l, k)| == |m|
  {
  }

  /** Taking position k out of list i leaves every list well linked. */
  lemma CutLinked(m: seq<nat>, bins: seq<nat>, lists: seq<seq<nat>>, size: map<nat, nat>, S: set<nat>, i: nat, k: nat)
    requires Linked(m, bins, lists) && Filed(lists, size, S) && i < BINS && k < |lists[i]|
    requires forall j :: 0 <= j < |lists[i]| ==> lists[i][j] + 16 <= |m|
    ensures Linked(Relinked(m, lists[i], k), if k == 0 then bins[i := At(lists[i], 1)] else bins,
                   lists[i := Cut(lists[i], k)])
  {
    hide Relinked, Chain, Holds, Indexed, Cut, At, BinOf;
    var l := lists[i];
    var m2, bins2, lists2 := Relinked(m, l, k), if k == 0 then bins[i := At(l, 1)] else bins, lists[i := Cut(l, k)];
    RelinkedSize(m, l, k);
    ProperList(lists, size, S, i);
    forall x | 0 <= x < BINS ensures Chain(m2, bins2[x], lists2[x]) {
      if x == i {
        CutChain(m, bins[i], l, k);
      } else {
        forall y | 0 <= y < |lists[x]| && lists[x][y] + 16 <= |m|
          ensures m2[lists[x][y] + 8] == m[lists[x][y] + 8] && m2[lists[x][y] + 12] == m[lists[x][y] + 12]
        {
          FarList(lists, size, S, i, x, y);
          RelinkedFar(m, l, k, lists[x][y]);
        }
        OtherChain(m, m2, bins[x], lists[x]);
      }
    }
  }

  lemma ProperList(lists: seq<seq<nat>>, size: map<nat, nat>, S: set<nat>, i: nat)
    requires Filed(lists, size, S) && i < BINS
    ensures Proper(lists[i])
  {
    hide BinOf, Indexed;
    assert Holds(lists[i], i, size, S);
  }

  lemma FarList(lists: seq<seq<nat>>, size: map<nat, nat>, S: set<nat>, i: nat, x: nat, y: nat)
    requires Filed(lists, size, S) && i < BINS && x < BINS && i != x && y < |lists[x]|
    ensures lists[x][y] % 8 == 0
    ensures forall j :: 0 <= j < |lists[i]| ==> lists[i][j] != lists[x][y] && lists[i][j] % 8 == 0
  {
    hide BinOf, Indexed;
    assert Holds(lists[x], x, size, S) && Holds(lists[i], i, size, S);
  }

  lemma CutHolds(l: seq<nat>, i: nat, size: map<nat, nat>, S: set<nat>, k: nat)
    requires Holds(l, i, size, S) && k < |l|
    ensures Holds(Cut(l, k), i, size, S - {l[k]})
  {
    hide BinOf;
  }

  lemma OtherHolds(l: seq<nat>, i: nat, size: map<nat, nat>, S: set<nat>, b: nat)
    requires Holds(l, i, size, S) && b !in l
    ensures Holds(l, i, size, S - {b})
  {
    hide BinOf;
  }

  lemma CutMember(l: seq<nat>, k: nat, f: nat)
    requires k < |l| && f in l && f != l[k]
    ensures f in Cut(l, k)
  {
    var j :| 0 <= j < |l| && l[j] == f;
    assert Cut(l, k)[if j < k then j else j - 1] == f;
  }

  /** And the lists then hold exactly the other blocks. */
  lemma CutFiled(lists: seq<seq<nat>>, size: map<nat, nat>, S: set<nat>, i: nat, k: nat)
    requires Filed(lists, size, S) && i < BINS && k < |lists[i]|
    ensures Filed(lists[i := Cut(lists[i], k)], size, S - {lists[i][k]})
  {
    hide Holds, BinOf, Cut;
    var b, lists2 := lists[i][k], lists[i := Cut(lists[i], k)];
    forall x | 0 <= x < BINS ensures Holds(lists2[x], x, size, S - {b}) {
      if x == i {
        CutHolds(lists[i], i, size, S, k);
      } else {
        NotInOther(lists, size, S, i, x, k);
        OtherHolds(lists[x], x, size, S, b);
      }
    }
    forall f | f in S - {b} ensures Indexed(lists2, size, f) {
      assert Indexed(lists, size, f);
      if BinOf(size[f]) == i { CutMember(lists[i], k, f); }
    }
  }

  lemma NotInOther(lists: seq<seq<nat>>, size: map<nat, nat>, S: set<nat>, i: nat, x: nat, k: nat)
    requires Filed(lists, size, S) && i < BINS && x < BINS && i != x && k < |lists[i]|
    ensures lists[i][k] !in lists[x]
  {
    hide BinOf, Indexed;
    assert Holds(lists[x], x, size, S) && Holds(lists[i], i, size, S);
  }

  /** Only links of blocks that stay listed are written. */
  lemma CutLinks(m: seq<nat>, lists: seq<seq<nat>>, size: map<nat, nat>, S: set<nat>, i: nat, k: nat, top: nat)
    requires Filed(lists, size, S) && i < BINS && k < |lists[i]|
    requires forall j :: 0 <= j < |lists[i]| ==> lists[i][j] + 16 <= |m|
    ensures OnlyLinks(m, Relinked(m, lists[i], k), S - {lists[i][k]}, top)
  {
    hide BinOf, Indexed;
    assert Holds(lists[i], i, size, S);
  }

  // ---- putting a block in front -------------------------------------------------------------------------

  /** Memory after block b is linked in front of the list that starts at `head`. */
  function Fronted(m: seq<nat>, head: nat, b: nat): seq<nat>
    requires b + 16 <= |m| && (head != 0 ==> head + 16 <= |m|)
  {
    var m1 := m[b + 12 := 0][b + 8 := head];
    if head != 0 then m1[head + 12 := b] else m1
  }

  lemma FrontedIs(m: seq<nat>, head: nat, b: nat)
    requires b + 16 <= |m| && (head != 0 ==> head + 16 <= |m|)
    ensures Fronted(m, head, b) == (if head != 0 then m[b + 12 := 0][b + 8 := head][head + 12 := b]
      else m[b + 12 := 0][b + 8 := head])
  {
  }

  lemma FrontNode(m: seq<nat>, head: nat, l: seq<nat>, b: nat, j: nat)
    requires b + 16 <= |m| && head == At(l, 0) && Proper([b] + l) && (head != 0 ==> head + 16 <= |m|)
    requires j < |l| && Node(m, l, j)
    ensures Node(Fronted(m, head, b), [b] + l, j + 1)
  {
    var c := [b] + l;
    assert c[j + 1] == l[j] && At(c, j + 2) == At(l, j + 1) && At(c, j) == if j == 0 then b else At(l, j - 1);
    assert b != c[j + 1] && head == c[1];
  }

  lemma FrontChain(m: seq<nat>, head: nat, l: seq<nat>, b: nat)
    requires b + 16 <= |m| && Chain(m, head, l) && Proper([b] + l) && (head != 0 ==> head + 16 <= |m|)
    ensures Chain(Fronted(m, head, b), b, [b] + l)
  {
    var m2, c := Fronted(m, head, b), [b] + l;
    forall j: nat | j < |c| ensures Node(m2, c, j) {
      if j > 0 {
        FrontNode(m, head, l, b, j - 1);
      } else if l != [] {
        assert c[1] == head != b;
      }
    }
  }

  lemma FrontFar(m: seq<nat>, head: nat, b: nat, c: nat)
    requires b + 16 <= |m| && (head != 0 ==> head + 16 <= |m|)
    requires c % 8 == 0 && b % 8 == 0 && (head != 0 ==> head % 8 == 0 && c != head) && c != b && c + 16 <= |m|
    ensures |Fronted(m, head, b)| == |m|
    ensures Fronted(m, head, b)[c + 8] == m[c + 8] && Fronted(m, head, b)[c + 12] == m[c + 12]
  {
  }

  lemma ProperFront(l: seq<nat>, b: nat)
    requires Proper(l) && b > 0 && b % 8 == 0 && b !in l
    ensures Proper([b] + l)
  {
  }

  lemma NewBlock(lists: seq<seq<nat>>, size: map<nat, nat>, S: set<nat>, x: nat, b: nat)
    requires Filed(lists, size, S) && x < BINS && b !in S
    ensures b !in lists[x]
  {
    hide BinOf, Indexed;
    assert Holds(lists[x], x, size, S);
  }

  lemma HeadOf(m: seq<nat>, bins: seq<nat>, lists: seq<seq<nat>>, i: nat)
    requires Linked(m, bins, lists) && i < BINS
    ensures Chain(m, bins[i], lists[i]) && bins[i] == At(lists[i], 0)
    ensures bins[i] != 0 ==> lists[i] != [] && bins[i] + 16 <= |m|
  {
    ListInRam(m, bins, lists, i);
  }

  lemma FrontLinked(m: seq<nat>, bins: seq<nat>, lists: seq<seq<nat>>, size: map<nat, nat>, S: set<nat>, i: nat, b: nat)
    requires Linked(m, bins, lists) && Filed(lists, size, S) && i < BINS && b !in S && b > 0 && b % 8 == 0
    requires b + 16 <= |m| && (bins[i] != 0 ==> bins[i] + 16 <= |m|)
    ensures Linked(Fronted(m, bins[i], b), bins[i := b], lists[i := [b] + lists[i]])
  {
    hide Fronted, Chain, Holds, Indexed, BinOf, At;
    var m2, bins2, lists2 := Fronted(m, bins[i], b), bins[i := b], lists[i := [b] + lists[i]];
    HeadOf(m, bins, lists, i);
    FrontedSize(m, bins[i], b);
    forall x | 0 <= x < BINS ensures Chain(m2, bins2[x], lists2[x]) {
      if x == i {
        ProperList(lists, size, S, i);
        NewBlock(lists, size, S, i, b);
        ProperFront(lists[i], b);
        FrontChain(m, bins[i], lists[i], b);
      } else {
        assert Chain(m, bins[x], lists[x]);
        forall y | 0 <= y < |lists[x]| && lists[x][y] + 16 <= |m|
          ensures m2[lists[x][y] + 8] == m[lists[x][y] + 8] && m2[lists[x][y] + 12] == m[lists[x][y] + 12]
        {
          FarList(lists, size, S, i, x, y);
          NewBlock(lists, size, S, x, b);
          HeadFar(lists, i, x, y, bins[i]);
          FrontFar(m, bins[i], b, lists[x][y]);
        }
        OtherChain(m, m2, bins[x], lists[x]);
      }
    }
  }

  lemma FrontedSize(m: seq<nat>, head: nat, b: nat)
    requires b + 16 <= |m| && (head != 0 ==> head + 16 <= |m|)
    ensures |Fronted(m, head, b)| == |m|
  {
  }

  lemma HeadFar(lists: seq<seq<nat>>, i: nat, x: nat, y: nat, head: nat)
    requires i < |lists| && x < |lists| && y < |lists[x]| && head == At(lists[i], 0)
    requires forall j :: 0 <= j < |lists[i]| ==> lists[i][j] != lists[x][y] && lists[i][j] % 8 == 0
    ensures head != 0 ==> head != lists[x][y] && head % 8 == 0
  {
  }

  lemma FrontHolds(l: seq<nat>, i: nat, size: map<nat, nat>, S: set<nat>, b: nat)
    requires Holds(l, i, size, S) && b !in S && b > 0 && b % 8 == 0 && b in size && BinOf(size[b]) == i
    ensures Holds([b] + l, i, size, S + {b})
  {
    hide BinOf;
  }

  lemma MoreHolds(l: seq<nat>, i: nat, size: map<nat, nat>, S: set<nat>, b: nat)
    requires Holds(l, i, size, S)
    ensures Holds(l, i, size, S + {b})
  {
    hide BinOf;
  }

  lemma FrontFiled(lists: seq<seq<nat>>, size: map<nat, nat>, S: set<nat>, i: nat, b: nat)
    requires Filed(lists, size, S) && i < BINS && b !in S && b > 0 && b % 8 == 0 && b in size && BinOf(size[b]) == i
    ensures Filed(lists[i := [b] + lists[i]], size, S + {b})
  {
    hide Holds, BinOf;
    var lists2 := lists[i := [b] + lists[i]];
    forall x | 0 <= x < BINS ensures Holds(lists2[x], x, size, S + {b}) {
      if x == i { FrontHolds(lists[i], i, size, S, b); } else { MoreHolds(lists[x], x, size, S, b); }
    }
    forall f | f in S + {b} ensures Indexed(lists2, size, f) {
      if f in S { assert Indexed(lists, size, f); }
      if f == b { assert lists2[i][0] == b; }
    }
  }

  lemma FrontLinks(m: seq<nat>, lists: seq<seq<nat>>, size: map<nat, nat>, S: set<nat>, i: nat, b: nat, top: nat)
    requires Filed(lists, size, S) && i < BINS && b + 16 <= |m|
    requires At(lists[i], 0) != 0 ==> At(lists[i], 0) + 16 <= |m|
    ensures OnlyLinks(m, Fronted(m, At(lists[i], 0), b), S + {b}, top)
  {
    hide BinOf, Indexed;
    assert Holds(lists[i], i, size, S);
  }

  // ---- other sizes, other blocks -----------------------------------------------------------------------

  /** The lists only depend on the sizes of the blocks they hold. */
  lemma FiledSizes(lists: seq<seq<nat>>, size: map<nat, nat>, size2: map<nat, nat>, S: set<nat>)
    requires Filed(lists, size, S) && (forall f :: f in S && f in size ==> f in size2 && size2[f] == size[f])
    ensures Filed(lists, size2, S)
  {
    hide BinOf;
    forall x | 0 <= x < BINS ensures Holds(lists[x], x, size2, S) {
      assert Holds(lists[x], x, size, S);
    }
    forall f | f in S ensures Indexed(lists, size2, f) {
      assert Indexed(lists, size, f);
    }
  }

  /** The chains only depend on the links of the blocks they hold. */
  lemma LinkedSame(m: seq<nat>, m2: seq<nat>, bins: seq<nat>, lists: seq<seq<nat>>)
    requires Linked(m, bins, lists) && |m2| == |m|
    requires forall i, k :: 0 <= i < BINS && 0 <= k < |lists[i]| && lists[i][k] + 16 <= |m| ==>
      m2[lists[i][k] + 8] == m[lists[i][k] + 8] && m2[lists[i][k] + 12] == m[lists[i][k] + 12]
    ensures Linked(m2, bins, lists)
  {
    forall i | 0 <= i < BINS ensures Chain(m2, bins[i], lists[i]) {
      assert Chain(m, bins[i], lists[i]);
      OtherChain(m, m2, bins[i], lists[i]);
    }
  }

  // ---- the bitmaps --------------------------------------------------------------------------------------

  /** Bit s of word f is set exactly when list 8 * f + s is not empty. */
  ghost predicate BitFor(sl: seq<nat>, lists: seq<seq<nat>>, f: nat, s: nat)
    requires |sl| == FL_COUNT && |lists| == BINS && f < FL_COUNT
  {
    if s < SL_COUNT then Bit(sl[f], s) <==> lists[SL_COUNT * f + s] != [] else !Bit(sl[f], s)
  }

  /** Bit f of the upper map is set exactly when word f of the lower one is not 0. */
  ghost predicate LevelFor(sl: seq<nat>, fl: nat, f: nat)
    requires |sl| == FL_COUNT
  {
    if f < FL_COUNT then Bit(fl, f) <==> sl[f] != 0 else !Bit(fl, f)
  }

  ghost predicate Mapped(sl: seq<nat>, fl: nat, lists: seq<seq<nat>>)
  {
    && |sl| == FL_COUNT && |lists| == BINS
    && (forall f, s :: 0 <= f < FL_COUNT && 0 <= s ==> BitFor(sl, lists, f, s))
    && (forall f :: 0 <= f ==> LevelFor(sl, fl, f))
  }

  /** The bitmaps do not care what a list holds, only whether it holds anything. */
  lemma MappedSame(sl: seq<nat>, fl: nat, lists: seq<seq<nat>>, i: nat, l: seq<nat>)
    requires Mapped(sl, fl, lists) && i < BINS && (l == [] <==> lists[i] == [])
    ensures Mapped(sl, fl, lists[i := l])
  {
    hide Bit, LevelFor;
    var lists2 := lists[i := l];
    forall f, s | 0 <= f < FL_COUNT && 0 <= s ensures BitFor(sl, lists2, f, s) {
      assert BitFor(sl, lists, f, s);
    }
  }

  /** Setting both bits when a block goes into list (f, s). */
  lemma MappedSet(sl: seq<nat>, fl: nat, lists: seq<seq<nat>>, f: nat, s: nat, l: seq<nat>)
    requires Mapped(sl, fl, lists) && f < FL_COUNT && s < SL_COUNT && l != []
    ensures Mapped(sl[f := SetBit(sl[f], s)], SetBit(fl, f), lists[SL_COUNT * f + s := l])
  {
    hide Bit, SetBit;
    var sl2, fl2, lists2 := sl[f := SetBit(sl[f], s)], SetBit(fl, f), lists[SL_COUNT * f + s := l];
    forall g, t | 0 <= g < FL_COUNT && 0 <= t ensures BitFor(sl2, lists2, g, t) {
      assert BitFor(sl, lists, g, t);
      SetBitIs(sl[f], s, t);
    }
    SetBitIs(sl[f], s, s);
    NoBitsIsZero(s);
    forall g | 0 <= g ensures LevelFor(sl2, fl2, g) {
      assert LevelFor(sl, fl, g);
      SetBitIs(fl, f, g);
    }
  }

  /** Clearing the bit of list (f, s), and that of its level when nothing else is set, once the list is empty. */
  lemma MappedClear(sl: seq<nat>, fl: nat, lists: seq<seq<nat>>, f: nat, s: nat)
    requires Mapped(sl, fl, lists) && f < FL_COUNT && s < SL_COUNT
    ensures var x := ClearBit(sl[f], s);
      Mapped(sl[f := x], if x == 0 then ClearBit(fl, f) else fl, lists[SL_COUNT * f + s := []])
  {
    hide Bit, ClearBit;
    var x := ClearBit(sl[f], s);
    var sl2, fl2, lists2 := sl[f := x], if x == 0 then ClearBit(fl, f) else fl, lists[SL_COUNT * f + s := []];
    forall g, t | 0 <= g < FL_COUNT && 0 <= t ensures BitFor(sl2, lists2, g, t) {
      assert BitFor(sl, lists, g, t);
      ClearBitIs(sl[f], s, t);
    }
    forall g | 0 <= g ensures LevelFor(sl2, fl2, g) {
      assert LevelFor(sl, fl, g);
      ClearBitIs(fl, f, g);
      if g == f && x != 0 {
        CtzIs(x, 0);
        ClearBitIs(sl[f], s, Ctz(x));
        NoBitsIsZero(Ctz(x));
      }
    }
  }

  /** Nothing but zeroes describes empty lists. */
  lemma MappedNone(sl: seq<nat>, lists: seq<seq<nat>>)
    requires |sl| == FL_COUNT && |lists| == BINS
    requires (forall f :: 0 <= f < FL_COUNT ==> sl[f] == 0) && (forall i :: 0 <= i < BINS ==> lists[i] == [])
    ensures Mapped(sl, 0, lists)
  {
    hide Bit;
    forall f, s | 0 <= f < FL_COUNT && 0 <= s ensures BitFor(sl, lists, f, s) {
      NoBitsIsZero(s);
    }
    forall f | 0 <= f ensures LevelFor(sl, 0, f) {
      NoBitsIsZero(f);
    }
  }

  // ---- the first list that will do ------------------------------------------------------------------------

  /** No list from i up to j holds anything. */
  ghost predicate NoneFrom(lists: seq<seq<nat>>, i: nat, j: nat)
  {
    forall k :: i <= k < j && k < |lists| ==> lists[k] == []
  }

  /** The lowest set bit from s on names the first list of level f from (f, s) on that holds a block. */
  lemma FirstInLevel(sl: seq<nat>, fl: nat, lists: seq<seq<nat>>, f: nat, s: nat)
    requires Mapped(sl, fl, lists) && f < FL_COUNT && s < SL_COUNT && From(sl[f], s) != 0
    ensures var t := Ctz(From(sl[f], s));
      s <= t < SL_COUNT && lists[SL_COUNT * f + t] != [] && NoneFrom(lists, SL_COUNT * f + s, SL_COUNT * f + t)
  {
    hide Bit, From, Ctz, LevelFor;
    var x := From(sl[f], s);
    var t := Ctz(x);
    CtzIs(x, 0);
    FromIs(sl[f], s, t);
    assert BitFor(sl, lists, f, t);
    forall k | SL_COUNT * f + s <= k < SL_COUNT * f + t && k < |lists| ensures lists[k] == [] {
      var j := k - SL_COUNT * f;
      CtzIs(x, j);
      FromIs(sl[f], s, j);
      assert BitFor(sl, lists, f, j);
    }
  }

  lemma NoneInLevel(sl: seq<nat>, fl: nat, lists: seq<seq<nat>>, f: nat, s: nat)
    requires Mapped(sl, fl, lists) && f < FL_COUNT && s < SL_COUNT && From(sl[f], s) == 0
    ensures NoneFrom(lists, SL_COUNT * f + s, SL_COUNT * f + SL_COUNT)
  {
    hide Bit, From, LevelFor;
    forall k | SL_COUNT * f + s <= k < SL_COUNT * f + SL_COUNT && k < |lists| ensures lists[k] == [] {
      var j := k - SL_COUNT * f;
      FromIs(sl[f], s, j);
      NoBitsIsZero(j);
      assert BitFor(sl, lists, f, j);
    }
  }

  /** A level without a bit holds nothing. */
  lemma EmptyLevel(sl: seq<nat>, fl: nat, lists: seq<seq<nat>>, f: nat, k: nat)
    requires Mapped(sl, fl, lists) && f < FL_COUNT && !Bit(fl, f) && SL_COUNT * f <= k < SL_COUNT * f + SL_COUNT
    ensures lists[k] == []
  {
    hide Bit;
    assert LevelFor(sl, fl, f);
    NoBitsIsZero(k - SL_COUNT * f);
    assert BitFor(sl, lists, f, k - SL_COUNT * f);
  }

  /** The lowest set level from f on: no list of a level between holds anything, and the level's word is not 0. */
  lemma FirstLevel(sl: seq<nat>, fl: nat, lists: seq<seq<nat>>, f: nat)
    requires Mapped(sl, fl, lists) && From(fl, f) != 0
    ensures var g := Ctz(From(fl, f)); f <= g < FL_COUNT && sl[g] != 0 && NoneFrom(lists, SL_COUNT * f, SL_COUNT * g)
  {
    hide Bit, From, Ctz, BitFor;
    var x := From(fl, f);
    var g := Ctz(x);
    CtzIs(x, 0);
    FromIs(fl, f, g);
    assert LevelFor(sl, fl, g);
    forall k | SL_COUNT * f <= k < SL_COUNT * g && k < |lists| ensures lists[k] == [] {
      var j := k / SL_COUNT;
      CtzIs(x, j);
      FromIs(fl, f, j);
      EmptyLevel(sl, fl, lists, j, k);
    }
  }

  lemma NoLevel(sl: seq<nat>, fl: nat, lists: seq<seq<nat>>, f: nat)
    requires Mapped(sl, fl, lists) && From(fl, f) == 0
    ensures NoneFrom(lists, SL_COUNT * f, BINS)
  {
    hide Bit, From, BitFor, LevelFor;
    forall k | SL_COUNT * f <= k < BINS && k < |lists| ensures lists[k] == [] {
      var j := k / SL_COUNT;
      FromIs(fl, f, j);
      NoBitsIsZero(j);
      EmptyLevel(sl, fl, lists, j, k);
    }
  }
}
